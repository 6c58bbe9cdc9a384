/** GameViewModel: the object the view talks to. It owns the game record, the
    list of face-up cards awaiting evaluation and the auto-close timer, and
    updates them in place. Choose, CheckForMatch, CloseUnmatchedCards and
    TimerFires are proved to perform exactly the step of the same name in
    module GameRules; Choose and TimerFires, the steps the view triggers,
    also keep Valid(). The constructor and NewGame establish a fresh deal. */
module ViewModel {
  import opened Model
  import GameRules
  import Shuffling

  /** The characters a deck is made from, in dealing order. */
  const CHARACTERS: seq<string> := ["Luke", "Leia", "Han", "Chewbacca", "Darth Vader", "Yoda", "R2-D2", "C-3PO"]

  /** The number of pairs `newGame` deals. */
  const PAIRS_PER_GAME: nat := 8

  /** A deck as dealt for `n` pairs with identifiers drawn from `firstId` on:
      2n face-down, unmatched cards with distinct, fresh identifiers, each of the
      first n characters on exactly two of them and no other character on any. */
  ghost predicate IsDeal(cards: seq<Card>, n: nat, firstId: nat)
    requires n <= |CHARACTERS|
  {
    && |cards| == 2 * n
    && DistinctIds(cards)
    && (forall p :: 0 <= p < |cards| ==>
          !cards[p].isFaceUp && !cards[p].isMatched && firstId <= cards[p].id < firstId + 2 * n)
    && (forall c :: CharactersOf(cards)[c] == if c in CHARACTERS[..n] then 2 else 0)
  }

  /** Every identifier in the deck is below `bound`. */
  ghost predicate IdsBelow(cards: seq<Card>, bound: nat)
  {
    forall p :: 0 <= p < |cards| ==> cards[p].id < bound
  }

  lemma IdsStayBelow(a: seq<Card>, b: seq<Card>, bound: nat)
    requires IdsBelow(a, bound) && GameRules.SameDeck(a, b)
    ensures IdsBelow(b, bound)
  {
  }

  /** choose keeps the invariant and hands out no identifier. */
  lemma ChooseKeepsIdsBelow(s: GameRules.GameState, id: nat, bound: nat)
    requires GameRules.Invariant(s) && IdsBelow(s.model.cards, bound)
    ensures GameRules.Invariant(GameRules.Choose(s, id))
    ensures IdsBelow(GameRules.Choose(s, id).model.cards, bound)
  {
    GameRules.ChooseKeepsInvariant(s, id);
    GameRules.ChooseKeepsMatchedCards(s, id);
    IdsStayBelow(s.model.cards, GameRules.Choose(s, id).model.cards, bound);
  }

  class GameViewModel {
    var model: GameModel
    var faceUpCardIndices: seq<nat>
    /** Whether the auto-close timer is set and not cancelled. */
    var timerArmed: bool
    /** Stands for the UUID generator: every identifier handed out so far is below it. */
    var nextId: nat

    function State(): GameRules.GameState
      reads this
    {
      GameRules.GameState(model, faceUpCardIndices, timerArmed)
    }

    ghost predicate Valid()
      reads this
    {
      && GameRules.Invariant(State())
      && IdsBelow(model.cards, nextId)
    }

    // The read-only projections the view observes.

    function Cards(): (r: seq<Card>)
      reads this
      requires Valid()
      ensures DistinctIds(r)
      ensures forall p :: 0 <= p < |r| ==> r[p].isMatched ==> r[p].isFaceUp
    {
      model.cards
    }

    function Score(): (r: int)
      reads this
      requires Valid()
      ensures 0 <= r <= MatchedCount(model.cards)
    {
      model.score
    }

    function Moves(): (r: int)
      reads this
      requires Valid()
      ensures r >= MatchedCount(model.cards)
    {
      model.moves
    }

    /** A game of `numberOfPairsOfCards` pairs, shuffled with the random numbers `draws`. */
    constructor (numberOfPairsOfCards: nat, draws: seq<nat>)
      requires numberOfPairsOfCards <= |CHARACTERS|
      ensures Valid() && GameRules.FreshState(State())
      ensures IsDeal(model.cards, numberOfPairsOfCards, 0)
      ensures nextId == 2 * numberOfPairsOfCards
    {
      var dealt := CreateNewGame(numberOfPairsOfCards, 0, draws);
      model := dealt;
      faceUpCardIndices := [];
      timerArmed := false;
      nextId := 2 * numberOfPairsOfCards;
      new;
      GameRules.FreshStateIsValid(State());
    }

    /** The player taps `card`. */
    method Choose(card: Card)
      requires Valid()
      modifies this
      ensures Valid()
      ensures State() == GameRules.Choose(old(State()), card.id)
      ensures nextId == old(nextId)
    {
      ghost var s := State();
      timerArmed := false;
      var found := GameRules.FirstIndex(model.cards, card.id);
      if found.Some? && !model.cards[found.value].isFaceUp && !model.cards[found.value].isMatched {
        var chosenIndex := found.value;
        if |faceUpCardIndices| == 2 {
          CloseUnmatchedCards();
        }
        ghost var before := State();
        // turn the card face up, list it, and count the move
        model, faceUpCardIndices :=
          model.(cards := model.cards[chosenIndex := model.cards[chosenIndex].(isFaceUp := true)], moves := model.moves + 1),
          faceUpCardIndices + [chosenIndex];
        ghost var revealed := State();
        assert revealed.model == before.model.(cards := revealed.model.cards, moves := before.model.moves + 1);
        assert revealed == GameRules.Reveal(before, chosenIndex);
        if |faceUpCardIndices| == 2 {
          CheckForMatch();
        }
        GameRules.ChooseSteps(s, card.id, chosenIndex, before, revealed, State());
      }
      ChooseKeepsIdsBelow(s, card.id, nextId);
    }

    /** Evaluates the two face-up cards, if there are two. */
    method CheckForMatch()
      requires GameRules.IndicesInBounds(State())
      modifies this
      ensures State() == GameRules.CheckForMatch(old(State()))
      ensures nextId == old(nextId)
    {
      if |faceUpCardIndices| != 2 {
        return;
      }
      var firstIndex := faceUpCardIndices[0];
      var secondIndex := faceUpCardIndices[1];
      if model.cards[firstIndex].character == model.cards[secondIndex].character {
        model := model.(cards := model.cards[firstIndex := model.cards[firstIndex].(isMatched := true)]);
        model := model.(cards := model.cards[secondIndex := model.cards[secondIndex].(isMatched := true)]);
        model := model.(score := model.score + 2);
        faceUpCardIndices := [];
      } else {
        model := model.(score := GameRules.Max(0, model.score - 1));
        timerArmed := true;
      }
    }

    /** Turns the listed cards face down, one after the other, and empties the list. */
    method CloseUnmatchedCards()
      requires GameRules.IndicesInBounds(State())
      modifies this
      ensures State() == GameRules.CloseUnmatchedCards(old(State()))
      ensures nextId == old(nextId)
    {
      for k := 0 to |faceUpCardIndices|
        invariant faceUpCardIndices == old(faceUpCardIndices)
        invariant timerArmed == old(timerArmed) && nextId == old(nextId)
        invariant model.score == old(model.score) && model.moves == old(model.moves)
        invariant |model.cards| == |old(model.cards)|
        invariant forall p :: 0 <= p < |model.cards| ==>
          model.cards[p] == if p in faceUpCardIndices[..k] then old(model.cards[p]).(isFaceUp := false) else old(model.cards[p])
      {
        var index := faceUpCardIndices[k];
        assert faceUpCardIndices[..k + 1] == faceUpCardIndices[..k] + [index];
        model := model.(cards := model.cards[index := model.cards[index].(isFaceUp := false)]);
      }
      assert faceUpCardIndices[..|faceUpCardIndices|] == faceUpCardIndices;
      faceUpCardIndices := [];
    }

    /** The auto-close timer calls back: the pending cards are closed and the
        timer cancels itself. A cancelled timer does not call back. */
    method TimerFires()
      requires Valid()
      modifies this
      ensures Valid()
      ensures State() == GameRules.TimerFires(old(State()))
      ensures nextId == old(nextId)
    {
      if timerArmed {
        CloseUnmatchedCards();
        timerArmed := false;
      }
      GameRules.TimerFiresCloses(old(State()));
    }

    /** Deals a new game of eight pairs, shuffled with the random numbers `draws`,
        after cancelling the timer. */
    method NewGame(draws: seq<nat>)
      modifies this
      ensures Valid() && GameRules.FreshState(State())
      ensures IsDeal(model.cards, PAIRS_PER_GAME, old(nextId))
      ensures nextId == old(nextId) + 2 * PAIRS_PER_GAME
    {
      timerArmed := false;
      model := CreateNewGame(PAIRS_PER_GAME, nextId, draws);
      nextId := nextId + 2 * PAIRS_PER_GAME;
      faceUpCardIndices := [];
      GameRules.FreshStateIsValid(State());
    }

    /** Builds the deck: two cards per character for the first
        `numberOfPairsOfCards` characters, then shuffles it. */
    static method CreateNewGame(numberOfPairsOfCards: nat, firstId: nat, draws: seq<nat>) returns (m: GameModel)
      requires numberOfPairsOfCards <= |CHARACTERS|
      ensures IsDeal(m.cards, numberOfPairsOfCards, firstId)
      ensures m.score == 0 && m.moves == 0
    {
      var cards: seq<Card> := [];
      for pairIndex := 0 to numberOfPairsOfCards
        invariant |cards| == 2 * pairIndex
        invariant forall p :: 0 <= p < |cards| ==> cards[p] == Card(firstId + p, CHARACTERS[p / 2])
        invariant forall c :: CharactersOf(cards)[c] == if c in CHARACTERS[..pairIndex] then 2 else 0
      {
        var character := CHARACTERS[pairIndex];
        CharacterNotDealtYet(pairIndex);
        DealPair(CHARACTERS, cards, pairIndex, firstId);
        cards := cards + [Card(firstId + |cards|, character), Card(firstId + |cards| + 1, character)];
      }
      var shuffled := Shuffling.Shuffle(cards, draws);
      ShuffledDeal(cards, shuffled, numberOfPairsOfCards, firstId);
      m := GameModel(shuffled, 0, 0);
    }
  }

  /** Dealing the pair of character `pairIndex` keeps the deck's shape: the
      card at position p has identifier firstId + p and character p / 2, and the
      characters dealt so far are on two cards each. */
  lemma DealPair(characters: seq<string>, cards: seq<Card>, pairIndex: nat, firstId: nat)
    requires pairIndex < |characters| && characters[pairIndex] !in characters[..pairIndex]
    requires |cards| == 2 * pairIndex
    requires forall c :: CharactersOf(cards)[c] == if c in characters[..pairIndex] then 2 else 0
    requires forall p :: 0 <= p < |cards| ==> cards[p] == Card(firstId + p, characters[p / 2])
    ensures var character := characters[pairIndex];
            var dealt := cards + [Card(firstId + |cards|, character), Card(firstId + |cards| + 1, character)];
            && (forall p :: 0 <= p < |dealt| ==> dealt[p] == Card(firstId + p, characters[p / 2]))
            && (forall c :: CharactersOf(dealt)[c] == if c in characters[..pairIndex + 1] then 2 else 0)
  {
    var character := characters[pairIndex];
    var pair := [Card(firstId + |cards|, character), Card(firstId + |cards| + 1, character)];
    var dealt := cards + pair;
    CharactersOfConcat(cards, pair);
    assert CharactersOf(pair) == multiset{character, character} by {
      assert pair[1..][1..] == [];
    }
    assert characters[..pairIndex + 1] == characters[..pairIndex] + [character];
    forall c
      ensures CharactersOf(dealt)[c] == if c in characters[..pairIndex + 1] then 2 else 0
    {
      assert CharactersOf(dealt)[c] == CharactersOf(cards)[c] + multiset{character, character}[c];
    }
  }

  /** The characters are all different. */
  lemma CharacterNotDealtYet(k: nat)
    requires k < |CHARACTERS|
    ensures CHARACTERS[k] !in CHARACTERS[..k]
  {
  }

  /** Shuffling the dealt cards leaves a deal. */
  lemma ShuffledDeal(cards: seq<Card>, shuffled: seq<Card>, n: nat, firstId: nat)
    requires n <= |CHARACTERS|
    requires |cards| == 2 * n
    requires forall c :: CharactersOf(cards)[c] == if c in CHARACTERS[..n] then 2 else 0
    requires forall p :: 0 <= p < |cards| ==> cards[p] == Card(firstId + p, CHARACTERS[p / 2])
    requires multiset(shuffled) == multiset(cards)
    ensures IsDeal(shuffled, n, firstId)
  {
    PermutationKeepsCharacters(cards, shuffled);
    PermutationKeepsDistinctIds(cards, shuffled);
    forall p | 0 <= p < |shuffled|
      ensures !shuffled[p].isFaceUp && !shuffled[p].isMatched
      ensures firstId <= shuffled[p].id < firstId + 2 * n
    {
      assert shuffled[p] in multiset(cards);
    }
    assert |shuffled| == |multiset(shuffled)|;
  }

  /** A new game started while a mismatched pair waits for the timer: the timer
      is cancelled, so when its time would have come nothing happens to the new
      deal. */
  method NewGameCancelsPendingClose(vm: GameViewModel, draws: seq<nat>) returns (dealt: GameRules.GameState)
    requires vm.Valid() && vm.timerArmed
    modifies vm
    ensures GameRules.FreshState(dealt) && IsDeal(dealt.model.cards, PAIRS_PER_GAME, old(vm.nextId))
    ensures vm.Valid() && vm.State() == dealt
  {
    vm.NewGame(draws);
    dealt := vm.State();
    vm.TimerFires();
  }
}
