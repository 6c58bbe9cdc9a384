/** The game's state machine on values: what `choose`, `checkForMatch`,
    `closeUnmatchedCards` and the auto-close timer do to the view model's state.
    The class in module ViewModel is proved to follow these functions step by
    step; the lemmas here state what the steps guarantee. */
module GameRules {
  import opened Model

  datatype Option<T> = None | Some(value: T)

  /** Everything the view model keeps: the game record, the positions of the
      face-up cards awaiting evaluation, and whether the auto-close timer is set. */
  datatype GameState = GameState(model: GameModel, faceUpCardIndices: seq<nat>, timerArmed: bool)

  function Max(a: int, b: int): int { if a >= b then a else b }

  /** The position of the first card with identifier `id`, if there is one. */
  function FirstIndex(cards: seq<Card>, id: nat): (r: Option<nat>)
    ensures r.Some? ==> r.value < |cards| && cards[r.value].id == id
    ensures r.Some? ==> forall k :: 0 <= k < r.value ==> cards[k].id != id
    ensures r.None? <==> forall k :: 0 <= k < |cards| ==> cards[k].id != id
  {
    if cards == [] then None
    else if cards[0].id == id then Some(0)
    else match FirstIndex(cards[1..], id)
      case None => None
      case Some(i) => Some(i + 1)
  }

  /** Every pending position names a card of the deck. */
  predicate IndicesInBounds(s: GameState)
  {
    forall k :: 0 <= k < |s.faceUpCardIndices| ==> s.faceUpCardIndices[k] < |s.model.cards|
  }

  /** The cards with every listed position turned face down, in list order. */
  function TurnFaceDown(cards: seq<Card>, indices: seq<nat>): (r: seq<Card>)
    requires forall k :: 0 <= k < |indices| ==> indices[k] < |cards|
    ensures |r| == |cards|
    ensures forall p :: 0 <= p < |cards| ==>
      r[p] == if p in indices then cards[p].(isFaceUp := false) else cards[p]
    decreases |indices|
  {
    if indices == [] then cards
    else TurnFaceDown(cards[indices[0] := cards[indices[0]].(isFaceUp := false)], indices[1..])
  }

  /** closeUnmatchedCards: the listed cards go face down and the list is emptied. */
  function CloseUnmatchedCards(s: GameState): (r: GameState)
    requires IndicesInBounds(s)
    ensures r.faceUpCardIndices == []
    ensures r.model.score == s.model.score && r.model.moves == s.model.moves
    ensures r.timerArmed == s.timerArmed
    ensures |r.model.cards| == |s.model.cards|
    ensures forall p :: 0 <= p < |s.model.cards| ==>
      r.model.cards[p] == if p in s.faceUpCardIndices then s.model.cards[p].(isFaceUp := false) else s.model.cards[p]
  {
    s.(model := s.model.(cards := TurnFaceDown(s.model.cards, s.faceUpCardIndices)), faceUpCardIndices := [])
  }

  /** checkForMatch: with two pending cards, a pair is matched and scores 2; a
      mismatch costs 1 point (never below 0) and sets the auto-close timer. */
  function CheckForMatch(s: GameState): (r: GameState)
    requires IndicesInBounds(s)
  {
    if |s.faceUpCardIndices| != 2 then s
    else
      var first := s.faceUpCardIndices[0];
      var second := s.faceUpCardIndices[1];
      var cards := s.model.cards;
      if cards[first].character == cards[second].character then
        var cards' := cards[first := cards[first].(isMatched := true)];
        var cards'' := cards'[second := cards'[second].(isMatched := true)];
        GameState(GameModel(cards'', s.model.score + 2, s.model.moves), [], s.timerArmed)
      else
        GameState(s.model.(score := Max(0, s.model.score - 1)), s.faceUpCardIndices, true)
  }

  /** A card the player may turn: present in the deck, face down and unmatched. */
  predicate Selectable(cards: seq<Card>, id: nat)
  {
    var found := FirstIndex(cards, id);
    found.Some? && !cards[found.value].isFaceUp && !cards[found.value].isMatched
  }

  /** choose: the timer is cancelled; a selectable card is turned face up after
      any unresolved pair is closed, moves grows by one, and a second pending
      card triggers the match check. */
  function Choose(s: GameState, id: nat): (r: GameState)
    requires IndicesInBounds(s)
    ensures IndicesInBounds(r) && |r.model.cards| == |s.model.cards|
  {
    var cancelled := s.(timerArmed := false);
    match FirstIndex(s.model.cards, id)
    case None => cancelled
    case Some(i) =>
      if s.model.cards[i].isFaceUp || s.model.cards[i].isMatched then cancelled
      else
        var before := if |cancelled.faceUpCardIndices| == 2 then CloseUnmatchedCards(cancelled) else cancelled;
        var revealed := Reveal(before, i);
        if |revealed.faceUpCardIndices| == 2 then CheckForMatch(revealed) else revealed
  }

  /** The card at position `i` is turned face up and appended to the pending
      list, and the move is counted. */
  function Reveal(s: GameState, i: nat): (r: GameState)
    requires IndicesInBounds(s) && i < |s.model.cards|
    ensures IndicesInBounds(r)
  {
    var cards := s.model.cards;
    GameState(
      GameModel(cards[i := cards[i].(isFaceUp := true)], s.model.score, s.model.moves + 1),
      s.faceUpCardIndices + [i],
      s.timerArmed)
  }

  /** choose performed as the view model performs it: cancel, close, reveal, check. */
  lemma ChooseSteps(s: GameState, id: nat, i: nat, before: GameState, revealed: GameState, r: GameState)
    requires IndicesInBounds(s)
    requires FirstIndex(s.model.cards, id) == Some(i)
    requires !s.model.cards[i].isFaceUp && !s.model.cards[i].isMatched
    requires before == if |s.faceUpCardIndices| == 2 then CloseUnmatchedCards(s.(timerArmed := false)) else s.(timerArmed := false)
    requires revealed == Reveal(before, i)
    requires r == if |revealed.faceUpCardIndices| == 2 then CheckForMatch(revealed) else revealed
    ensures r == Choose(s, id)
  {
  }

  /** The timer's callback: it closes the pending cards and cancels itself. A
      cancelled timer never calls back. */
  function TimerFires(s: GameState): (r: GameState)
    requires IndicesInBounds(s)
    ensures IndicesInBounds(r) && !r.timerArmed
  {
    if s.timerArmed then CloseUnmatchedCards(s).(timerArmed := false) else s
  }

  // ---------------------------------------------------------------------------
  // The invariant the view model keeps between user actions.

  /** The pending list holds at most two distinct positions of the deck, and
      they are exactly the face-up, unmatched cards. */
  predicate PendingAreOpenCards(s: GameState)
  {
    var cards := s.model.cards;
    var pending := s.faceUpCardIndices;
    && |pending| <= 2
    && IndicesInBounds(s)
    && (|pending| == 2 ==> pending[0] != pending[1])
    && forall p :: 0 <= p < |cards| ==> (cards[p].isFaceUp && !cards[p].isMatched <==> p in pending)
  }

  predicate Invariant(s: GameState)
  {
    var cards := s.model.cards;
    var pending := s.faceUpCardIndices;
    && PendingAreOpenCards(s)
    // matched cards stay face up
    && (forall p :: 0 <= p < |cards| ==> cards[p].isMatched ==> cards[p].isFaceUp)
    // two cards stay pending only when they do not match
    && (|pending| == 2 ==> cards[pending[0]].character != cards[pending[1]].character)
    // the timer is set only while a mismatched pair waits to be closed
    && (s.timerArmed ==> |pending| == 2)
    // the score is never negative and never more than the matched cards earned;
    // every matched or pending card was revealed by a move
    && 0 <= s.model.score <= MatchedCount(cards)
    && MatchedCount(cards) + |pending| <= s.model.moves
    && DistinctIds(cards)
  }

  /** Two decks hold the same cards in the same places, whatever their flags. */
  predicate SameDeck(a: seq<Card>, b: seq<Card>)
  {
    |a| == |b| && forall p :: 0 <= p < |a| ==> a[p].id == b[p].id && a[p].character == b[p].character
  }

  /** Every card stays where it was, and every matched card stays as it was. */
  predicate KeepsMatchedCards(a: seq<Card>, b: seq<Card>)
  {
    SameDeck(a, b) && forall p :: 0 <= p < |a| && a[p].isMatched ==> b[p] == a[p]
  }

  /** The state of a fresh deal: nothing face up, nothing pending, no timer, no
      score and no moves. */
  predicate FreshState(s: GameState)
  {
    && s.faceUpCardIndices == [] && !s.timerArmed
    && s.model.score == 0 && s.model.moves == 0
    && DistinctIds(s.model.cards)
    && forall p :: 0 <= p < |s.model.cards| ==> !s.model.cards[p].isFaceUp && !s.model.cards[p].isMatched
  }

  // ---------------------------------------------------------------------------
  // Properties of the steps.

  lemma FreshStateIsValid(s: GameState)
    requires FreshState(s)
    ensures Invariant(s)
  {
    AllUnmatchedCountsZero(s.model.cards);
  }

  lemma {:induction false} AllUnmatchedCountsZero(cards: seq<Card>)
    requires forall p :: 0 <= p < |cards| ==> !cards[p].isMatched
    ensures MatchedCount(cards) == 0
  {
    if cards != [] {
      AllUnmatchedCountsZero(cards[1..]);
    }
  }

  /** A card that is missing, face up or matched is ignored: only the timer is
      cancelled. */
  lemma ChooseIgnored(s: GameState, id: nat)
    requires IndicesInBounds(s)
    requires !Selectable(s.model.cards, id)
    ensures Choose(s, id) == s.(timerArmed := false)
  {
  }

  /** With nothing pending, the chosen card is turned face up and becomes the
      only pending card; one move is counted and the score is kept. */
  lemma ChooseOpensFirstCard(s: GameState, id: nat)
    requires Invariant(s)
    requires Selectable(s.model.cards, id) && s.faceUpCardIndices == []
    ensures var i := FirstIndex(s.model.cards, id).value;
            var r := Choose(s, id);
            && r.model.cards == s.model.cards[i := s.model.cards[i].(isFaceUp := true)]
            && r.faceUpCardIndices == [i]
            && r.model.score == s.model.score && r.model.moves == s.model.moves + 1
            && !r.timerArmed
  {
  }

  /** With an unresolved pair pending, the pair is turned face down first; then
      the chosen card is turned face up and is the only pending card. */
  lemma ChooseForceCloses(s: GameState, id: nat)
    requires Invariant(s)
    requires Selectable(s.model.cards, id) && |s.faceUpCardIndices| == 2
    ensures var i := FirstIndex(s.model.cards, id).value;
            var pending := s.faceUpCardIndices;
            var r := Choose(s, id);
            && i !in pending
            && |r.model.cards| == |s.model.cards|
            && r.model.cards[i] == s.model.cards[i].(isFaceUp := true)
            && r.model.cards[pending[0]] == s.model.cards[pending[0]].(isFaceUp := false)
            && r.model.cards[pending[1]] == s.model.cards[pending[1]].(isFaceUp := false)
            && (forall p :: 0 <= p < |s.model.cards| && p != i && p !in pending ==> r.model.cards[p] == s.model.cards[p])
            && r.faceUpCardIndices == [i]
            && r.model.score == s.model.score && r.model.moves == s.model.moves + 1
            && !r.timerArmed
  {
    var i := FirstIndex(s.model.cards, id).value;
    assert i !in s.faceUpCardIndices;
  }

  /** The second card of a pair with the same character: both are matched and
      stay face up, the score rises by 2, and nothing is left pending. */
  lemma ChooseCompletesMatch(s: GameState, id: nat)
    requires Invariant(s)
    requires Selectable(s.model.cards, id) && |s.faceUpCardIndices| == 1
    requires s.model.cards[s.faceUpCardIndices[0]].character
          == s.model.cards[FirstIndex(s.model.cards, id).value].character
    ensures var i := FirstIndex(s.model.cards, id).value;
            var j := s.faceUpCardIndices[0];
            var r := Choose(s, id);
            && i != j && s.model.cards[j].isFaceUp
            && r.model.cards == s.model.cards[i := s.model.cards[i].(isFaceUp := true, isMatched := true)]
                                             [j := s.model.cards[j].(isMatched := true)]
            && r.faceUpCardIndices == []
            && r.model.score == s.model.score + 2 && r.model.moves == s.model.moves + 1
            && !r.timerArmed
  {
    var i := FirstIndex(s.model.cards, id).value;
    assert i !in s.faceUpCardIndices;
  }

  /** The second card of a pair with different characters: both stay face up
      and pending, the score drops by 1 but not below 0, and the timer is set. */
  lemma ChooseCompletesMismatch(s: GameState, id: nat)
    requires Invariant(s)
    requires Selectable(s.model.cards, id) && |s.faceUpCardIndices| == 1
    requires s.model.cards[s.faceUpCardIndices[0]].character
          != s.model.cards[FirstIndex(s.model.cards, id).value].character
    ensures var i := FirstIndex(s.model.cards, id).value;
            var j := s.faceUpCardIndices[0];
            var r := Choose(s, id);
            && r.model.cards == s.model.cards[i := s.model.cards[i].(isFaceUp := true)]
            && r.faceUpCardIndices == [j, i]
            && r.model.score == Max(0, s.model.score - 1) && r.model.moves == s.model.moves + 1
            && r.timerArmed
  {
  }

  /** choose counts a move exactly when the card is selectable. */
  lemma ChooseCountsMoves(s: GameState, id: nat)
    requires Invariant(s)
    ensures Choose(s, id).model.moves == s.model.moves + (if Selectable(s.model.cards, id) then 1 else 0)
  {
  }

  /** choose never changes which card lies where, and never touches a matched card. */
  lemma ChooseKeepsMatchedCards(s: GameState, id: nat)
    requires Invariant(s)
    ensures KeepsMatchedCards(s.model.cards, Choose(s, id).model.cards)
  {
    if !Selectable(s.model.cards, id) {
      ChooseIgnored(s, id);
    } else if |s.faceUpCardIndices| == 0 {
      FirstCardKeepsMatched(s, id);
    } else if |s.faceUpCardIndices| == 2 {
      ForceCloseKeepsMatched(s, id);
    } else if s.model.cards[s.faceUpCardIndices[0]].character
           == s.model.cards[FirstIndex(s.model.cards, id).value].character {
      MatchKeepsMatched(s, id);
    } else {
      MismatchKeepsMatched(s, id);
    }
  }

  lemma FirstCardKeepsMatched(s: GameState, id: nat)
    requires Invariant(s)
    requires Selectable(s.model.cards, id) && s.faceUpCardIndices == []
    ensures KeepsMatchedCards(s.model.cards, Choose(s, id).model.cards)
  {
    ChooseOpensFirstCard(s, id);
  }

  lemma ForceCloseKeepsMatched(s: GameState, id: nat)
    requires Invariant(s)
    requires Selectable(s.model.cards, id) && |s.faceUpCardIndices| == 2
    ensures KeepsMatchedCards(s.model.cards, Choose(s, id).model.cards)
  {
    ChooseForceCloses(s, id);
  }

  lemma MatchKeepsMatched(s: GameState, id: nat)
    requires Invariant(s)
    requires Selectable(s.model.cards, id) && |s.faceUpCardIndices| == 1
    requires s.model.cards[s.faceUpCardIndices[0]].character
          == s.model.cards[FirstIndex(s.model.cards, id).value].character
    ensures KeepsMatchedCards(s.model.cards, Choose(s, id).model.cards)
  {
    ChooseCompletesMatch(s, id);
  }

  lemma MismatchKeepsMatched(s: GameState, id: nat)
    requires Invariant(s)
    requires Selectable(s.model.cards, id) && |s.faceUpCardIndices| == 1
    requires s.model.cards[s.faceUpCardIndices[0]].character
          != s.model.cards[FirstIndex(s.model.cards, id).value].character
    ensures KeepsMatchedCards(s.model.cards, Choose(s, id).model.cards)
  {
    ChooseCompletesMismatch(s, id);
  }

  /** choose keeps the invariant. */
  lemma ChooseKeepsInvariant(s: GameState, id: nat)
    requires Invariant(s)
    ensures Invariant(Choose(s, id))
  {
    if !Selectable(s.model.cards, id) {
      ChooseIgnored(s, id);
    } else if |s.faceUpCardIndices| == 0 {
      FirstCardKeepsInvariant(s, id);
    } else if |s.faceUpCardIndices| == 2 {
      ForceCloseKeepsInvariant(s, id);
    } else if s.model.cards[s.faceUpCardIndices[0]].character
           == s.model.cards[FirstIndex(s.model.cards, id).value].character {
      MatchKeepsInvariant(s, id);
    } else {
      MismatchKeepsInvariant(s, id);
    }
  }

  lemma FirstCardKeepsInvariant(s: GameState, id: nat)
    requires Invariant(s)
    requires Selectable(s.model.cards, id) && s.faceUpCardIndices == []
    ensures Invariant(Choose(s, id))
  {
    ChooseOpensFirstCard(s, id);
    MatchedCountSameFlags(s.model.cards, Choose(s, id).model.cards);
  }

  lemma ForceCloseKeepsInvariant(s: GameState, id: nat)
    requires Invariant(s)
    requires Selectable(s.model.cards, id) && |s.faceUpCardIndices| == 2
    ensures Invariant(Choose(s, id))
  {
    ChooseForceCloses(s, id);
    ReopenedKeepsInvariant(s, Choose(s, id), FirstIndex(s.model.cards, id).value);
  }

  /** Closing the unresolved pair and opening the card at `i` keeps the invariant. */
  lemma ReopenedKeepsInvariant(s: GameState, r: GameState, i: nat)
    requires Invariant(s) && |s.faceUpCardIndices| == 2
    requires i < |s.model.cards| && !s.model.cards[i].isFaceUp && !s.model.cards[i].isMatched
    requires var pending := s.faceUpCardIndices;
             && |r.model.cards| == |s.model.cards|
             && r.model.cards[i] == s.model.cards[i].(isFaceUp := true)
             && r.model.cards[pending[0]] == s.model.cards[pending[0]].(isFaceUp := false)
             && r.model.cards[pending[1]] == s.model.cards[pending[1]].(isFaceUp := false)
             && (forall p :: 0 <= p < |s.model.cards| && p != i && p !in pending ==> r.model.cards[p] == s.model.cards[p])
             && r.faceUpCardIndices == [i]
             && r.model.score == s.model.score && r.model.moves == s.model.moves + 1
             && !r.timerArmed
    ensures Invariant(r)
  {
    var cards := s.model.cards;
    var pending := s.faceUpCardIndices;
    forall p | 0 <= p < |cards|
      ensures r.model.cards[p].isMatched == cards[p].isMatched
      ensures r.model.cards[p].id == cards[p].id
    {
      if p != i && p !in pending {
        assert r.model.cards[p] == cards[p];
      }
    }
    MatchedCountSameFlags(cards, r.model.cards);
  }

  lemma MatchKeepsInvariant(s: GameState, id: nat)
    requires Invariant(s)
    requires Selectable(s.model.cards, id) && |s.faceUpCardIndices| == 1
    requires s.model.cards[s.faceUpCardIndices[0]].character
          == s.model.cards[FirstIndex(s.model.cards, id).value].character
    ensures Invariant(Choose(s, id))
  {
    ChooseCompletesMatch(s, id);
    MatchedPairKeepsInvariant(s, Choose(s, id), FirstIndex(s.model.cards, id).value);
  }

  /** Matching the card at `i` with the pending card keeps the invariant. */
  lemma MatchedPairKeepsInvariant(s: GameState, r: GameState, i: nat)
    requires Invariant(s) && |s.faceUpCardIndices| == 1
    requires i < |s.model.cards| && !s.model.cards[i].isFaceUp && !s.model.cards[i].isMatched
    requires var j := s.faceUpCardIndices[0];
             && s.model.cards[j].character == s.model.cards[i].character
             && r.model.cards == s.model.cards[i := s.model.cards[i].(isFaceUp := true, isMatched := true)]
                                              [j := s.model.cards[j].(isMatched := true)]
             && r.faceUpCardIndices == []
             && r.model.score == s.model.score + 2 && r.model.moves == s.model.moves + 1
             && !r.timerArmed
    ensures Invariant(r)
  {
    var cards := s.model.cards;
    var j := s.faceUpCardIndices[0];
    var once := cards[i := cards[i].(isFaceUp := true, isMatched := true)];
    var twice := r.model.cards;
    assert j != i && !cards[j].isMatched;
    MatchedCountUpdate(cards, i, once[i]);
    MatchedCountUpdate(once, j, cards[j].(isMatched := true));
    forall p | 0 <= p < |twice|
      ensures twice[p].isMatched ==> twice[p].isFaceUp
      ensures !(twice[p].isFaceUp && !twice[p].isMatched)
      ensures twice[p].id == cards[p].id
    {
      if p != i && p != j {
        assert twice[p] == cards[p];
        assert p !in s.faceUpCardIndices;
      }
    }
  }

  lemma MismatchKeepsInvariant(s: GameState, id: nat)
    requires Invariant(s)
    requires Selectable(s.model.cards, id) && |s.faceUpCardIndices| == 1
    requires s.model.cards[s.faceUpCardIndices[0]].character
          != s.model.cards[FirstIndex(s.model.cards, id).value].character
    ensures Invariant(Choose(s, id))
  {
    ChooseCompletesMismatch(s, id);
    MatchedCountSameFlags(s.model.cards, Choose(s, id).model.cards);
  }

  /** When the timer fires, the mismatched pair goes face down, nothing is
      pending and the timer is off; nothing else changes. A cancelled timer
      changes nothing. */
  lemma TimerFiresCloses(s: GameState)
    requires Invariant(s)
    ensures var r := TimerFires(s);
            && Invariant(r) && !r.timerArmed && KeepsMatchedCards(s.model.cards, r.model.cards)
            && r.model.score == s.model.score && r.model.moves == s.model.moves
            && (s.timerArmed ==>
                  && r.faceUpCardIndices == []
                  && forall p :: 0 <= p < |s.model.cards| ==>
                       r.model.cards[p].isFaceUp == (s.model.cards[p].isFaceUp && p !in s.faceUpCardIndices))
            && (!s.timerArmed ==> r == s)
  {
    if s.timerArmed {
      MatchedCountSameFlags(s.model.cards, TimerFires(s).model.cards);
    }
  }

  /** A short game on any fresh four-card deck dealt A, B, A, B: turning A
      then B at score 0 keeps the score at 0, counts two moves and sets the
      timer; the timer turns both face down; turning the first A and then the
      second matches them and scores 2. */
  lemma MismatchThenMatchOnABAB(deck: seq<Card>)
    requires FreshState(GameState(GameModel(deck, 0, 0), [], false))
    requires |deck| == 4
    requires deck[0].character == deck[2].character != deck[1].character
    ensures var start := GameState(GameModel(deck, 0, 0), [], false);
            var mismatched := Choose(Choose(start, deck[0].id), deck[1].id);
            var closed := TimerFires(mismatched);
            var matched := Choose(Choose(closed, deck[0].id), deck[2].id);
            && mismatched.model.score == 0 && mismatched.model.moves == 2 && mismatched.timerArmed
            && mismatched.model.cards[0].isFaceUp && mismatched.model.cards[1].isFaceUp
            && closed.faceUpCardIndices == [] && closed.model.cards == deck
            && matched.model.score == 2 && matched.model.moves == 4 && matched.faceUpCardIndices == []
            && matched.model.cards[0].isMatched && matched.model.cards[2].isMatched
            && matched.model.cards[0].isFaceUp && matched.model.cards[2].isFaceUp
            && !matched.model.cards[1].isFaceUp && !matched.model.cards[3].isFaceUp
  {
    var start := GameState(GameModel(deck, 0, 0), [], false);
    MismatchOnAB(deck);
    var mismatched := Choose(Choose(start, deck[0].id), deck[1].id);
    TimerFiresCloses(mismatched);
    var closed := TimerFires(mismatched);
    assert closed.model.cards == deck;
    assert closed == GameState(GameModel(deck, 0, 2), [], false);
    MatchOnAA(deck);
  }

  /** The first half of that game: A then B is a mismatch. */
  lemma MismatchOnAB(deck: seq<Card>)
    requires FreshState(GameState(GameModel(deck, 0, 0), [], false))
    requires |deck| == 4
    requires deck[0].character != deck[1].character
    ensures var start := GameState(GameModel(deck, 0, 0), [], false);
            var mismatched := Choose(Choose(start, deck[0].id), deck[1].id);
            && Invariant(mismatched)
            && mismatched.model.score == 0 && mismatched.model.moves == 2 && mismatched.timerArmed
            && mismatched.faceUpCardIndices == [0, 1]
            && mismatched.model.cards == deck[0 := deck[0].(isFaceUp := true)][1 := deck[1].(isFaceUp := true)]
  {
    var start := GameState(GameModel(deck, 0, 0), [], false);
    FreshStateIsValid(start);
    assert FirstIndex(deck, deck[0].id) == Some(0);
    ChooseOpensFirstCard(start, deck[0].id);
    ChooseKeepsInvariant(start, deck[0].id);
    var first := Choose(start, deck[0].id);
    assert FirstIndex(first.model.cards, deck[1].id) == Some(1);
    ChooseCompletesMismatch(first, deck[1].id);
    ChooseKeepsInvariant(first, deck[1].id);
  }

  /** The second half of that game: after the timer, A then the other A match. */
  lemma MatchOnAA(deck: seq<Card>)
    requires FreshState(GameState(GameModel(deck, 0, 0), [], false))
    requires |deck| == 4
    requires deck[0].character == deck[2].character
    ensures var closed := GameState(GameModel(deck, 0, 2), [], false);
            var matched := Choose(Choose(closed, deck[0].id), deck[2].id);
            && matched.model.score == 2 && matched.model.moves == 4 && matched.faceUpCardIndices == []
            && matched.model.cards[0].isMatched && matched.model.cards[2].isMatched
            && matched.model.cards[0].isFaceUp && matched.model.cards[2].isFaceUp
            && !matched.model.cards[1].isFaceUp && !matched.model.cards[3].isFaceUp
  {
    var closed := GameState(GameModel(deck, 0, 2), [], false);
    FreshStateIsValid(GameState(GameModel(deck, 0, 0), [], false));
    assert Invariant(closed);
    assert FirstIndex(deck, deck[0].id) == Some(0);
    ChooseOpensFirstCard(closed, deck[0].id);
    ChooseKeepsInvariant(closed, deck[0].id);
    var again := Choose(closed, deck[0].id);
    assert FirstIndex(again.model.cards, deck[2].id) == Some(2);
    ChooseCompletesMatch(again, deck[2].id);
  }
}
