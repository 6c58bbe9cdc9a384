/** The game's records: a card, and the record of cards, score and moves that
    the view model owns. */
module Model {

  /** One card of the deck. `id` stands for the card's UUID, `character` is the
      name that pairs it with its twin. A new card is face down and unmatched. */
  datatype Card = Card(id: nat, character: string, isFaceUp: bool := false, isMatched: bool := false)

  /** The game record: the ordered cards, the score and the number of moves. */
  datatype GameModel = GameModel(cards: seq<Card>, score: int, moves: int)

  /** No two positions of the deck hold cards with the same identifier. */
  predicate DistinctIds(cards: seq<Card>)
  {
    forall i, j :: 0 <= i < j < |cards| ==> cards[i].id != cards[j].id
  }

  /** The characters on the cards, counted with multiplicity. */
  function CharactersOf(cards: seq<Card>): (m: multiset<string>)
    ensures |m| == |cards|
  {
    if cards == [] then multiset{} else multiset{cards[0].character} + CharactersOf(cards[1..])
  }

  /** The number of matched cards. */
  function MatchedCount(cards: seq<Card>): (n: nat)
    ensures n <= |cards|
  {
    if cards == [] then 0 else (if cards[0].isMatched then 1 else 0) + MatchedCount(cards[1..])
  }

  lemma {:induction false} CharactersOfConcat(a: seq<Card>, b: seq<Card>)
    ensures CharactersOf(a + b) == CharactersOf(a) + CharactersOf(b)
  {
    if a == [] {
      assert a + b == b;
    } else {
      assert (a + b)[1..] == a[1..] + b;
      CharactersOfConcat(a[1..], b);
    }
  }

  /** Taking the card at position `j` out of a deck takes one copy of it out of its multiset. */
  lemma RemoveAt(s: seq<Card>, j: nat)
    requires j < |s|
    ensures multiset(s[..j] + s[j + 1..]) == multiset(s) - multiset{s[j]}
  {
    assert s == s[..j] + [s[j]] + s[j + 1..];
  }

  /** The first card of a deck lies somewhere in any rearrangement of it, and
      the rest of the deck is a rearrangement of what is left there. */
  lemma FindHead(a: seq<Card>, b: seq<Card>) returns (j: nat)
    requires a != [] && multiset(a) == multiset(b)
    ensures j < |b| && b[j] == a[0]
    ensures multiset(a[1..]) == multiset(b[..j] + b[j + 1..])
  {
    var x := a[0];
    assert x in multiset(b) by { assert a == [x] + a[1..]; }
    assert x in b;
    j :| 0 <= j < |b| && b[j] == x;
    assert a == [x] + a[1..];
    assert multiset(a[1..]) == multiset(a) - multiset{x};
    RemoveAt(b, j);
  }

  lemma {:induction false} CharactersOfRemoveAt(s: seq<Card>, j: nat)
    requires j < |s|
    ensures CharactersOf(s) == multiset{s[j].character} + CharactersOf(s[..j] + s[j + 1..])
  {
    if j == 0 {
      assert s[..0] + s[1..] == s[1..];
    } else {
      assert s[..j] + s[j + 1..] == [s[0]] + (s[1..][..j - 1] + s[1..][j..]);
      CharactersOfRemoveAt(s[1..], j - 1);
    }
  }

  /** Rearranging the cards keeps every character's number of cards. */
  lemma {:induction false} PermutationKeepsCharacters(a: seq<Card>, b: seq<Card>)
    requires multiset(a) == multiset(b)
    ensures CharactersOf(a) == CharactersOf(b)
  {
    if a == [] {
      assert |b| == |multiset(b)| == 0;
    } else {
      var x := a[0];
      var j := FindHead(a, b);
      var rest := b[..j] + b[j + 1..];
      PermutationKeepsCharacters(a[1..], rest);
      CharactersOfRemoveAt(b, j);
    }
  }

  /** A deck is free of repeated identifiers when the deck without its card at
      `j` is, and no other card shares that card's identifier. */
  lemma DistinctIdsInsertAt(s: seq<Card>, j: nat)
    requires j < |s|
    requires DistinctIds(s[..j] + s[j + 1..])
    requires forall q :: 0 <= q < |s| && q != j ==> s[q].id != s[j].id
    ensures DistinctIds(s)
  {
    var rest := s[..j] + s[j + 1..];
    forall p, q | 0 <= p < q < |s| && p != j && q != j
      ensures s[p].id != s[q].id
    {
      var p' := if p < j then p else p - 1;
      var q' := if q < j then q else q - 1;
      assert s[p] == rest[p'] && s[q] == rest[q'] && p' < q';
    }
  }

  /** Rearranging cards with distinct identifiers keeps them distinct. */
  lemma {:induction false} PermutationKeepsDistinctIds(a: seq<Card>, b: seq<Card>)
    requires multiset(a) == multiset(b)
    requires DistinctIds(a)
    ensures DistinctIds(b)
  {
    if a != [] {
      var x := a[0];
      var j := FindHead(a, b);
      var rest := b[..j] + b[j + 1..];
      PermutationKeepsDistinctIds(a[1..], rest);
      forall q | 0 <= q < |b| && q != j
        ensures b[q].id != x.id
      {
        var y := b[q];
        assert y in multiset(rest) by {
          assert y == rest[if q < j then q else q - 1];
        }
        var k :| 0 <= k < |a[1..]| && a[1..][k] == y;
        assert a[k + 1] == y;
      }
      DistinctIdsInsertAt(b, j);
    }
  }

  /** Changing one card changes the matched count by that card's contribution. */
  lemma {:induction false} MatchedCountUpdate(cards: seq<Card>, p: nat, c: Card)
    requires p < |cards|
    ensures MatchedCount(cards[p := c])
         == MatchedCount(cards) - (if cards[p].isMatched then 1 else 0) + (if c.isMatched then 1 else 0)
  {
    if p > 0 {
      assert cards[p := c][1..] == cards[1..][p - 1 := c];
      MatchedCountUpdate(cards[1..], p - 1, c);
    }
  }

  /** Decks that agree on which positions are matched have the same matched count. */
  lemma {:induction false} MatchedCountSameFlags(a: seq<Card>, b: seq<Card>)
    requires |a| == |b|
    requires forall p :: 0 <= p < |a| ==> a[p].isMatched == b[p].isMatched
    ensures MatchedCount(a) == MatchedCount(b)
  {
    if a != [] {
      MatchedCountSameFlags(a[1..], b[1..]);
    }
  }
}
