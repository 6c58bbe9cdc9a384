/** The in-place shuffle the deck goes through when it is dealt. */
module Shuffling {

  /** Fisher–Yates as Swift's `shuffle()` runs it: position `i` is swapped with a
      position drawn from `i` to the end. The random numbers are the parameter
      `draws` (a missing draw reads as 0), so every possible run is covered. */
  method Shuffle<T>(s: seq<T>, draws: seq<nat>) returns (r: seq<T>)
    ensures |r| == |s|
    ensures multiset(r) == multiset(s)
  {
    r := s;
    var i := 0;
    while |r| - i > 1
      invariant 0 <= i <= |r| == |s|
      invariant multiset(r) == multiset(s)
    {
      var random := (if i < |draws| then draws[i] else 0) % (|r| - i);
      var j := i + random;
      r := r[i := r[j]][j := r[i]];
      i := i + 1;
    }
  }
}
