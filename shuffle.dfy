/**
 * Collections.shuffle on a copy of a list. The random generator is a source of
 * raw draws handed in by the caller; nextInt(bound) reduces the next draw
 * modulo bound. Only the permutation property is relied on elsewhere.
 */
module Shuffling {

  /** Random.nextInt(bound) on the modelled source; an exhausted source yields 0. */
  function NextInt(rnd: seq<nat>, bound: nat): (r: nat)
    requires bound > 0
    ensures r < bound
  {
    if rnd == [] then 0 else rnd[0] % bound
  }

  /** The source after one draw. */
  function Advance(rnd: seq<nat>): (rest: seq<nat>)
    ensures |rest| == if rnd == [] then 0 else |rnd| - 1
    ensures rest == rnd[|rnd| - |rest|..]
  {
    if rnd == [] then [] else rnd[1..]
  }

  /** What is left of the source after some draws: a suffix of it. */
  predicate IsSuffix(rest: seq<nat>, rnd: seq<nat>) {
    |rest| <= |rnd| && rest == rnd[|rnd| - |rest|..]
  }

  lemma SuffixTrans(a: seq<nat>, b: seq<nat>, c: seq<nat>)
    requires IsSuffix(a, b) && IsSuffix(b, c)
    ensures IsSuffix(a, c)
  {
    assert c[|c| - |b|..][|b| - |a|..] == c[|c| - |a|..];
  }

  /** Collections.shuffle: for i from the size down to 2, swap position i-1 with nextInt(i). */
  method Shuffle<T>(a: array<T>, rnd: seq<nat>) returns (rest: seq<nat>)
    modifies a
    ensures multiset(a[..]) == old(multiset(a[..]))
    ensures IsSuffix(rest, rnd)
  {
    rest := rnd;
    var i := a.Length;
    while i > 1
      invariant 0 <= i <= a.Length
      invariant multiset(a[..]) == old(multiset(a[..]))
      invariant IsSuffix(rest, rnd)
    {
      var j := NextInt(rest, i);
      SuffixTrans(Advance(rest), rest, rnd);
      rest := Advance(rest);
      a[i - 1], a[j] := a[j], a[i - 1];
      i := i - 1;
    }
  }

  /** `new ArrayList<>(s)` followed by Collections.shuffle: a permutation of s. */
  method ShuffledCopy<T>(s: seq<T>, rnd: seq<nat>) returns (r: seq<T>, rest: seq<nat>)
    ensures multiset(r) == multiset(s) && |r| == |s|
    ensures IsSuffix(rest, rnd)
  {
    var a := new T[|s|](i requires 0 <= i < |s| => s[i]);
    assert a[..] == s;
    rest := Shuffle(a, rnd);
    r := a[..];
    assert |r| == |multiset(r)|;
  }
}
