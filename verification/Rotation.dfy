/** Moving one element of a sequence forward, past the ones before it. */
module Rotation {

  /** Where element i comes from, when element base + p is moved to position base. */
  function Source(base: nat, p: nat, i: nat): nat {
    if i == base then base + p else if base < i <= base + p then i - 1 else i
  }

  function Rotated<T>(s: seq<T>, base: nat, p: nat): (r: seq<T>)
    requires base + p < |s|
    ensures |r| == |s| && forall i | 0 <= i < |s| :: r[i] == s[Source(base, p, i)]
  {
    s[..base] + [s[base + p]] + s[base..base + p] + s[base + p + 1..]
  }

  /** Moving element p to the front. */
  function ToFront<T>(s: seq<T>, p: nat): (r: seq<T>)
    requires p < |s|
    ensures |r| == |s| && r[0] == s[p] && (forall i | 0 < i <= p :: r[i] == s[i - 1]) && (forall i | p < i < |s| :: r[i] == s[i])
  {
    Rotated(s, 0, p)
  }

  /** Moving to the front only permutes. */
  lemma ToFrontPermutes<T>(s: seq<T>, p: nat)
    requires p < |s|
    ensures multiset(ToFront(s, p)) == multiset(s)
  {
    assert s == s[..p] + [s[p]] + s[p + 1..];
    assert ToFront(s, p) == [s[p]] + s[..p] + s[p + 1..];
  }

  /** A rotation inside a slice is a move to the front of the slice, and only permutes it. */
  lemma RotatedSlice<T>(s: seq<T>, base: nat, p: nat, n: nat)
    requires p < n && base + n <= |s|
    ensures Rotated(s, base, p)[base..base + n] == ToFront(s[base..base + n], p)
    ensures multiset(Rotated(s, base, p)[base..base + n]) == multiset(s[base..base + n])
  {
    hide ToFront;
    ToFrontPermutes(s[base..base + n], p);
    assert Rotated(s, base, p)[base..base + n] == ToFront(s[base..base + n], p);
  }

  lemma RotatedAside<T>(s: seq<T>, base: nat, p: nat, k: nat, n: nat)
    requires base + p < |s| && k + n <= |s| && (k + n <= base || base + p < k)
    ensures Rotated(s, base, p)[k..k + n] == s[k..k + n]
  {
  }
}
