/** Byte strings as the Go runtime sees them, with the few operations of its `strings`
    package that the modelled code calls.  Each operation is characterised by what it finds,
    not by how it searches. */
module GoStrings {

  type byte = x: int | 0 <= x < 256
  type Text = seq<byte>

  /** The bytes of an ASCII literal. */
  function Ascii(s: string): (t: Text)
    requires forall i :: 0 <= i < |s| ==> s[i] < 128 as char
    ensures |t| == |s| && forall i :: 0 <= i < |s| ==> t[i] == s[i] as int
  {
    seq(|s|, i requires 0 <= i < |s| => s[i] as int)
  }

  predicate OccursAt(s: Text, m: Text, i: int) {
    0 <= i <= |s| - |m| && s[i..i + |m|] == m
  }

  /** `strings.Index`: the first position of `m` in `s`, or -1. */
  function Index(s: Text, m: Text): (i: int)
    ensures -1 <= i <= |s|
    ensures i >= 0 ==> i + |m| <= |s|
  {
    IndexFrom(s, m, 0)
  }

  function IndexFrom(s: Text, m: Text, from: nat): (i: int)
    requires from <= |s|
    ensures i == -1 || from <= i <= |s| - |m|
    decreases |s| - from
  {
    if OccursAt(s, m, from) then from
    else if from == |s| then -1
    else IndexFrom(s, m, from + 1)
  }

  lemma {:induction false} IndexFromFinds(s: Text, m: Text, from: nat)
    requires from <= |s|
    ensures var i := IndexFrom(s, m, from);
            && (i >= 0 ==> OccursAt(s, m, i))
            && forall k :: from <= k < (if i < 0 then |s| + 1 else i) ==> !OccursAt(s, m, k)
    decreases |s| - from
  {
    if !OccursAt(s, m, from) && from < |s| {
      IndexFromFinds(s, m, from + 1);
    }
  }

  /** `Index` finds the first occurrence, and misses none. */
  lemma IndexFinds(s: Text, m: Text)
    ensures var i := Index(s, m);
            && (i >= 0 ==> OccursAt(s, m, i))
            && forall k :: 0 <= k < (if i < 0 then |s| + 1 else i) ==> !OccursAt(s, m, k)
  {
    IndexFromFinds(s, m, 0);
  }

  /** `Index` is the only position with this description. */
  lemma IndexIs(s: Text, m: Text, i: int)
    requires OccursAt(s, m, i)
    requires forall k :: 0 <= k < i ==> !OccursAt(s, m, k)
    ensures Index(s, m) == i
  {
    IndexFinds(s, m);
  }

  lemma IndexNone(s: Text, m: Text)
    requires forall k :: 0 <= k <= |s| ==> !OccursAt(s, m, k)
    ensures Index(s, m) == -1
  {
    IndexFinds(s, m);
  }

  /** Occurrences inside the first part of a concatenation. */
  lemma OccursInPrefix(s: Text, t: Text, m: Text, i: int)
    requires 0 <= i <= |s| - |m|
    ensures OccursAt(s + t, m, i) <==> OccursAt(s, m, i)
  {
    assert (s + t)[i..i + |m|] == s[i..i + |m|];
  }

  /** Occurrences inside the second part of a concatenation. */
  lemma OccursInSuffix(s: Text, t: Text, m: Text, i: int)
    requires i >= 0
    ensures OccursAt(s + t, m, |s| + i) <==> OccursAt(t, m, i)
  {
    if i + |m| <= |t| {
      assert (s + t)[|s| + i..|s| + i + |m|] == t[i..i + |m|];
    }
  }

  /** Text that arrives later does not move a marker that was already found. */
  lemma IndexStable(s: Text, t: Text, m: Text)
    requires Index(s, m) >= 0
    ensures Index(s + t, m) == Index(s, m)
  {
    var i := Index(s, m);
    IndexFinds(s, m);
    OccursInPrefix(s, t, m, i);
    forall k | 0 <= k < i ensures !OccursAt(s + t, m, k) {
      OccursInPrefix(s, t, m, k);
    }
    IndexIs(s + t, m, i);
  }

  /** If no marker starts in `s`, the first one in `s + t` is the first one in `t`, shifted. */
  lemma IndexShift(s: Text, t: Text, m: Text)
    requires forall k :: 0 <= k < |s| ==> !OccursAt(s + t, m, k)
    ensures Index(s + t, m) == if Index(t, m) < 0 then -1 else |s| + Index(t, m)
  {
    var i := Index(t, m);
    IndexFinds(t, m);
    forall k | |s| <= k < (if i < 0 then |s + t| + 1 else |s| + i) ensures !OccursAt(s + t, m, k) {
      OccursInSuffix(s, t, m, k - |s|);
    }
    if i >= 0 {
      OccursInSuffix(s, t, m, i);
      IndexIs(s + t, m, |s| + i);
    } else {
      IndexNone(s + t, m);
    }
  }
}
