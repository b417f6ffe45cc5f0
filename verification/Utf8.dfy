/** The shape of UTF-8 text (section 3 of RFC 3629: a lead byte and its continuation bytes)
    and Go's `strings.TrimSpace` on it. */
module Utf8 {
  import opened GoStrings

  predicate IsContinuation(b: byte) {
    0x80 <= b < 0xC0
  }

  /** Length of the character a lead byte announces; 0 for a byte that cannot lead. */
  function CharLen(b: byte): nat {
    if b < 0x80 then 1
    else if 0xC2 <= b < 0xE0 then 2
    else if 0xE0 <= b < 0xF0 then 3
    else if 0xF0 <= b < 0xF5 then 4
    else 0
  }

  /** The text is a sequence of whole characters. */
  predicate WholeChars(s: Text)
    decreases |s|
  {
    s == [] ||
    var n := CharLen(s[0]);
    && 1 <= n <= |s|
    && (forall k :: 1 <= k < n ==> IsContinuation(s[k]))
    && WholeChars(s[n..])
  }

  /** The text starts with one whole character of `n` bytes. */
  predicate StartsWithChar(s: Text, n: nat) {
    && s != [] && n == CharLen(s[0]) && 1 <= n <= |s|
    && forall k :: 1 <= k < n ==> IsContinuation(s[k])
  }

  lemma FirstChar(s: Text) returns (n: nat)
    requires WholeChars(s) && s != []
    ensures StartsWithChar(s, n) && WholeChars(s[n..])
  {
    n := CharLen(s[0]);
  }

  lemma OneMoreChar(s: Text, n: nat)
    requires StartsWithChar(s, n) && WholeChars(s[n..])
    ensures WholeChars(s)
  {
  }

  /** What follows the first character does not matter to it. */
  lemma CharOfPrefix(s: Text, t: Text, n: nat)
    requires StartsWithChar(s, n) && n <= |t| && s[..n] == t[..n]
    ensures StartsWithChar(t, n)
  {
    assert t[0] == t[..n][0] == s[..n][0] == s[0];
    forall k | 1 <= k < n ensures IsContinuation(t[k]) {
      assert t[k] == t[..n][k] == s[..n][k] == s[k];
    }
  }

  lemma NoCutInside(s: Text, n: nat, p: nat)
    requires StartsWithChar(s, n) && 0 < p <= |s| && (p == |s| || !IsContinuation(s[p]))
    ensures n <= p
  {
  }

  /** A cut behind the first character, if what is behind that is cut well. */
  lemma CutLater(s: Text, n: nat, p: nat)
    requires StartsWithChar(s, n) && n <= p <= |s|
    requires WholeChars(s[n..][..p - n]) && WholeChars(s[n..][p - n..])
    ensures WholeChars(s[..p]) && WholeChars(s[p..])
  {
    hide WholeChars, StartsWithChar;
    CutBehind(s, n, p);
    CharOfPrefix(s, s[..p], n);
    OneMoreChar(s[..p], n);
  }

  /** A cut in front of a byte that is not a continuation byte splits no character. */
  lemma {:induction false} CutBetweenChars(s: Text, p: nat)
    requires WholeChars(s) && p <= |s|
    requires p == |s| || !IsContinuation(s[p])
    ensures WholeChars(s[..p]) && WholeChars(s[p..])
    decreases |s|
  {
    if p == 0 {
      assert s[..0] == [] && s[0..] == s;
    } else {
      var n := FirstChar(s);
      NoCutInside(s, n, p);
      CharIsNotEmpty(s, n);
      hide WholeChars, StartsWithChar, IsContinuation;
      assert p < |s| ==> s[n..][p - n] == s[p];
      CutBetweenChars(s[n..], p - n);
      CutLater(s, n, p);
    }
  }

  lemma CutBehind(s: Text, n: nat, p: nat)
    requires n <= p <= |s|
    ensures s[n..][..p - n] == s[..p][n..] && s[n..][p - n..] == s[p..] && s[..p][..n] == s[..n]
    ensures p < |s| ==> s[n..][p - n] == s[p]
  {
  }

  lemma JoinBehind(a: Text, b: Text, n: nat)
    requires n <= |a|
    ensures (a + b)[n..] == a[n..] + b && (a + b)[..n] == a[..n]
  {
  }

  lemma CharIsNotEmpty(s: Text, n: nat)
    requires StartsWithChar(s, n)
    ensures 1 <= n <= |s|
  {
  }

  lemma {:induction false} DropAscii(s: Text, n: nat)
    requires WholeChars(s) && n <= |s|
    requires forall k :: 0 <= k < n ==> s[k] < 0x80
    ensures WholeChars(s[n..])
  {
    if n > 0 {
      DropAscii(s[1..], n - 1);
      assert s[1..][n - 1..] == s[n..];
    } else {
      assert s[0..] == s;
    }
  }

  lemma {:induction false} JoinWholeChars(a: Text, b: Text)
    requires WholeChars(a) && WholeChars(b)
    ensures WholeChars(a + b)
    decreases |a|
  {
    if a == [] {
      assert a + b == b;
    } else {
      var n := FirstChar(a);
      hide WholeChars;
      CharIsNotEmpty(a, n);
      hide StartsWithChar;
      JoinWholeChars(a[n..], b);
      JoinBehind(a, b, n);
      CharOfPrefix(a, a + b, n);
      OneMoreChar(a + b, n);
    }
  }

  // ---------------------------------------------------------------- white space

  predicate IsAsciiSpace(b: byte) {
    9 <= b <= 13 || b == 32
  }

  /** U+0085 and U+00A0. */
  predicate IsSpace2(a: byte, b: byte) {
    a == 0xC2 && (b == 0x85 || b == 0xA0)
  }

  /** U+1680, U+2000 to U+200A, U+2028, U+2029, U+202F, U+205F and U+3000. */
  predicate IsSpace3(a: byte, b: byte, c: byte) {
    || (a == 0xE1 && b == 0x9A && c == 0x80)
    || (a == 0xE2 && b == 0x80 && (0x80 <= c <= 0x8A || c == 0xA8 || c == 0xA9 || c == 0xAF))
    || (a == 0xE2 && b == 0x81 && c == 0x9F)
    || (a == 0xE3 && b == 0x80 && c == 0x80)
  }

  /** Length of the white-space character `s` starts with; 0 if it starts with none. */
  function LeadingSpace(s: Text): (n: nat)
    ensures n <= |s|
    ensures n > 0 ==> n == CharLen(s[0])
  {
    if |s| >= 1 && IsAsciiSpace(s[0]) then 1
    else if |s| >= 2 && IsSpace2(s[0], s[1]) then 2
    else if |s| >= 3 && IsSpace3(s[0], s[1], s[2]) then 3
    else 0
  }

  function TrailingSpace(s: Text): (n: nat)
    ensures n <= |s|
  {
    if |s| >= 1 && IsAsciiSpace(s[|s| - 1]) then 1
    else if |s| >= 2 && IsSpace2(s[|s| - 2], s[|s| - 1]) then 2
    else if |s| >= 3 && IsSpace3(s[|s| - 3], s[|s| - 2], s[|s| - 1]) then 3
    else 0
  }

  // ---------------------------------------------------------------- by code points

  /** The bytes of a code point (section 3 of RFC 3629). */
  function CharBytes(c: nat): Text
    requires c < 0x11_0000
  {
    if c < 0x80 then [c]
    else if c < 0x800 then [0xC0 + c / 0x40, 0x80 + c % 0x40]
    else if c < 0x1_0000 then [0xE0 + c / 0x1000, 0x80 + c / 0x40 % 0x40, 0x80 + c % 0x40]
    else [0xF0 + c / 0x4_0000, 0x80 + c / 0x1000 % 0x40, 0x80 + c / 0x40 % 0x40, 0x80 + c % 0x40]
  }

  function CharsBytes(cs: seq<nat>): Text
    requires forall i :: 0 <= i < |cs| ==> cs[i] < 0x11_0000
  {
    if cs == [] then [] else CharBytes(cs[0]) + CharsBytes(cs[1..])
  }

  lemma CharStarts(c: nat, rest: Text)
    requires c < 0x11_0000
    ensures StartsWithChar(CharBytes(c) + rest, |CharBytes(c)|)
  {
    var n := |CharBytes(c)|;
    if 0x800 <= c {
      assert c / 0x40 % 0x40 < 0x40 && c / 0x1000 % 0x40 < 0x40;
    }
  }

  /** Every encoded text is a sequence of whole characters. */
  lemma {:induction false} EncodedIsWhole(cs: seq<nat>)
    requires forall i :: 0 <= i < |cs| ==> cs[i] < 0x11_0000
    ensures WholeChars(CharsBytes(cs))
    decreases |cs|
  {
    if cs != [] {
      var rest := CharsBytes(cs[1..]);
      EncodedIsWhole(cs[1..]);
      CharStarts(cs[0], rest);
      hide CharBytes;
      assert (CharBytes(cs[0]) + rest)[|CharBytes(cs[0])|..] == rest;
      OneMoreChar(CharBytes(cs[0]) + rest, |CharBytes(cs[0])|);
    }
  }

  /** `unicode.IsSpace` */
  predicate IsSpaceCode(c: nat) {
    || 9 <= c <= 13 || c == 0x20 || c == 0x85 || c == 0xA0 || c == 0x1680
    || 0x2000 <= c <= 0x200A || c == 0x2028 || c == 0x2029 || c == 0x202F || c == 0x205F || c == 0x3000
  }

  ghost predicate IsSpaceBytes(t: Text) {
    exists c: nat :: c < 0x11_0000 && IsSpaceCode(c) && t == CharBytes(c)
  }

  predicate InTable(t: Text) {
    || (|t| == 1 && IsAsciiSpace(t[0]))
    || (|t| == 2 && IsSpace2(t[0], t[1]))
    || (|t| == 3 && IsSpace3(t[0], t[1], t[2]))
  }

  lemma SpaceCodeInTable(c: nat)
    requires c < 0x11_0000 && IsSpaceCode(c)
    ensures InTable(CharBytes(c))
  {
  }

  lemma ThreeBytes(x: int, y: int, z: int)
    requires 0xE1 <= x < 0xF0 && 0x80 <= y < 0xC0 && 0x80 <= z < 0xC0
    ensures var c := (x - 0xE0) * 0x1000 + (y - 0x80) * 0x40 + (z - 0x80); 0 <= c < 0x11_0000 && CharBytes(c) == [x, y, z]
  {
  }

  lemma TableIsSpace(t: Text)
    requires InTable(t)
    ensures IsSpaceBytes(t)
  {
    if |t| == 3 {
      var x: int, y: int, z: int := t[0], t[1], t[2];
      ThreeBytes(x, y, z);
      hide CharBytes;
      assert t == [x, y, z];
      assert IsSpaceCode((x - 0xE0) * 0x1000 + (y - 0x80) * 0x40 + (z - 0x80));
    } else {
      assert t == CharBytes(t[|t| - 1]);
    }
  }

  lemma SpaceBytesAre(t: Text)
    ensures IsSpaceBytes(t) <==> InTable(t)
  {
    hide InTable, CharBytes, IsSpaceCode;
    if IsSpaceBytes(t) {
      var c: nat :| c < 0x11_0000 && IsSpaceCode(c) && t == CharBytes(c);
      SpaceCodeInTable(c);
    }
    if InTable(t) {
      TableIsSpace(t);
    }
  }

  /** What counts as white space at the front, and at the end. */
  lemma LeadingSpaceMeans(s: Text, n: nat)
    requires 0 < n <= |s|
    ensures LeadingSpace(s) == n <==> IsSpaceBytes(s[..n])
  {
    SpaceBytesAre(s[..n]);
  }

  lemma TrailingSpaceMeans(s: Text, n: nat)
    requires 0 < n <= |s|
    ensures TrailingSpace(s) == n <==> IsSpaceBytes(s[|s| - n..])
  {
    SpaceBytesAre(s[|s| - n..]);
  }

  function TrimLeft(s: Text): (r: Text)
    ensures |r| <= |s|
    decreases |s|
  {
    if LeadingSpace(s) == 0 then s else TrimLeft(s[LeadingSpace(s)..])
  }

  function TrimRight(s: Text): (r: Text)
    ensures |r| <= |s|
    decreases |s|
  {
    if TrailingSpace(s) == 0 then s else TrimRight(s[..|s| - TrailingSpace(s)])
  }

  lemma {:induction false} TrimLeftLeavesSuffix(s: Text)
    ensures var r := TrimLeft(s); LeadingSpace(r) == 0 && r == s[|s| - |r|..]
    decreases |s|
  {
    hide LeadingSpace;
    if LeadingSpace(s) != 0 {
      var rest := s[LeadingSpace(s)..];
      TrimLeftLeavesSuffix(rest);
      assert rest[|rest| - |TrimLeft(rest)|..] == s[|s| - |TrimLeft(rest)|..];
    }
  }

  lemma {:induction false} TrimRightLeavesPrefix(s: Text)
    ensures TrailingSpace(TrimRight(s)) == 0 && TrimRight(s) <= s
    decreases |s|
  {
    hide TrailingSpace;
    if TrailingSpace(s) != 0 {
      TrimRightLeavesPrefix(s[..|s| - TrailingSpace(s)]);
    }
  }

  function TrimSpace(s: Text): (r: Text) {
    TrimRight(TrimLeft(s))
  }

  /** White-space characters, one after the other. */
  ghost predicate AllSpace(t: Text)
    decreases |t|
  {
    t == [] || exists n :: 0 < n <= |t| && IsSpaceBytes(t[..n]) && AllSpace(t[n..])
  }

  lemma NoSpaceYet()
    ensures AllSpace([])
  {
  }

  lemma SpaceFirst(t: Text, u: Text)
    requires IsSpaceBytes(t) && t != [] && AllSpace(u)
    ensures AllSpace(t + u)
  {
    hide IsSpaceBytes;
    assert (t + u)[..|t|] == t && (t + u)[|t|..] == u;
  }

  lemma {:induction false} SpaceLast(t: Text, u: Text)
    requires AllSpace(t) && IsSpaceBytes(u) && u != []
    ensures AllSpace(t + u)
    decreases |t|
  {
    hide IsSpaceBytes;
    if t == [] {
      SpaceFirst(u, []);
      assert t + u == u + [];
    } else {
      var n :| 0 < n <= |t| && IsSpaceBytes(t[..n]) && AllSpace(t[n..]);
      SpaceLast(t[n..], u);
      SpaceFirst(t[..n], t[n..] + u);
      hide AllSpace;
      assert t + u == t[..n] + (t[n..] + u);
    }
  }

  lemma {:induction false} TrimLeftMeans(s: Text)
    ensures AllSpace(s[..|s| - |TrimLeft(s)|])
    decreases |s|
  {
    hide LeadingSpace, IsSpaceBytes, AllSpace;
    var n := LeadingSpace(s);
    if n == 0 {
      NoSpaceYet();
      assert s[..0] == [];
    } else {
      var first, rest := s[..n], s[n..];
      LeadingSpaceMeans(s, n);
      TrimLeftMeans(rest);
      assert TrimLeft(s) == TrimLeft(rest);
      hide TrimLeft;
      var k := |rest| - |TrimLeft(rest)|;
      SpaceFirst(first, rest[..k]);
      assert s[..n + k] == first + rest[..k];
    }
  }

  lemma {:induction false} TrimRightMeans(s: Text)
    ensures TrimRight(s) <= s && AllSpace(s[|TrimRight(s)|..])
    decreases |s|
  {
    hide TrailingSpace, IsSpaceBytes, AllSpace;
    var n := TrailingSpace(s);
    if n == 0 {
      NoSpaceYet();
      assert s[|s|..] == [];
    } else {
      var front, last := s[..|s| - n], s[|s| - n..];
      TrailingSpaceMeans(s, n);
      TrimRightMeans(front);
      assert TrimRight(s) == TrimRight(front);
      hide TrimRight;
      var k := |TrimRight(front)|;
      SpaceLast(front[k..], last);
      assert s[k..] == front[k..] + last;
    }
  }

  lemma NoSpaceAtEnds(r: Text, l: Text, t: Text, u: Text)
    requires r == t + u && r <= l && LeadingSpace(l) == 0 && TrailingSpace(r) == 0
    ensures !IsSpaceBytes(t) && !IsSpaceBytes(u)
  {
    SpaceBytesAre([]);
    if t != [] {
      LeadingSpaceMeans(l, |t|);
      assert l[..|t|] == t;
    }
    if u != [] {
      TrailingSpaceMeans(r, |u|);
      assert r[|r| - |u|..] == u;
    }
  }

  /** Trimming: white-space characters go at both ends, and what is left has none there. */
  lemma TrimSpaceMeans(s: Text)
    ensures exists left, right :: s == left + TrimSpace(s) + right && AllSpace(left) && AllSpace(right)
    ensures forall t, u :: TrimSpace(s) == t + u ==> !IsSpaceBytes(t) && !IsSpaceBytes(u)
  {
    hide TrimLeft, TrimRight, AllSpace, IsSpaceBytes, LeadingSpace, TrailingSpace;
    var l, r := TrimLeft(s), TrimSpace(s);
    TrimLeftMeans(s);
    TrimLeftLeavesSuffix(s);
    TrimRightMeans(l);
    TrimRightLeavesPrefix(l);
    var left, right := s[..|s| - |l|], l[|r|..];
    assert s == left + r + right;
    forall t, u | r == t + u ensures !IsSpaceBytes(t) && !IsSpaceBytes(u) {
      NoSpaceAtEnds(r, l, t, u);
    }
  }

  /** A text with no white space at either end is not changed. */
  lemma TrimSpaceFixed(s: Text)
    requires LeadingSpace(s) == 0 && TrailingSpace(s) == 0
    ensures TrimSpace(s) == s
  {
  }

  /** Whether a text starts with white space is decided by its first character. */
  lemma LeadingSpaceOfPrefix(p: Text, s: Text)
    requires p <= s && p != [] && CharLen(p[0]) <= |p|
    ensures LeadingSpace(p) == LeadingSpace(s)
  {
    assert s == p + s[|p|..];
    assert forall k :: 0 <= k < |p| ==> p[k] == s[k];
  }

  /** A first part made of whole characters starts the trimmed text exactly when no leading
      white space was trimmed and the trimmed text is long enough. */
  lemma PrefixSurvivesTrim(p: Text, s: Text)
    requires p <= s && p != [] && WholeChars(p)
    ensures p <= TrimSpace(s) <==> LeadingSpace(s) == 0 && |p| <= |TrimSpace(s)|
  {
    assert CharLen(p[0]) <= |p|;
    TrimLeftLeavesSuffix(s);
    TrimRightLeavesPrefix(TrimLeft(s));
    hide LeadingSpace, TrailingSpace, CharLen, WholeChars, TrimRight;
    var left, full := TrimLeft(s), TrimSpace(s);
    if p <= full {
      LeadingSpaceOfPrefix(p, s);
      LeadingSpaceOfPrefix(p, left);
    }
    if LeadingSpace(s) == 0 && |p| <= |full| {
      assert full == s[..|full|];
      assert p == s[..|p|];
    }
  }
}
