/** The streaming gate that withholds tool-call fences from the client, and the regular
    expression it has to agree with (internal/app/messages.go). */
module FenceGate {
  import opened GoStrings

  const BACKTICK: byte := 96

  /** "```tool_call" */
  const FENCE_OPEN: Text := [96, 96, 96, 116, 111, 111, 108, 95, 99, 97, 108, 108]

  /** "```" */
  const FENCE_CLOSE: Text := [96, 96, 96]

  // ---------------------------------------------------------------- the offline reference

  /** `(?s)```tool_call(.*?)``` ` matches t[i..j]. */
  predicate FenceAt(t: Text, i: int, j: int) {
    && OccursAt(t, FENCE_OPEN, i)
    && i + |FENCE_OPEN| <= j - |FENCE_CLOSE|
    && OccursAt(t, FENCE_CLOSE, j - |FENCE_CLOSE|)
  }

  /** The match a leftmost, non-greedy search reports. */
  ghost predicate FirstFence(t: Text, i: int, j: int) {
    && FenceAt(t, i, j)
    && forall i', j' :: FenceAt(t, i', j') ==> i <= i' && (i' == i ==> j <= j')
  }

  ghost function FirstFenceOf(t: Text): (r: (int, int))
    requires exists i, j :: FirstFence(t, i, j)
    ensures FirstFence(t, r.0, r.1)
  {
    var i, j :| FirstFence(t, i, j);
    (i, j)
  }

  /** `toolCallRe.ReplaceAllString(t, "")`: cut every leftmost, non-greedy match, left to right. */
  ghost function RemoveFences(t: Text): Text
    decreases |t|
  {
    if exists i, j :: FirstFence(t, i, j) then
      var m := FirstFenceOf(t);
      t[..m.0] + RemoveFences(t[m.1..])
    else
      t
  }

  /** An opening marker, anything, three backticks. */
  ghost predicate IsFence(s: Text) {
    exists body :: s == Ascii("```tool_call") + body + Ascii("```")
  }

  ghost predicate IsFenceAt(t: Text, i: int, j: int) {
    0 <= i <= j <= |t| && IsFence(t[i..j])
  }

  /** No fence starts earlier, and none that starts here ends earlier. */
  ghost predicate IsFirst(t: Text, i: int, j: int) {
    IsFenceAt(t, i, j) && forall i', j' :: IsFenceAt(t, i', j') ==> i <= i' && (i' == i ==> j <= j')
  }

  lemma MarkersAre()
    ensures FENCE_OPEN == Ascii("```tool_call") && FENCE_CLOSE == Ascii("```")
  {
  }

  lemma Framed(t: Text, open: Text, close: Text, i: int, j: int)
    requires 0 <= i <= j <= |t|
    ensures OccursAt(t, open, i) && i + |open| <= j - |close| && OccursAt(t, close, j - |close|) <==>
            exists body :: t[i..j] == open + body + close
  {
    var s := t[i..j];
    if OccursAt(t, open, i) && i + |open| <= j - |close| && OccursAt(t, close, j - |close|) {
      assert s == open + t[i + |open|..j - |close|] + close;
    }
    if body :| s == open + body + close {
      assert s[..|open|] == open && s[|s| - |close|..] == close;
      assert t[i..i + |open|] == s[..|open|] && t[j - |close|..j] == s[|s| - |close|..];
    }
  }

  lemma FenceMeans(t: Text, i: int, j: int)
    ensures FenceAt(t, i, j) <==> IsFenceAt(t, i, j)
  {
    MarkersAre();
    if 0 <= i <= j <= |t| {
      Framed(t, FENCE_OPEN, FENCE_CLOSE, i, j);
    }
    hide Ascii;
  }

  lemma FirstMeans(t: Text, i: int, j: int)
    ensures FirstFence(t, i, j) <==> IsFirst(t, i, j)
  {
    forall i', j' ensures FenceAt(t, i', j') <==> IsFenceAt(t, i', j') {
      FenceMeans(t, i', j');
    }
    hide FenceAt, IsFenceAt;
  }

  /** The removal: a text without fence stays, and of any other the first fence goes and the
      removal goes on behind it. */
  lemma RemovalMeans(t: Text)
    ensures (forall i, j :: !IsFenceAt(t, i, j)) ==> RemoveFences(t) == t
    ensures forall i, j :: IsFirst(t, i, j) ==> RemoveFences(t) == t[..i] + RemoveFences(t[j..])
  {
    hide IsFence, FirstFence;
    forall i, j | IsFirst(t, i, j) ensures RemoveFences(t) == t[..i] + RemoveFences(t[j..]) {
      FirstMeans(t, i, j);
      FirstFenceUnique(t, i, j);
    }
    forall i, j | FirstFence(t, i, j) ensures IsFenceAt(t, i, j) {
      FirstMeans(t, i, j);
    }
  }

  // ---------------------------------------------------------------- the online gate

  /** What the gate has sent, what it is holding back, and whether it is inside a fence. */
  datatype GateState = GateState(sent: Text, buf: Text, inFence: bool)

  /** The last `k` bytes of `s` are the first `k` bytes of `marker`, which is not complete. */
  predicate IsPartial(s: Text, marker: Text, k: int) {
    0 <= k <= |s| && k < |marker| && s[|s| - k..] == marker[..k]
  }

  /** How many bytes at the end of `s` could be the start of a marker that is still arriving:
      the longest suffix of `s` that is a proper prefix of `marker`. */
  function PartialPrefix(s: Text, marker: Text): (k: nat)
    requires marker != []
    ensures k <= |s| && k < |marker|
  {
    PartialUpTo(s, marker, if |s| < |marker| - 1 then |s| else |marker| - 1)
  }

  function PartialUpTo(s: Text, marker: Text, max: nat): (k: nat)
    requires max <= |s| && max < |marker|
    ensures k <= max
  {
    if max == 0 || s[|s| - max..] == marker[..max] then max else PartialUpTo(s, marker, max - 1)
  }

  lemma {:induction false} PartialUpToIsLongest(s: Text, marker: Text, max: nat)
    requires max <= |s| && max < |marker|
    ensures IsPartial(s, marker, PartialUpTo(s, marker, max))
    ensures forall k :: IsPartial(s, marker, k) && k <= max ==> k <= PartialUpTo(s, marker, max)
  {
    if max != 0 && s[|s| - max..] != marker[..max] {
      PartialUpToIsLongest(s, marker, max - 1);
    }
  }

  lemma PartialIsLongest(s: Text, marker: Text)
    requires marker != []
    ensures IsPartial(s, marker, PartialPrefix(s, marker))
    ensures forall k :: IsPartial(s, marker, k) ==> k <= PartialPrefix(s, marker)
  {
    PartialUpToIsLongest(s, marker, if |s| < |marker| - 1 then |s| else |marker| - 1);
  }

  /** Decide as much of the buffer as can be decided. */
  function Drain(g: GateState): GateState
    decreases |g.buf|
  {
    if g.inFence then
      var j := Index(g.buf, FENCE_CLOSE);
      if j < 0 then g else Drain(GateState(g.sent, g.buf[j + |FENCE_CLOSE|..], false))
    else
      var i := Index(g.buf, FENCE_OPEN);
      if i >= 0 then
        Drain(GateState(g.sent + g.buf[..i], g.buf[i + |FENCE_OPEN|..], true))
      else
        var cut := |g.buf| - PartialPrefix(g.buf, FENCE_OPEN);
        GateState(g.sent + g.buf[..cut], g.buf[cut..], false)
  }

  /** One `Push`, on values. */
  function Absorb(g: GateState, delta: Text): GateState {
    Drain(g.(buf := g.buf + delta))
  }

  /** What the gate is after receiving the whole text at once. */
  function Scan(t: Text): GateState {
    Drain(GateState([], t, false))
  }

  /** The gate after any sequence of pushes. */
  function AbsorbAll(g: GateState, deltas: seq<Text>): GateState
    decreases |deltas|
  {
    if deltas == [] then g else AbsorbAll(Absorb(g, deltas[0]), deltas[1..])
  }

  function Flatten(deltas: seq<Text>): Text {
    if deltas == [] then [] else deltas[0] + Flatten(deltas[1..])
  }

  // ---------------------------------------------------------------- chunking is invisible

  /** No marker starts in the part of `b` before its partial suffix, whatever follows `b`. */
  lemma HeldBackIsEnough(b: Text, d: Text, marker: Text)
    requires marker != [] && Index(b, marker) < 0
    ensures forall p :: 0 <= p < |b| - PartialPrefix(b, marker) ==> !OccursAt(b + d, marker, p)
  {
    IndexFinds(b, marker);
    PartialIsLongest(b, marker);
    forall p | 0 <= p < |b| - PartialPrefix(b, marker) ensures !OccursAt(b + d, marker, p) {
      if OccursAt(b + d, marker, p) {
        var k := |b| - p;
        if k >= |marker| {
          OccursInPrefix(b, d, marker, p);
        } else {
          assert b[p..] == (b + d)[p..p + |marker|][..k];
          assert IsPartial(b, marker, k);
        }
        assert false;
      }
    }
  }

  lemma PartialOfSuffix(p: Text, s: Text, marker: Text, k: int)
    requires 0 <= k <= |s|
    ensures IsPartial(p + s, marker, k) <==> IsPartial(s, marker, k)
  {
    assert (p + s)[|p + s| - k..] == s[|s| - k..];
  }

  /** The partial marker at the end of `b + d` lies in what was held back of `b`, plus `d`. */
  lemma PartialIsHeldBack(b: Text, d: Text, marker: Text, k: int)
    requires marker != [] && IsPartial(b + d, marker, k)
    ensures k <= PartialPrefix(b, marker) + |d|
  {
    PartialIsLongest(b, marker);
    if k > |d| {
      var q := |b + d| - k;
      assert b[q..] == (b + d)[q..][..k - |d|];
      assert IsPartial(b, marker, k - |d|);
    }
  }

  lemma PartialInSuffix(b: Text, d: Text, marker: Text)
    requires marker != []
    ensures var cut := |b| - PartialPrefix(b, marker);
            PartialPrefix(b + d, marker) == PartialPrefix(b[cut..] + d, marker)
  {
    hide PartialPrefix;
    var cut := |b| - PartialPrefix(b, marker);
    var s := b[cut..] + d;
    var k, k' := PartialPrefix(b + d, marker), PartialPrefix(s, marker);
    PartialIsLongest(b + d, marker);
    PartialIsLongest(s, marker);
    PartialIsHeldBack(b, d, marker, k);
    assert b + d == b[..cut] + s;
    PartialOfSuffix(b[..cut], s, marker, k);
    PartialOfSuffix(b[..cut], s, marker, k');
  }

  /** The bytes already sent have no influence on what happens to the next delta. */
  lemma DrainSkipsSent(sent: Text, b: Text, d: Text)
    requires Index(b, FENCE_OPEN) < 0
    ensures var cut := |b| - PartialPrefix(b, FENCE_OPEN);
            Drain(GateState(sent, b + d, false)) == Drain(GateState(sent + b[..cut], b[cut..] + d, false))
  {
    hide Index, PartialPrefix, Drain, OccursAt;
    var cut := |b| - PartialPrefix(b, FENCE_OPEN);
    var p, s := b[..cut], b[cut..] + d;
    assert b + d == p + s;
    DrainOutside(sent, b + d);
    DrainOutside(sent + p, s);
    HeldBackIsEnough(b, d, FENCE_OPEN);
    IndexShift(p, s, FENCE_OPEN);
    PartialInSuffix(b, d, FENCE_OPEN);
    var n := if Index(s, FENCE_OPEN) >= 0 then Index(s, FENCE_OPEN) else |s| - PartialPrefix(s, FENCE_OPEN);
    SplitsBehind(sent, p, s, n);
    if Index(s, FENCE_OPEN) >= 0 {
      SplitsBehind(sent, p, s, n + |FENCE_OPEN|);
    }
  }

  lemma SplitsBehind(sent: Text, p: Text, s: Text, n: nat)
    requires n <= |s|
    ensures sent + (p + s)[..|p| + n] == (sent + p) + s[..n]
    ensures (p + s)[|p| + n..] == s[n..]
  {
  }

  /** Draining, receiving more and draining again is receiving everything and draining once. */
  lemma {:induction false} DrainSplits(g: GateState, d: Text)
    ensures Drain(g.(buf := g.buf + d)) == Absorb(Drain(g), d)
    decreases |g.buf|
  {
    hide Index, PartialPrefix;
    var b := g.buf;
    var m := if g.inFence then FENCE_CLOSE else FENCE_OPEN;
    var i := Index(b, m);
    if i >= 0 {
      IndexStable(b, d, m);
      var n := i + |m|;
      assert (b + d)[n..] == b[n..] + d;
      assert (b + d)[..i] == b[..i];
      DrainSplits(GateState(if g.inFence then g.sent else g.sent + b[..i], b[n..], !g.inFence), d);
    } else if !g.inFence {
      DrainSkipsSent(g.sent, b, d);
    }
  }

  /** One push after having received `t` is the same as having received `t + d` at once. */
  lemma ScanExtends(t: Text, d: Text)
    ensures Absorb(Scan(t), d) == Scan(t + d)
  {
    DrainSplits(GateState([], t, false), d);
  }

  /** However a text is cut into pushes, the gate ends in the same state. */
  lemma {:induction false} ChunkingIsInvisible(t: Text, deltas: seq<Text>)
    ensures AbsorbAll(Scan(t), deltas) == Scan(t + Flatten(deltas))
    decreases |deltas|
  {
    hide Drain;
    if deltas == [] {
      assert t + Flatten(deltas) == t;
    } else {
      var d, rest := deltas[0], Flatten(deltas[1..]);
      ScanExtends(t, d);
      ChunkingIsInvisible(t + d, deltas[1..]);
      assert t + (d + rest) == (t + d) + rest;
    }
  }

  /** What was sent is never taken back. */
  lemma {:induction false} DrainKeepsSent(g: GateState)
    ensures g.sent <= Drain(g).sent
    decreases |g.buf|
  {
    hide Index, PartialPrefix;
    var m := if g.inFence then FENCE_CLOSE else FENCE_OPEN;
    var i := Index(g.buf, m);
    if i >= 0 {
      DrainKeepsSent(GateState(if g.inFence then g.sent else g.sent + g.buf[..i], g.buf[i + |m|..], !g.inFence));
    }
  }

  // ---------------------------------------------------------------- refinement of the regex

  lemma FirstFenceUnique(t: Text, i: int, j: int)
    requires FirstFence(t, i, j)
    ensures RemoveFences(t) == t[..i] + RemoveFences(t[j..])
  {
    var m := FirstFenceOf(t);
    assert m.0 <= i && i <= m.0;
  }

  lemma NoFenceNothingRemoved(t: Text)
    requires !exists i, j :: FenceAt(t, i, j)
    ensures RemoveFences(t) == t
  {
  }

  /** The first opening marker followed by the first closing one is the regex's match. */
  lemma FirstFenceByIndex(t: Text)
    requires Index(t, FENCE_OPEN) >= 0
    ensures var body := Index(t, FENCE_OPEN) + |FENCE_OPEN|;
            var c := Index(t[body..], FENCE_CLOSE);
            if c >= 0 then FirstFence(t, body - |FENCE_OPEN|, body + c + |FENCE_CLOSE|)
            else !exists i, j :: FenceAt(t, i, j)
  {
    hide Index, OccursAt;
    var i := Index(t, FENCE_OPEN);
    var body := i + |FENCE_OPEN|;
    var c := Index(t[body..], FENCE_CLOSE);
    assert t == t[..body] + t[body..];
    IndexFinds(t, FENCE_OPEN);
    IndexFinds(t[body..], FENCE_CLOSE);
    if c >= 0 {
      OccursInSuffix(t[..body], t[body..], FENCE_CLOSE, c);
    }
    forall i', j' | FenceAt(t, i', j')
      ensures i <= i' && c >= 0 && (i' == i ==> body + c + |FENCE_CLOSE| <= j')
    {
      NoFenceBefore(t, i', j');
    }
  }

  /** Any match starts no earlier than the first opening marker, and closes no earlier than the
      first closing marker behind that. */
  lemma NoFenceBefore(t: Text, i': int, j': int)
    requires Index(t, FENCE_OPEN) >= 0 && FenceAt(t, i', j')
    ensures var i := Index(t, FENCE_OPEN);
            var body := i + |FENCE_OPEN|;
            var c := Index(t[body..], FENCE_CLOSE);
            i <= i' && c >= 0 && (i' == i ==> body + c + |FENCE_CLOSE| <= j')
  {
    var body := Index(t, FENCE_OPEN) + |FENCE_OPEN|;
    IndexFinds(t, FENCE_OPEN);
    IndexFinds(t[body..], FENCE_CLOSE);
    var k := j' - |FENCE_CLOSE|;
    OccursWithin(t, FENCE_OPEN, i');
    OccursWithin(t, FENCE_CLOSE, k);
    hide Index, OccursAt;
    assert t == t[..body] + t[body..];
    OccursInSuffix(t[..body], t[body..], FENCE_CLOSE, k - body);
  }

  lemma OccursWithin(s: Text, m: Text, i: int)
    requires OccursAt(s, m, i)
    ensures 0 <= i <= |s| - |m|
  {
  }

  /** What a settled gate is still holding, as it would appear in unprocessed text. */
  function Withheld(g: GateState): Text {
    if g.inFence then FENCE_OPEN + g.buf else g.buf
  }

  /** A complete fence is stepped over; an unclosed one is held back whole. */
  lemma DrainAtFence(sent: Text, t: Text)
    requires Index(t, FENCE_OPEN) >= 0
    ensures var i := Index(t, FENCE_OPEN);
            var body := i + |FENCE_OPEN|;
            var c := Index(t[body..], FENCE_CLOSE);
            Drain(GateState(sent, t, false)) ==
            if c < 0 then GateState(sent + t[..i], t[body..], true)
            else Drain(GateState(sent + t[..i], t[body + c + |FENCE_CLOSE|..], false))
  {
    hide Index, PartialPrefix;
    var i := Index(t, FENCE_OPEN);
    var body := i + |FENCE_OPEN|;
    var c := Index(t[body..], FENCE_CLOSE);
    assert Drain(GateState(sent, t, false)) == Drain(GateState(sent + t[..i], t[body..], true));
    if c >= 0 {
      assert t[body..][c + |FENCE_CLOSE|..] == t[body + c + |FENCE_CLOSE|..];
    }
  }

  lemma Reassemble(sent: Text, t: Text, i: int)
    requires OccursAt(t, FENCE_OPEN, i)
    ensures sent + t == (sent + t[..i]) + (FENCE_OPEN + t[i + |FENCE_OPEN|..])
  {
    assert t == t[..i] + (FENCE_OPEN + t[i + |FENCE_OPEN|..]);
  }

  lemma NoOpenNoFence(t: Text)
    requires Index(t, FENCE_OPEN) < 0
    ensures RemoveFences(t) == t
  {
    IndexFinds(t, FENCE_OPEN);
    hide Index;
    NoFenceNothingRemoved(t);
  }

  lemma CutAndSent(sent: Text, t: Text, cut: nat)
    requires cut <= |t|
    ensures sent + t == (sent + t[..cut]) + t[cut..]
  {
    assert t == t[..cut] + t[cut..];
  }

  lemma DrainWithoutFence(sent: Text, t: Text)
    requires Index(t, FENCE_OPEN) < 0
    ensures RemoveFences(t) == t
    ensures var g := Drain(GateState(sent, t, false)); sent + t == g.sent + Withheld(g)
  {
    hide Index, PartialPrefix, RemoveFences, Drain;
    NoOpenNoFence(t);
    DrainOutside(sent, t);
    var cut := |t| - PartialPrefix(t, FENCE_OPEN);
    CutAndSent(sent, t, cut);
  }

  lemma {:induction false} DrainRefinesRegex(sent: Text, t: Text)
    ensures var g := Drain(GateState(sent, t, false));
            sent + RemoveFences(t) == g.sent + Withheld(g)
    decreases |t|
  {
    hide Index, PartialPrefix, RemoveFences, Drain;
    var i := Index(t, FENCE_OPEN);
    if i < 0 {
      DrainWithoutFence(sent, t);
    } else {
      FirstFenceByIndex(t);
      DrainAtFence(sent, t);
      IndexFinds(t, FENCE_OPEN);
      hide FirstFence, OccursAt;
      var body := i + |FENCE_OPEN|;
      var c := Index(t[body..], FENCE_CLOSE);
      if c < 0 {
        NoFenceNothingRemoved(t);
        Reassemble(sent, t, i);
      } else {
        var j := body + c + |FENCE_CLOSE|;
        FirstFenceUnique(t, i, j);
        DrainRefinesRegex(sent + t[..i], t[j..]);
        assert sent + (t[..i] + RemoveFences(t[j..])) == (sent + t[..i]) + RemoveFences(t[j..]);
      }
    }
  }

  /** What the gate sent, followed by what it holds, is the text with every fence removed as
      the regular expression removes them. */
  lemma GateRefinesRegex(t: Text)
    ensures RemoveFences(t) == Scan(t).sent + Withheld(Scan(t))
  {
    DrainRefinesRegex([], t);
    assert [] + RemoveFences(t) == RemoveFences(t);
  }

  // ---------------------------------------------------------------- safety and optimality

  /** Whatever arrives next, what was sent is a prefix of the text the client should see. */
  lemma GateIsSafe(t: Text)
    ensures SafeToShow(Scan(t).sent, t)
  {
    hide Index, PartialPrefix, Drain, RemoveFences;
    var g := Scan(t);
    forall u ensures g.sent <= RemoveFences(t + u) {
      ScanExtends(t, u);
      DrainKeepsSent(g.(buf := g.buf + u));
      GateRefinesRegex(t + u);
    }
  }

  /** Whatever arrives after `t`, `shown` begins what the client should see. */
  ghost predicate SafeToShow(shown: Text, t: Text) {
    forall u :: shown <= RemoveFences(t + u)
  }

  /** Backticks at the end of a fence body that has not been closed yet: 0, 1 or 2. */
  function TrailingTicks(s: Text): (c: nat)
    ensures c <= 2 && c <= |s|
    ensures forall k :: |s| - c <= k < |s| ==> s[k] == BACKTICK
    ensures c < 2 && c < |s| ==> s[|s| - 1 - c] != BACKTICK
  {
    if |s| >= 1 && s[|s| - 1] == BACKTICK then
      if |s| >= 2 && s[|s| - 2] == BACKTICK then 2 else 1
    else 0
  }

  /** A continuation that completes the pending fence and adds nothing else. */
  function Closer(g: GateState): Text {
    if g.inFence then FENCE_CLOSE[TrailingTicks(g.buf)..]
    else FENCE_OPEN[PartialPrefix(g.buf, FENCE_OPEN)..] + FENCE_CLOSE
  }

  /** A gate with nothing pending keeps nothing. */
  lemma DrainOfNothing(sent: Text)
    ensures Drain(GateState(sent, [], false)) == GateState(sent, [], false)
  {
    hide Index, PartialPrefix;
    assert sent + [] == sent;
  }

  lemma NoEarlyClose(b: Text, u: Text, k: nat)
    requires Index(b, FENCE_CLOSE) < 0
    requires k < |b| - TrailingTicks(b) && |u| == 3 - TrailingTicks(b)
    ensures !OccursAt(b + u, FENCE_CLOSE, k)
  {
    IndexFinds(b, FENCE_CLOSE);
    hide Index, TrailingTicks;
    if k + 3 <= |b| {
      OccursInPrefix(b, u, FENCE_CLOSE, k);
    } else {
      var q := |b| - 1 - TrailingTicks(b);
      assert (b + u)[k..k + 3][q - k] == b[q] != BACKTICK;
    }
  }

  /** The missing backticks close the body at its very end. */
  lemma MissingTicksClose(b: Text)
    requires Index(b, FENCE_CLOSE) < 0
    ensures var s := b + FENCE_CLOSE[TrailingTicks(b)..];
            Index(s, FENCE_CLOSE) == |s| - 3
  {
    hide Index, TrailingTicks, OccursAt;
    var u := FENCE_CLOSE[TrailingTicks(b)..];
    var s := b + u;
    forall k | 0 <= k < |s| - 3 ensures !OccursAt(s, FENCE_CLOSE, k) {
      NoEarlyClose(b, u, k);
    }
    TicksAtEnd(b);
    IndexIs(s, FENCE_CLOSE, |s| - 3);
  }

  lemma ThreeTicks(s: Text, n: nat)
    requires n + 3 <= |s| && s[n] == s[n + 1] == s[n + 2] == BACKTICK
    ensures OccursAt(s, FENCE_CLOSE, n)
  {
  }

  lemma TicksAtEnd(b: Text)
    ensures var s := b + FENCE_CLOSE[TrailingTicks(b)..];
            OccursAt(s, FENCE_CLOSE, |s| - 3)
  {
    var c := TrailingTicks(b);
    hide TrailingTicks;
    var s := b + FENCE_CLOSE[c..];
    var n := |b| - c;
    forall k | n <= k < n + 3 ensures s[k] == BACKTICK {
      assert s[k] == if k < |b| then b[k] else FENCE_CLOSE[c..][k - |b|];
    }
    ThreeTicks(s, n);
  }

  /** Inside a fence, the missing backticks empty the buffer. */
  lemma ClosesOpenFence(sent: Text, b: Text)
    requires Index(b, FENCE_CLOSE) < 0
    ensures Drain(GateState(sent, b + FENCE_CLOSE[TrailingTicks(b)..], true)) == GateState(sent, [], false)
  {
    hide Index, PartialPrefix;
    MissingTicksClose(b);
    DrainOfNothing(sent);
  }

  lemma EmptyFenceVanishes(sent: Text)
    ensures Drain(GateState(sent, FENCE_OPEN + FENCE_CLOSE, false)) == GateState(sent, [], false)
  {
    hide Index, PartialPrefix;
    var s := FENCE_OPEN + FENCE_CLOSE;
    assert s[0..|FENCE_OPEN|] == FENCE_OPEN;
    IndexIs(s, FENCE_OPEN, 0);
    assert s[|FENCE_OPEN|..] == FENCE_CLOSE;
    assert sent + s[..0] == sent;
    assert Drain(GateState(sent, s, false)) == Drain(GateState(sent, FENCE_CLOSE, true));
    assert FENCE_CLOSE[0..|FENCE_CLOSE|] == FENCE_CLOSE;
    IndexIs(FENCE_CLOSE, FENCE_CLOSE, 0);
    assert FENCE_CLOSE[|FENCE_CLOSE|..] == [];
    assert Drain(GateState(sent, FENCE_CLOSE, true)) == Drain(GateState(sent, [], false));
    DrainOfNothing(sent);
  }

  /** A gate has settled when it holds either an unclosed body or a partial marker. */
  predicate Settled(g: GateState) {
    if g.inFence then Index(g.buf, FENCE_CLOSE) < 0
    else g.buf == FENCE_OPEN[..PartialPrefix(g.buf, FENCE_OPEN)]
  }

  lemma {:induction false} DrainSettles(g: GateState)
    ensures Settled(Drain(g))
    decreases |g.buf|
  {
    hide Index, PartialPrefix;
    var m := if g.inFence then FENCE_CLOSE else FENCE_OPEN;
    var i := Index(g.buf, m);
    if i >= 0 {
      DrainSettles(GateState(if g.inFence then g.sent else g.sent + g.buf[..i], g.buf[i + |m|..], !g.inFence));
    } else if !g.inFence {
      var k := PartialPrefix(g.buf, FENCE_OPEN);
      var held := g.buf[|g.buf| - k..];
      PartialIsLongest(g.buf, FENCE_OPEN);
      PartialIsLongest(held, FENCE_OPEN);
      assert held[|held| - k..] == held;
      assert IsPartial(held, FENCE_OPEN, k);
    }
  }

  /** Some continuation leaves the client with exactly what was sent. */
  lemma GateIsTight(t: Text)
    ensures RemoveFences(t + Closer(Scan(t))) == Scan(t).sent
  {
    hide Index, PartialPrefix;
    var g := Scan(t);
    DrainSettles(GateState([], t, false));
    if g.inFence {
      ClosesOpenFence(g.sent, g.buf);
    } else {
      var k := PartialPrefix(g.buf, FENCE_OPEN);
      assert g.buf + (FENCE_OPEN[k..] + FENCE_CLOSE) == FENCE_OPEN + FENCE_CLOSE;
      EmptyFenceVanishes(g.sent);
    }
    ScanExtends(t, Closer(g));
    GateRefinesRegex(t + Closer(g));
    assert g.sent + [] == g.sent;
  }

  /** Safe and optimal in one statement: a text may be shown to the client after `t` has been
      received, whatever follows, exactly when it is a prefix of what the gate has sent. */
  lemma GateSendsExactlyTheSafeText(t: Text, shown: Text)
    ensures shown <= Scan(t).sent <==> SafeToShow(shown, t)
  {
    GateIsSafe(t);
    GateIsTight(t);
    hide Scan, RemoveFences;
    assert !(shown <= Scan(t).sent) ==> !(shown <= RemoveFences(t + Closer(Scan(t))));
  }

  // ---------------------------------------------------------------- the gate itself

  /** `partialPrefixLen`. */
  method PartialPrefixLen(s: Text, marker: Text) returns (k: nat)
    ensures k == if marker == [] then 0 else PartialPrefix(s, marker)
  {
    if marker == [] {
      return 0;
    }
    PartialIsLongest(s, marker);
    var max := |marker| - 1;
    if |s| < max { max := |s|; }
    k := max;
    while k > 0
      invariant 0 <= k <= max
      invariant forall k' :: IsPartial(s, marker, k') ==> k' <= k
    {
      if s[|s| - k..] <= marker {
        assert IsPartial(s, marker, k);
        return;
      }
      k := k - 1;
    }
  }

  /** One round of the loop, inside a fence and outside. */
  lemma DrainInFence(sent: Text, buf: Text)
    ensures var j := Index(buf, FENCE_CLOSE);
            j >= 0 ==> j <= |buf| - |FENCE_CLOSE|
    ensures var j := Index(buf, FENCE_CLOSE);
            Drain(GateState(sent, buf, true)) ==
            if j < 0 then GateState(sent, buf, true) else Drain(GateState(sent, buf[j + |FENCE_CLOSE|..], false))
  {
    IndexFinds(buf, FENCE_CLOSE);
    hide Index;
  }

  lemma DrainOutside(sent: Text, buf: Text)
    ensures var i := Index(buf, FENCE_OPEN);
            i >= 0 ==> i <= |buf| - |FENCE_OPEN|
    ensures var i := Index(buf, FENCE_OPEN);
            Drain(GateState(sent, buf, false)) ==
            if i >= 0 then Drain(GateState(sent + buf[..i], buf[i + |FENCE_OPEN|..], true))
            else
              var cut := |buf| - PartialPrefix(buf, FENCE_OPEN);
              GateState(sent + buf[..cut], buf[cut..], false)
  {
    IndexFinds(buf, FENCE_OPEN);
    hide Index, PartialPrefix;
  }

  class ToolFenceGate {
    var buf: Text
    var sent: Text
    var inFence: bool
    /** The calls made to the `emit` callback, in order. */
    var emitted: seq<Text>
    ghost var received: Text

    ghost function State(): GateState
      reads this
    {
      GateState(sent, buf, inFence)
    }

    ghost predicate Valid()
      reads this
    {
      State() == Scan(received) && EmittedIsSent()
    }

    ghost predicate EmittedIsSent()
      reads `emitted, `sent
    {
      Flatten(emitted) == sent && [] !in emitted
    }

    constructor ()
      ensures Valid() && received == [] && emitted == []
    {
      buf, sent, inFence, emitted, received := [], [], false, [], [];
      new;
      DrainOfNothing([]);
    }

    method Send(s: Text)
      requires EmittedIsSent()
      modifies `sent, `emitted
      ensures EmittedIsSent()
      ensures sent == old(sent) + s
      ensures emitted == old(emitted) + (if s == [] then [] else [s])
    {
      if s == [] {
        return;
      }
      FlattenAppend(emitted, s);
      sent := sent + s;
      emitted := emitted + [s];
    }

    /** After a push the gate is where it would be had everything arrived in one piece. */
    method Push(delta: Text)
      requires Valid()
      modifies this
      ensures Valid()
      ensures received == old(received) + delta
      ensures old(sent) <= sent && old(emitted) <= emitted
      ensures forall shown :: shown <= sent <==> SafeToShow(shown, received)
    {
      hide SafeToShow;
      hide Index, PartialPrefix, Flatten, Scan, Drain;
      ScanExtends(received, delta);
      received := received + delta;
      buf := buf + delta;
      forall shown ensures shown <= Scan(received).sent <==> SafeToShow(shown, received) {
        GateSendsExactlyTheSafeText(received, shown);
      }
      while true
        invariant Scan(received) == Drain(State())
        invariant EmittedIsSent()
        invariant received == old(received) + delta
        invariant old(sent) <= sent && old(emitted) <= emitted
        decreases |buf|
      {
        if inFence {
          var j := Index(buf, FENCE_CLOSE);
          DrainInFence(sent, buf);
          if j < 0 {
            return;
          }
          buf := buf[j + |FENCE_CLOSE|..];
          inFence := false;
          continue;
        }
        var i := Index(buf, FENCE_OPEN);
        DrainOutside(sent, buf);
        if i >= 0 {
          Send(buf[..i]);
          buf := buf[i + |FENCE_OPEN|..];
          inFence := true;
          continue;
        }
        var keep := PartialPrefixLen(buf, FENCE_OPEN);
        Send(buf[..|buf| - keep]);
        buf := buf[|buf| - keep..];
        return;
      }
    }
  }

  lemma {:induction false} FlattenAppend(chunks: seq<Text>, s: Text)
    ensures Flatten(chunks + [s]) == Flatten(chunks) + s
  {
    if chunks == [] {
      assert Flatten([s]) == s + Flatten([]);
    } else {
      assert (chunks + [s])[1..] == chunks[1..] + [s];
      FlattenAppend(chunks[1..], s);
    }
  }
}
