/** From cumulative upstream frames to what the client receives: the delta tracker
    (internal/app/gemini.go), the fence gate, and the tail sent at the end
    (internal/app/server.go).  Frames are texts after `cleanGeminiText`, which is not part of
    this model; any sequence of frames is possible. */
module StreamPipeline {
  import opened GoStrings
  import opened FenceGate
  import opened Utf8

  // ---------------------------------------------------------------- the gate and characters

  /** Neither what the gate sends nor what it holds back ever contains part of a character. */
  lemma {:induction false} DrainSplitsNoChar(g: GateState)
    requires WholeChars(g.sent) && WholeChars(g.buf)
    ensures WholeChars(Drain(g).sent) && WholeChars(Drain(g).buf)
    decreases |g.buf|
  {
    hide Index, PartialPrefix, WholeChars;
    var m := if g.inFence then FENCE_CLOSE else FENCE_OPEN;
    var i := Index(g.buf, m);
    if i >= 0 {
      IndexFinds(g.buf, m);
      hide OccursAt;
      MarkersAreAscii();
      AsciiMarkerCut(g.buf, m, i);
      JoinWholeChars(g.sent, g.buf[..i]);
      DrainSplitsNoChar(GateState(if g.inFence then g.sent else g.sent + g.buf[..i], g.buf[i + |m|..], !g.inFence));
    } else if !g.inFence {
      PartialMarkerCut(g.buf);
      JoinWholeChars(g.sent, g.buf[..|g.buf| - PartialPrefix(g.buf, FENCE_OPEN)]);
    }
  }

  lemma MarkersAreAscii()
    ensures forall k :: 0 <= k < |FENCE_OPEN| ==> FENCE_OPEN[k] < 0x80
    ensures forall k :: 0 <= k < |FENCE_CLOSE| ==> FENCE_CLOSE[k] < 0x80
  {
  }

  lemma PartialMarkerCut(s: Text)
    requires WholeChars(s)
    ensures var cut := |s| - PartialPrefix(s, FENCE_OPEN); WholeChars(s[..cut]) && WholeChars(s[cut..])
  {
    PartialIsLongest(s, FENCE_OPEN);
    hide PartialPrefix, WholeChars;
    var cut := |s| - PartialPrefix(s, FENCE_OPEN);
    assert cut < |s| ==> s[cut] == s[cut..][0];
    CutBetweenChars(s, cut);
  }

  lemma AsciiMarkerCut(s: Text, m: Text, i: nat)
    requires WholeChars(s) && OccursAt(s, m, i) && m != []
    requires forall k :: 0 <= k < |m| ==> m[k] < 0x80
    ensures WholeChars(s[..i]) && WholeChars(s[i + |m|..])
  {
    hide WholeChars;
    var w := s[i..i + |m|];
    assert s[i] == w[0];
    CutBetweenChars(s, i);
    forall k | 0 <= k < |m| ensures s[i..][k] < 0x80 {
      assert s[i..][k] == w[k];
    }
    DropAscii(s[i..], |m|);
    assert s[i..][|m|..] == s[i + |m|..];
  }

  /** A text of whole characters is sent in whole characters, wherever the chunks end. */
  lemma SentIsWholeChars(t: Text)
    requires WholeChars(t)
    ensures WholeChars(Scan(t).sent) && WholeChars(Scan(t).buf)
  {
    assert WholeChars([]);
    DrainSplitsNoChar(GateState([], t, false));
  }

  // ---------------------------------------------------------------- deltas

  /** The part of a cumulative frame that has not been emitted yet, if the frame extends it. */
  function Delta(emitted: Text, frame: Text): Text {
    if emitted < frame then frame[|emitted|..] else []
  }

  function TrackAll(emitted: Text, frames: seq<Text>): Text
    decreases |frames|
  {
    if frames == [] then emitted
    else TrackAll(emitted + Delta(emitted, frames[0]), frames[1..])
  }

  function Deltas(emitted: Text, frames: seq<Text>): seq<Text>
    decreases |frames|
  {
    if frames == [] then []
    else [Delta(emitted, frames[0])] + Deltas(emitted + Delta(emitted, frames[0]), frames[1..])
  }

  /** The deltas add up to what was emitted, which only ever grows by extension and is always
      the text of one of the frames. */
  lemma {:induction false} DeltasAddUp(emitted: Text, frames: seq<Text>)
    ensures emitted + Flatten(Deltas(emitted, frames)) == TrackAll(emitted, frames)
    ensures emitted <= TrackAll(emitted, frames)
    ensures TrackAll(emitted, frames) == emitted || TrackAll(emitted, frames) in frames
    decreases |frames|
  {
    if frames == [] {
      assert emitted + [] == emitted;
    } else {
      var d := Delta(emitted, frames[0]);
      DeltasAddUp(emitted + d, frames[1..]);
      var rest := Deltas(emitted + d, frames[1..]);
      assert Flatten([d] + rest) == d + Flatten(rest) by { assert ([d] + rest)[1..] == rest; }
      assert emitted + (d + Flatten(rest)) == (emitted + d) + Flatten(rest);
      assert d != [] ==> emitted + d == frames[0];
    }
  }

  /** Frames that really are cumulative are emitted completely. */
  lemma {:induction false} CumulativeFramesEmitAll(emitted: Text, frames: seq<Text>)
    requires frames != []
    requires emitted <= frames[0]
    requires forall i :: 0 <= i < |frames| - 1 ==> frames[i] <= frames[i + 1]
    ensures TrackAll(emitted, frames) == frames[|frames| - 1]
    decreases |frames|
  {
    assert emitted + Delta(emitted, frames[0]) == frames[0];
    if |frames| > 1 {
      assert frames[0] <= frames[0 + 1];
      CumulativeFramesEmitAll(frames[0], frames[1..]);
    }
  }

  class DeltaTracker {
    var emitted: Text

    constructor ()
      ensures emitted == []
    {
      emitted := [];
    }

    /** `deltaTracker.Push`, after cleaning. */
    method Push(cleaned: Text) returns (delta: Text)
      modifies this
      ensures delta == Delta(old(emitted), cleaned)
      ensures if old(emitted) <= cleaned then emitted == cleaned else emitted == old(emitted)
      ensures emitted == old(emitted) + delta
    {
      if |cleaned| <= |emitted| || !(emitted <= cleaned) {
        return [];
      }
      delta := cleaned[|emitted|..];
      emitted := cleaned;
    }
  }

  // ---------------------------------------------------------------- the end of the stream

  /** `parseToolCalls`, the text it returns. */
  ghost function CleanText(text: Text): Text {
    TrimSpace(RemoveFences(text))
  }

  /** `remainingOf`. */
  function RemainingOf(full: Text, emitted: Text): Text {
    if emitted == [] then full
    else if emitted <= full then full[|emitted|..]
    else []
  }

  /** The tail completes the text exactly when what was sent is its beginning; otherwise
      nothing is sent again. */
  lemma TailCompletesOrNothing(full: Text, sent: Text)
    ensures sent <= full ==> sent + RemainingOf(full, sent) == full
    ensures !(sent <= full) ==> RemainingOf(full, sent) == [] && sent != full
  {
    if sent <= full {
      assert sent + full[|sent|..] == full;
    }
  }

  /** With tools, on a stream whose emitted text begins the final one: the client ends up with
      exactly the final text if and only if nothing was sent, or the text left by fence removal
      has no leading white space and no byte of its trailing white space had been sent.
      (If white space is exposed by the removal of a leading fence and was sent, the tail of
      the answer is lost.) */
  lemma GatedStreamIsExactWhen(emitted: Text, final: Text)
    requires emitted <= final && WholeChars(emitted)
    ensures var sent := Scan(emitted).sent;
            var full := CleanText(final);
            sent + RemainingOf(full, sent) == full <==>
            sent == [] || (LeadingSpace(RemoveFences(final)) == 0 && |sent| <= |full|)
  {
    var sent, full := Scan(emitted).sent, CleanText(final);
    assert final == emitted + final[|emitted|..];
    GateIsSafe(emitted);
    assert emitted + final[|emitted|..] == final;
    SentIsWholeChars(emitted);
    TailCompletesOrNothing(full, sent);
    if sent != [] {
      PrefixSurvivesTrim(sent, RemoveFences(final));
    }
  }

  /** In particular nothing is lost or repeated when fence removal exposes no white space. */
  lemma GatedStreamIsExact(emitted: Text, final: Text)
    requires emitted <= final
    requires LeadingSpace(RemoveFences(final)) == 0 && TrailingSpace(RemoveFences(final)) == 0
    ensures var sent := Scan(emitted).sent;
            sent + RemainingOf(CleanText(final), sent) == CleanText(final) == RemoveFences(final)
  {
    var sent := Scan(emitted).sent;
    assert final == emitted + final[|emitted|..];
    GateIsSafe(emitted);
    assert emitted + final[|emitted|..] == final;
    TrimSpaceFixed(RemoveFences(final));
    TailCompletesOrNothing(CleanText(final), sent);
  }

  predicate NoTicks(s: Text) {
    forall k :: 0 <= k < |s| ==> s[k] != BACKTICK
  }

  lemma NoMarkerWithoutTicks(s: Text, i: int)
    requires NoTicks(s)
    ensures !OccursAt(s, FENCE_OPEN, i)
  {
    if 0 <= i <= |s| - |FENCE_OPEN| {
      assert s[i..i + |FENCE_OPEN|][0] == s[i];
    }
  }

  lemma NoPartialWithoutTicks(s: Text, k: int)
    requires NoTicks(s) && k > 0
    ensures !IsPartial(s, FENCE_OPEN, k)
  {
    if k <= |s| && k < |FENCE_OPEN| {
      assert s[|s| - k..][0] == s[|s| - k];
    }
  }

  /** A text without backticks passes the gate unchanged. */
  lemma PlainTextPasses(s: Text)
    requires NoTicks(s)
    ensures Scan(s) == GateState(s, [], false)
  {
    forall i ensures !OccursAt(s, FENCE_OPEN, i) {
      NoMarkerWithoutTicks(s, i);
    }
    IndexNone(s, FENCE_OPEN);
    PartialIsLongest(s, FENCE_OPEN);
    hide Index, PartialPrefix;
    if PartialPrefix(s, FENCE_OPEN) > 0 {
      NoPartialWithoutTicks(s, PartialPrefix(s, FENCE_OPEN));
      assert false;
    }
    assert [] + s[..|s|] == s && s[|s|..] == [];
  }

  /** A complete fence in front of a plain text. */
  lemma FencedPrefix(s: Text)
    requires NoTicks(s)
    ensures var t := FENCE_OPEN + FENCE_CLOSE + s; Scan(t).sent == s == RemoveFences(t)
  {
    hide Index, PartialPrefix, RemoveFences;
    EmptyFenceVanishes([]);
    ScanExtends(FENCE_OPEN + FENCE_CLOSE, s);
    assert [] + s == s;
    PlainTextPasses(s);
    GateRefinesRegex(FENCE_OPEN + FENCE_CLOSE + s);
    assert s + [] == s;
  }

  /** "```tool_call```\nab": the fence exposes a line break, the gate had already sent it with
      the first letter, and the second letter never arrives. */
  lemma TailLostAfterLeadingFence()
    ensures var final := FENCE_OPEN + FENCE_CLOSE + [10, 97, 98];
            var emitted := FENCE_OPEN + FENCE_CLOSE + [10, 97];
            && CleanText(final) == [97, 98]
            && Scan(emitted).sent == [10, 97]
            && RemainingOf(CleanText(final), Scan(emitted).sent) == []
  {
    hide RemoveFences, Scan;
    var s: Text, rest: Text := [10, 97, 98], [97, 98];
    FencedPrefix([10, 97]);
    FencedPrefix(s);
    assert LeadingSpace(s) == 1 && s[1..] == rest;
    assert TrimLeft(rest) == rest && TrimRight(rest) == rest;
  }

  lemma {:induction false} TrackOneMore(emitted: Text, frames: seq<Text>, k: nat)
    requires k < |frames|
    ensures var before := TrackAll(emitted, frames[..k]);
            TrackAll(emitted, frames[..k + 1]) == before + Delta(before, frames[k])
    decreases k
  {
    if k == 0 {
      assert frames[..1][1..] == [] && frames[..1][0] == frames[0];
    } else {
      TrackOneMore(emitted + Delta(emitted, frames[0]), frames[1..], k - 1);
      assert frames[..k][1..] == frames[1..][..k - 1] && frames[..k][0] == frames[0];
      assert frames[..k + 1][1..] == frames[1..][..k] && frames[..k + 1][0] == frames[0];
    }
  }

  /** What the client has seen when the tracker has emitted this much. */
  function Shown(emitted: Text, withTools: bool): Text {
    if withTools then Scan(emitted).sent else emitted
  }

  /** After every frame the client has seen all that can be shown by then: `upTo[k]` events were
      sent for the first `k` frames. */
  ghost predicate InTime(events: seq<Text>, upTo: seq<nat>, frames: seq<Text>, withTools: bool) {
    forall k :: 0 <= k < |upTo| && k <= |frames| ==>
      upTo[k] <= |events| && Flatten(events[..upTo[k]]) == Shown(TrackAll([], frames[..k]), withTools)
  }

  lemma InTimeOneMore(earlier: seq<Text>, events: seq<Text>, upTo: seq<nat>, frames: seq<Text>, withTools: bool)
    requires InTime(earlier, upTo, frames, withTools) && earlier <= events
    requires |upTo| <= |frames| && Flatten(events) == Shown(TrackAll([], frames[..|upTo|]), withTools)
    ensures InTime(events, upTo + [|events|], frames, withTools)
  {
    hide Flatten, Shown, TrackAll;
    var all := upTo + [|events|];
    forall k | 0 <= k < |all|
      ensures all[k] <= |events| && Flatten(events[..all[k]]) == Shown(TrackAll([], frames[..k]), withTools)
    {
      if k < |upTo| {
        assert events[..all[k]] == earlier[..upTo[k]];
      } else {
        assert events[..|events|] == events;
      }
    }
  }

  lemma InTimeStays(earlier: seq<Text>, events: seq<Text>, upTo: seq<nat>, frames: seq<Text>, withTools: bool)
    requires InTime(earlier, upTo, frames, withTools) && earlier <= events
    ensures InTime(events, upTo, frames, withTools)
  {
    hide Flatten, Shown, TrackAll;
    forall k | 0 <= k < |upTo| && k <= |frames|
      ensures upTo[k] <= |events| && Flatten(events[..upTo[k]]) == Shown(TrackAll([], frames[..k]), withTools)
    {
      assert events[..upTo[k]] == earlier[..upTo[k]];
    }
  }

  /** The streaming half of `handleChatCompletions`: every frame goes through the tracker and,
      when there are tools, through the gate; at the end the missing tail is sent, as at most one
      event.  No event is empty.  `full` is the final text the non-streaming path would return. */
  method StreamToClient(frames: seq<Text>, full: Text, withTools: bool) returns (events: seq<Text>, ghost upTo: seq<nat>)
    ensures [] !in events && |upTo| == |frames| + 1 && InTime(events, upTo, frames, withTools)
    ensures var sent := Shown(TrackAll([], frames), withTools);
            Flatten(events) == sent + RemainingOf(full, sent)
    ensures |events| <= upTo[|frames|] + 1
    ensures !withTools && Cumulative(frames) && full == frames[|frames| - 1] ==> Flatten(events) == full
    ensures withTools && Cumulative(frames) && Bare(RemoveFences(frames[|frames| - 1])) && full == CleanText(frames[|frames| - 1]) ==>
              Flatten(events) == RemoveFences(frames[|frames| - 1])
  {
    hide Scan, Delta, TrackAll, Flatten, RemainingOf, InTime, Cumulative, Bare, RemoveFences, CleanText;
    if Cumulative(frames) {
      StreamEnds(frames, full, withTools);
    }
    var tracker := new DeltaTracker();
    var gate := new ToolFenceGate();
    events, upTo := [], [0];
    NothingShown(frames, withTools);
    for i := 0 to |frames|
      invariant fresh(gate) && fresh(tracker) && gate.Valid()
      invariant withTools ==> gate.received == tracker.emitted && events == gate.emitted
      invariant [] !in events && Flatten(events) == Shown(tracker.emitted, withTools)
      invariant tracker.emitted == TrackAll([], frames[..i])
      invariant |upTo| == i + 1 && upTo[i] == |events| && InTime(events, upTo, frames, withTools)
    {
      ghost var before, was := events, tracker.emitted;
      var delta := tracker.Push(frames[i]);
      TrackOneMore([], frames, i);
      if delta == [] {
        assert was + [] == was;
      } else if withTools {
        gate.Push(delta);
        events := gate.emitted;
      } else {
        FlattenAppend(events, delta);
        events := events + [delta];
      }
      InTimeOneMore(before, events, upTo, frames, withTools);
      upTo := upTo + [|events|];
    }
    assert frames[..|frames|] == frames;
    var sent := if withTools then gate.sent else tracker.emitted;
    var rest := RemainingOf(full, sent);
    if rest == [] {
      assert sent + [] == sent;
    } else {
      FlattenAppend(events, rest);
      InTimeStays(events, events + [rest], upTo, frames, withTools);
      events := events + [rest];
    }
  }

  /** Every frame begins with the one before it. */
  predicate Cumulative(frames: seq<Text>) {
    frames != [] && forall i :: 0 <= i < |frames| - 1 ==> frames[i] <= frames[i + 1]
  }

  /** No white space at either end. */
  predicate Bare(s: Text) {
    LeadingSpace(s) == 0 && TrailingSpace(s) == 0
  }

  /** What the client has in the end, on cumulative frames. */
  lemma StreamEnds(frames: seq<Text>, full: Text, withTools: bool)
    requires Cumulative(frames)
    ensures var final := frames[|frames| - 1];
            var sent := Shown(TrackAll([], frames), withTools);
            && (!withTools && full == final ==> sent + RemainingOf(full, sent) == full)
            && (withTools && Bare(RemoveFences(final)) && full == CleanText(final) ==>
                  sent + RemainingOf(full, sent) == RemoveFences(final))
  {
    hide Scan, TrackAll, RemainingOf, LeadingSpace, TrailingSpace, RemoveFences;
    CumulativeFramesEmitAll([], frames);
    CumulativeStreamIsExact(frames);
    var final := frames[|frames| - 1];
    if Bare(RemoveFences(final)) {
      GatedStreamIsExact(final, final);
    }
  }

  lemma NothingShown(frames: seq<Text>, withTools: bool)
    ensures Flatten([]) == [] && TrackAll([], frames[..0]) == [] && Shown([], withTools) == []
    ensures InTime([], [0], frames, withTools)
  {
    DrainOfNothing([]);
    assert frames[..0] == [];
    var none: seq<Text> := [];
    assert none[..0] == [];
  }

  /** The whole way, without tools: cumulative frames arrive complete, each byte once. */
  lemma CumulativeStreamIsExact(frames: seq<Text>)
    requires frames != []
    requires forall i :: 0 <= i < |frames| - 1 ==> frames[i] <= frames[i + 1]
    ensures var final := frames[|frames| - 1];
            var emitted := TrackAll([], frames);
            emitted == final && emitted + RemainingOf(final, emitted) == final
  {
    CumulativeFramesEmitAll([], frames);
    TailCompletesOrNothing(frames[|frames| - 1], TrackAll([], frames));
  }
}
