/** The per-IP slot limiter (internal/app/ratelimit.go): concurrency plus two sliding windows.
    One mutex-protected call is one step; the clock is an argument. */
module RateLimit {

  /** Limits of 0 or less switch the respective check off. */
  datatype Limits = Limits(concurrent: int, rpm: int, rph: int)

  datatype Slot = Slot(inflight: nat, minuteWin: seq<int>, hourWin: seq<int>)

  datatype Verdict = Granted | Concurrent | Rpm | Rph

  const EMPTY_SLOT := Slot(0, [], [])
  const MINUTE: int := 60
  const HOUR: int := 3600

  /** Drop the leading timestamps before `cutoff`. */
  function Prune(ts: seq<int>, cutoff: int): seq<int>
    decreases |ts|
  {
    if ts != [] && ts[0] < cutoff then Prune(ts[1..], cutoff) else ts
  }

  function PruneSlot(s: Slot, now: int): Slot {
    s.(minuteWin := Prune(s.minuteWin, now - MINUTE), hourWin := Prune(s.hourWin, now - HOUR))
  }

  function Judge(s: Slot, lim: Limits): Verdict {
    if lim.concurrent > 0 && s.inflight >= lim.concurrent then Concurrent
    else if lim.rpm > 0 && |s.minuteWin| >= lim.rpm then Rpm
    else if lim.rph > 0 && |s.hourWin| >= lim.rph then Rph
    else Granted
  }

  function Grant(s: Slot, now: int): Slot {
    Slot(s.inflight + 1, s.minuteWin + [now], s.hourWin + [now])
  }

  /** `trySlotAcquire`: the verdict, and the slot afterwards. */
  function VerdictOf(s: Slot, now: int, lim: Limits): Verdict {
    Judge(PruneSlot(s, now), lim)
  }

  function AfterTry(s: Slot, now: int, lim: Limits): Slot {
    var p := PruneSlot(s, now);
    if Judge(p, lim) == Granted then Grant(p, now) else p
  }

  /** `slotRelease` */
  function AfterRelease(s: Slot): Slot {
    if s.inflight > 0 then s.(inflight := s.inflight - 1) else s
  }

  // ---------------------------------------------------------------- runs

  datatype Op = Try(at: int) | Release | Usage(at: int)

  /** A slot together with its whole history. */
  datatype World = World(slot: Slot, grants: seq<int>, verdicts: seq<Verdict>, released: nat, clock: int)

  const INITIAL_WORLD := World(EMPTY_SLOT, [], [], 0, 0)

  function Step(w: World, op: Op, lim: Limits): World {
    match op
    case Try(now) =>
      World(AfterTry(w.slot, now, lim),
            if VerdictOf(w.slot, now, lim) == Granted then w.grants + [now] else w.grants,
            w.verdicts + [VerdictOf(w.slot, now, lim)],
            w.released, now)
    case Release => w.(slot := AfterRelease(w.slot), released := w.released + 1)
    case Usage(now) => w.(slot := PruneSlot(w.slot, now), clock := now)
  }

  /** The clock does not go backwards, and only leases that were granted are released. */
  predicate Allowed(w: World, op: Op) {
    match op
    case Try(now) => now >= w.clock
    case Release => w.released < |w.grants|
    case Usage(now) => now >= w.clock
  }

  predicate AllowedRun(w: World, ops: seq<Op>, lim: Limits)
    decreases |ops|
  {
    ops == [] || (Allowed(w, ops[0]) && AllowedRun(Step(w, ops[0], lim), ops[1..], lim))
  }

  function Run(w: World, ops: seq<Op>, lim: Limits): World
    decreases |ops|
  {
    if ops == [] then w else Run(Step(w, ops[0], lim), ops[1..], lim)
  }

  /** Grants within the closed interval [lo, hi]. */
  function CountIn(grants: seq<int>, lo: int, hi: int): (n: nat)
    ensures n <= |grants|
    decreases |grants|
  {
    if grants == [] then 0
    else
      var last := grants[|grants| - 1];
      CountIn(grants[..|grants| - 1], lo, hi) + if lo <= last <= hi then 1 else 0
  }

  /** Grants in the closed window of `span` seconds that ends at `t`. */
  function InWindow(grants: seq<int>, span: int, t: int): nat {
    CountIn(grants, t - span, t)
  }

  /** Their positions. */
  ghost function Within(grants: seq<int>, lo: int, hi: int): set<int> {
    set i | 0 <= i < |grants| && lo <= grants[i] <= hi
  }

  /** The grants of the 60, and of the 3600 seconds that end at `t`. */
  ghost function LastMinute(grants: seq<int>, t: int): set<int> {
    set i | 0 <= i < |grants| && t - 60 <= grants[i] <= t
  }

  ghost function LastHour(grants: seq<int>, t: int): set<int> {
    set i | 0 <= i < |grants| && t - 3600 <= grants[i] <= t
  }

  /** How many there are. */
  lemma WindowsAreCounted(grants: seq<int>, t: int)
    ensures InWindow(grants, MINUTE, t) == |LastMinute(grants, t)|
    ensures InWindow(grants, HOUR, t) == |LastHour(grants, t)|
  {
    CountIsSize(grants, t - 60, t);
    CountIsSize(grants, t - 3600, t);
    assert Within(grants, t - 60, t) == LastMinute(grants, t);
    assert Within(grants, t - 3600, t) == LastHour(grants, t);
  }

  lemma {:induction false} CountIsSize(grants: seq<int>, lo: int, hi: int)
    ensures CountIn(grants, lo, hi) == |Within(grants, lo, hi)|
    decreases |grants|
  {
    if grants == [] {
      assert Within(grants, lo, hi) == {};
    } else {
      var last := |grants| - 1;
      CountIsSize(grants[..last], lo, hi);
      var before, after := Within(grants[..last], lo, hi), Within(grants, lo, hi);
      var grown := if lo <= grants[last] <= hi then before + {last} else before;
      assert forall i :: i in grown <==> i in after;
      assert grown == after;
    }
  }

  predicate Sorted(ts: seq<int>) {
    forall i, j :: 0 <= i < j < |ts| ==> ts[i] <= ts[j]
  }

  /** `win` holds the end of the history, and what it no longer holds is older than `span`. */
  predicate Remembers(win: seq<int>, grants: seq<int>, clock: int, span: int) {
    && |win| <= |grants|
    && win == grants[|grants| - |win|..]
    && forall i :: 0 <= i < |grants| - |win| ==> grants[i] < clock - span
  }

  predicate Inv(w: World) {
    && Sorted(w.grants)
    && (forall i :: 0 <= i < |w.grants| ==> w.grants[i] <= w.clock)
    && Remembers(w.slot.minuteWin, w.grants, w.clock, MINUTE)
    && Remembers(w.slot.hourWin, w.grants, w.clock, HOUR)
    && w.released <= |w.grants|
    && w.slot.inflight == |w.grants| - w.released
  }

  lemma {:induction false} PruneKeepsRecent(win: seq<int>, grants: seq<int>, clock: int, now: int, span: int)
    requires Sorted(grants) && Remembers(win, grants, clock, span) && clock <= now
    ensures var p := Prune(win, now - span);
            && Remembers(p, grants, now, span)
            && forall i :: |grants| - |p| <= i < |grants| ==> grants[i] >= now - span
    decreases |win|
  {
    if win != [] {
      assert win[0] == grants[|grants| - |win|];
      if win[0] < now - span {
        PruneKeepsRecent(win[1..], grants, now, now, span);
      } else {
        assert forall i :: |grants| - |win| < i < |grants| ==> grants[|grants| - |win|] <= grants[i];
      }
    }
  }

  /** In a sorted history whose last grants from index `k` on are the recent ones, the recent
      ones are counted by their number. */
  lemma {:induction false} CountRecent(grants: seq<int>, k: nat, lo: int, hi: int)
    requires k <= |grants|
    requires forall i :: 0 <= i < k ==> grants[i] < lo
    requires forall i :: k <= i < |grants| ==> lo <= grants[i] <= hi
    ensures CountIn(grants, lo, hi) == |grants| - k
    decreases |grants|
  {
    if grants != [] {
      var front := grants[..|grants| - 1];
      CountRecent(front, if k < |grants| then k else k - 1, lo, hi);
    }
  }

  /** After pruning, the length of a window is the number of grants in the last `span`
      seconds, over the whole history. */
  lemma WindowCountsHistory(win: seq<int>, grants: seq<int>, clock: int, now: int, span: int)
    requires Sorted(grants) && Remembers(win, grants, clock, span) && clock <= now && span >= 0
    requires forall i :: 0 <= i < |grants| ==> grants[i] <= clock
    ensures |Prune(win, now - span)| == InWindow(grants, span, now)
  {
    PruneKeepsRecent(win, grants, clock, now, span);
    CountRecent(grants, |grants| - |Prune(win, now - span)|, now - span, now);
  }

  /** The verdict as a function of the history alone: what the two lists approximate is exact. */
  function VerdictByHistory(w: World, now: int, lim: Limits): Verdict {
    if lim.concurrent > 0 && |w.grants| - w.released >= lim.concurrent then Concurrent
    else if lim.rpm > 0 && InWindow(w.grants, MINUTE, now) >= lim.rpm then Rpm
    else if lim.rph > 0 && InWindow(w.grants, HOUR, now) >= lim.rph then Rph
    else Granted
  }

  /** Refusals happen only when a limit is really reached, and always then: the unreleased grants
      are counted first, then those of the last 60 seconds, then those of the last 3600. */
  lemma VerdictIsHistorical(w: World, now: int, lim: Limits)
    requires Inv(w) && w.clock <= now
    ensures VerdictOf(w.slot, now, lim) == VerdictByHistory(w, now, lim)
    ensures var v := VerdictOf(w.slot, now, lim);
            var busy := lim.concurrent > 0 && |w.grants| - w.released >= lim.concurrent;
            var minute := lim.rpm > 0 && |LastMinute(w.grants, now)| >= lim.rpm;
            var hour := lim.rph > 0 && |LastHour(w.grants, now)| >= lim.rph;
            && (v == Concurrent <==> busy)
            && (v == Rpm <==> !busy && minute)
            && (v == Rph <==> !busy && !minute && hour)
            && (v == Granted <==> !busy && !minute && !hour)
  {
    WindowsAreCounted(w.grants, now);
    hide LastMinute, LastHour, InWindow;
    WindowCountsHistory(w.slot.minuteWin, w.grants, w.clock, now, MINUTE);
    WindowCountsHistory(w.slot.hourWin, w.grants, w.clock, now, HOUR);
  }

  lemma RemembersGrant(win: seq<int>, grants: seq<int>, now: int, span: int)
    requires Remembers(win, grants, now, span)
    ensures Remembers(win + [now], grants + [now], now, span)
  {
  }

  lemma SortedAppend(ts: seq<int>, now: int)
    requires Sorted(ts) && forall i :: 0 <= i < |ts| ==> ts[i] <= now
    ensures Sorted(ts + [now])
  {
  }

  lemma PruneKeepsInv(w: World, now: int)
    requires Inv(w) && w.clock <= now
    ensures Inv(w.(slot := PruneSlot(w.slot, now), clock := now))
  {
    PruneKeepsRecent(w.slot.minuteWin, w.grants, w.clock, now, MINUTE);
    PruneKeepsRecent(w.slot.hourWin, w.grants, w.clock, now, HOUR);
  }

  lemma GrantKeepsInv(w: World)
    requires Inv(w)
    ensures Inv(w.(slot := Grant(w.slot, w.clock), grants := w.grants + [w.clock]))
  {
    RemembersGrant(w.slot.minuteWin, w.grants, w.clock, MINUTE);
    RemembersGrant(w.slot.hourWin, w.grants, w.clock, HOUR);
    SortedAppend(w.grants, w.clock);
    hide Remembers, Sorted;
  }

  lemma StepKeepsInv(w: World, op: Op, lim: Limits)
    requires Inv(w) && Allowed(w, op)
    ensures Inv(Step(w, op, lim))
  {
    hide Remembers, Sorted, PruneSlot, Judge;
    match op
    case Release =>
    case Usage(now) => PruneKeepsInv(w, now);
    case Try(now) =>
      PruneKeepsInv(w, now);
      GrantKeepsInv(w.(slot := PruneSlot(w.slot, now), clock := now));
  }

  // ---------------------------------------------------------------- the window bound

  ghost predicate WindowsBounded(grants: seq<int>, span: int, limit: int) {
    forall t: int :: InWindow(grants, span, t) <= limit
  }

  lemma {:induction false} CountShrinks(grants: seq<int>, lo: int, hi: int, lo': int, now: int)
    requires forall i :: 0 <= i < |grants| ==> grants[i] <= now
    requires lo' <= lo
    ensures CountIn(grants, lo, hi) <= CountIn(grants, lo', now)
    decreases |grants|
  {
    if grants != [] {
      CountShrinks(grants[..|grants| - 1], lo, hi, lo', now);
    }
  }

  lemma GrantKeepsWindows(grants: seq<int>, now: int, span: int, limit: int)
    requires WindowsBounded(grants, span, limit)
    requires forall i :: 0 <= i < |grants| ==> grants[i] <= now
    requires InWindow(grants, span, now) < limit
    ensures WindowsBounded(grants + [now], span, limit)
  {
    forall t: int ensures InWindow(grants + [now], span, t) <= limit {
      assert (grants + [now])[..|grants|] == grants;
      assert InWindow(grants, span, t) <= limit;
      if now <= t {
        CountShrinks(grants, t - span, t, now - span, now);
      }
    }
  }

  ghost predicate Bounded(w: World, lim: Limits) {
    && (lim.rpm > 0 ==> WindowsBounded(w.grants, MINUTE, lim.rpm))
    && (lim.rph > 0 ==> WindowsBounded(w.grants, HOUR, lim.rph))
    && (lim.concurrent > 0 ==> |w.grants| - w.released <= lim.concurrent)
  }

  lemma StepKeepsBounds(w: World, op: Op, lim: Limits)
    requires Inv(w) && Bounded(w, lim) && Allowed(w, op)
    ensures Bounded(Step(w, op, lim), lim)
  {
    if op.Try? {
      VerdictIsHistorical(w, op.at, lim);
      hide VerdictOf, InWindow;
      if VerdictByHistory(w, op.at, lim) == Granted {
        if lim.rpm > 0 { GrantKeepsWindows(w.grants, op.at, MINUTE, lim.rpm); }
        if lim.rph > 0 { GrantKeepsWindows(w.grants, op.at, HOUR, lim.rph); }
      }
    }
  }

  lemma {:induction false} RunKeeps(w: World, ops: seq<Op>, lim: Limits)
    requires Inv(w) && Bounded(w, lim) && AllowedRun(w, ops, lim)
    ensures Inv(Run(w, ops, lim)) && Bounded(Run(w, ops, lim), lim)
    decreases |ops|
  {
    hide Inv, Bounded, Step, Allowed;
    if ops != [] {
      StepKeepsInv(w, ops[0], lim);
      StepKeepsBounds(w, ops[0], lim);
      RunKeeps(Step(w, ops[0], lim), ops[1..], lim);
    }
  }

  /** Over every run with fixed limits and a clock that does not go backwards: no closed window
      of 60 (3600) seconds holds more grants than the limit, the number of unreleased grants
      stays within the concurrency limit, and it is what `inflight` says. */
  lemma LimitsHoldOverRuns(ops: seq<Op>, lim: Limits)
    requires AllowedRun(INITIAL_WORLD, ops, lim)
    ensures var w := Run(INITIAL_WORLD, ops, lim);
            && (lim.rpm > 0 ==> forall t: int :: |LastMinute(w.grants, t)| <= lim.rpm)
            && (lim.rph > 0 ==> forall t: int :: |LastHour(w.grants, t)| <= lim.rph)
            && (lim.concurrent > 0 ==> w.slot.inflight <= lim.concurrent)
            && w.slot.inflight == |w.grants| - w.released
  {
    RunKeeps(INITIAL_WORLD, ops, lim);
    var w := Run(INITIAL_WORLD, ops, lim);
    hide Run, Inv, AllowedRun, LastMinute, LastHour, InWindow;
    forall t: int
      ensures lim.rpm > 0 ==> |LastMinute(w.grants, t)| <= lim.rpm
      ensures lim.rph > 0 ==> |LastHour(w.grants, t)| <= lim.rph
    {
      WindowsAreCounted(w.grants, t);
      assert lim.rpm > 0 ==> InWindow(w.grants, MINUTE, t) <= lim.rpm;
      assert lim.rph > 0 ==> InWindow(w.grants, HOUR, t) <= lim.rph;
    }
  }

  // ---------------------------------------------------------------- reading usage

  function WithoutUsage(ops: seq<Op>): seq<Op>
    decreases |ops|
  {
    if ops == [] then []
    else if ops[0].Usage? then WithoutUsage(ops[1..])
    else [ops[0]] + WithoutUsage(ops[1..])
  }

  /** Two worlds a caller cannot tell apart. */
  predicate SameHistory(a: World, b: World) {
    a.grants == b.grants && a.verdicts == b.verdicts && a.released == b.released
  }

  /** Reading the usage, at whatever times, changes no later verdict. */
  lemma {:induction false} UsageIsInvisible(a: World, b: World, ops: seq<Op>, lim: Limits)
    requires Inv(a) && Inv(b) && SameHistory(a, b) && b.clock <= a.clock
    requires AllowedRun(a, ops, lim)
    ensures AllowedRun(b, WithoutUsage(ops), lim)
    ensures SameHistory(Run(a, ops, lim), Run(b, WithoutUsage(ops), lim))
    decreases |ops|
  {
    if ops != [] {
      var op := ops[0];
      StepKeepsInv(a, op, lim);
      if op.Usage? {
        hide Inv;
        UsageIsInvisible(Step(a, op, lim), b, ops[1..], lim);
      } else {
        StepKeepsInv(b, op, lim);
        if op.Try? {
          VerdictIsHistorical(a, op.at, lim);
          VerdictIsHistorical(b, op.at, lim);
        }
        hide Inv, VerdictOf, AfterTry;
        UsageIsInvisible(Step(a, op, lim), Step(b, op, lim), ops[1..], lim);
        assert ([op] + WithoutUsage(ops[1..]))[1..] == WithoutUsage(ops[1..]);
      }
    }
  }

  // ---------------------------------------------------------------- trying twice

  lemma {:induction false} PruneTwice(ts: seq<int>, cutoff: int)
    ensures Prune(Prune(ts, cutoff), cutoff) == Prune(ts, cutoff)
    decreases |ts|
  {
    if ts != [] && ts[0] < cutoff {
      PruneTwice(ts[1..], cutoff);
    }
  }

  /** A refused slot stays refused within the same second, and trying again changes nothing. */
  lemma RefusalIsStable(s: Slot, now: int, lim: Limits)
    requires VerdictOf(s, now, lim) != Granted
    ensures VerdictOf(AfterTry(s, now, lim), now, lim) == VerdictOf(s, now, lim)
    ensures AfterTry(AfterTry(s, now, lim), now, lim) == AfterTry(s, now, lim)
  {
    PruneTwice(s.minuteWin, now - MINUTE);
    PruneTwice(s.hourWin, now - HOUR);
  }

  // ---------------------------------------------------------------- the slot itself

  method PruneTimestamps(ts: seq<int>, cutoff: int) returns (r: seq<int>)
    ensures r == Prune(ts, cutoff)
    ensures |r| <= |ts| && r == ts[|ts| - |r|..] && forall i :: 0 <= i < |ts| - |r| ==> ts[i] < cutoff
    ensures r != [] ==> r[0] >= cutoff
  {
    var i := 0;
    while i < |ts| && ts[i] < cutoff
      invariant 0 <= i <= |ts|
      invariant Prune(ts, cutoff) == Prune(ts[i..], cutoff)
      invariant forall j :: 0 <= j < i ==> ts[j] < cutoff
    {
      assert ts[i..][1..] == ts[i + 1..];
      i := i + 1;
    }
    if i == 0 {
      return ts;
    }
    return ts[i..];
  }

  class IpSlot {
    var inflight: nat
    var minuteWin: seq<int>
    var hourWin: seq<int>

    function Value(): Slot
      reads this
    {
      Slot(inflight, minuteWin, hourWin)
    }

    constructor ()
      ensures Value() == EMPTY_SLOT
    {
      inflight, minuteWin, hourWin := 0, [], [];
    }

    method TryAcquire(now: int, lim: Limits) returns (v: Verdict)
      modifies this
      ensures v == VerdictOf(old(Value()), now, lim)
      ensures Value() == AfterTry(old(Value()), now, lim)
      ensures var m, h := Prune(old(minuteWin), now - 60), Prune(old(hourWin), now - 3600);
              var busy := lim.concurrent > 0 && old(inflight) >= lim.concurrent;
              var minute, hour := lim.rpm > 0 && |m| >= lim.rpm, lim.rph > 0 && |h| >= lim.rph;
              && v == (if busy then Concurrent else if minute then Rpm else if hour then Rph else Granted)
              && inflight == old(inflight) + (if v == Granted then 1 else 0)
              && minuteWin == m + (if v == Granted then [now] else [])
              && hourWin == h + (if v == Granted then [now] else [])
    {
      var m := PruneTimestamps(minuteWin, now - MINUTE);
      var h := PruneTimestamps(hourWin, now - HOUR);
      minuteWin, hourWin := m, h;
      if lim.concurrent > 0 && inflight >= lim.concurrent {
        return Concurrent;
      }
      if lim.rpm > 0 && |minuteWin| >= lim.rpm {
        return Rpm;
      }
      if lim.rph > 0 && |hourWin| >= lim.rph {
        return Rph;
      }
      inflight := inflight + 1;
      minuteWin := minuteWin + [now];
      hourWin := hourWin + [now];
      return Granted;
    }

    method Release()
      modifies this
      ensures Value() == AfterRelease(old(Value()))
      ensures inflight == (if old(inflight) > 0 then old(inflight) - 1 else 0) && unchanged(`minuteWin, `hourWin)
    {
      if inflight > 0 {
        inflight := inflight - 1;
      }
    }

    /** What the panel shows: inflight, and the requests of the last minute and hour. */
    method ReadUsage(now: int) returns (conc: nat, rpm: nat, rph: nat)
      modifies this
      ensures Value() == PruneSlot(old(Value()), now)
      ensures inflight == old(inflight)
      ensures minuteWin == Prune(old(minuteWin), now - 60) && hourWin == Prune(old(hourWin), now - 3600)
      ensures conc == inflight && rpm == |minuteWin| && rph == |hourWin|
    {
      var m := PruneTimestamps(minuteWin, now - MINUTE);
      var h := PruneTimestamps(hourWin, now - HOUR);
      minuteWin, hourWin := m, h;
      return inflight, |minuteWin|, |hourWin|;
    }
  }
}
