/** The statistics roll-up (internal/app/scheduler.go): raw requests, hourly rows made from
    them, daily rows made from the hourly ones, and the retention sweep that deletes raw rows.
    Tables are maps under their primary key; the clock is an argument. */
module Rollup {
  import opened Percentiles

  datatype Key = Key(model: string, proxy: int)

  datatype Request = Request(ts: int, key: Key, status: int, ms: int, promptTokens: int, outputTokens: int)

  datatype Totals = Totals(requests: nat, successes: nat, failures: nat, ms: int, promptTokens: int, outputTokens: int)

  /** Primary key of a statistics table. */
  datatype Cell = Cell(bucket: int, key: Key)

  type Table = map<Cell, Totals>

  const HOUR: int := 3600
  const DAY: int := 86400

  /** The two bucket sizes. */
  predicate IsSpan(span: int) {
    span == HOUR || span == DAY
  }

  /** The start of a bucket. */
  predicate Aligned(t: int, span: int)
    requires IsSpan(span)
  {
    if span == HOUR then t % 3600 == 0 else t % 86400 == 0
  }

  lemma DaysAreHours(day: int)
    requires Aligned(day, DAY)
    ensures Aligned(day, HOUR) && Aligned(day + DAY, HOUR) && Aligned(day + DAY, DAY)
  {
    var q := day / 86400;
    assert day == 86400 * q;
    HoursOf(24 * q);
    HoursOf(24 * (q + 1));
    DaysOf(q + 1);
  }

  lemma HoursOf(n: int)
    ensures (3600 * n) % 3600 == 0
  {
  }

  lemma DaysOf(n: int)
    ensures (86400 * n) % 86400 == 0
  {
  }

  lemma NextAligned(t: int, span: int)
    requires IsSpan(span) && Aligned(t, span)
    ensures Aligned(t + span, span)
  {
  }

  const ZERO := Totals(0, 0, 0, 0, 0, 0)

  function Add(a: Totals, b: Totals): Totals {
    Totals(a.requests + b.requests, a.successes + b.successes, a.failures + b.failures,
           a.ms + b.ms, a.promptTokens + b.promptTokens, a.outputTokens + b.outputTokens)
  }

  /** What one request contributes. */
  function One(r: Request): Totals {
    Totals(1, if r.status == 200 then 1 else 0, if r.status == 200 then 0 else 1, r.ms, r.promptTokens, r.outputTokens)
  }

  /** The truth a statistics row has to report: the sum over all requests of a key in [lo, hi). */
  function TotalsOf(reqs: seq<Request>, lo: int, hi: int, key: Key): Totals
    decreases |reqs|
  {
    if reqs == [] then ZERO
    else
      var last := reqs[|reqs| - 1];
      var before := TotalsOf(reqs[..|reqs| - 1], lo, hi, key);
      if lo <= last.ts < hi && last.key == key then Add(before, One(last)) else before
  }

  lemma {:induction false} RequestsAreOutcomes(reqs: seq<Request>, lo: int, hi: int, key: Key)
    ensures var t := TotalsOf(reqs, lo, hi, key); t.requests == t.successes + t.failures
    decreases |reqs|
  {
    if reqs != [] {
      RequestsAreOutcomes(reqs[..|reqs| - 1], lo, hi, key);
    }
  }

  lemma AddZero(a: Totals)
    ensures Add(a, ZERO) == a && Add(ZERO, a) == a
  {
    match a
    case Totals(_, _, _, _, _, _) =>
  }

  lemma AddLast(a: Totals, b: Totals, x: Totals)
    ensures Add(Add(a, x), b) == Add(Add(a, b), x) == Add(a, Add(b, x))
  {
  }

  lemma TotalsOfLast(reqs: seq<Request>, lo: int, hi: int, key: Key)
    requires reqs != []
    ensures var last := reqs[|reqs| - 1];
            TotalsOf(reqs, lo, hi, key) ==
            if lo <= last.ts < hi && last.key == key then Add(TotalsOf(reqs[..|reqs| - 1], lo, hi, key), One(last))
            else TotalsOf(reqs[..|reqs| - 1], lo, hi, key)
  {
  }

  /** Totals over adjacent intervals add up. */
  lemma {:induction false} TotalsSplit(reqs: seq<Request>, a: int, b: int, c: int, key: Key)
    requires a <= b <= c
    ensures TotalsOf(reqs, a, c, key) == Add(TotalsOf(reqs, a, b, key), TotalsOf(reqs, b, c, key))
    decreases |reqs|
  {
    if reqs == [] {
      AddZero(ZERO);
    } else {
      hide TotalsOf, One, Add;
      var front, last := reqs[..|reqs| - 1], reqs[|reqs| - 1];
      TotalsSplit(front, a, b, c, key);
      TotalsOfLast(reqs, a, b, key);
      TotalsOfLast(reqs, b, c, key);
      TotalsOfLast(reqs, a, c, key);
      AddLast(TotalsOf(front, a, b, key), TotalsOf(front, b, c, key), One(last));
    }
  }

  // ---------------------------------------------------------------- what the columns count

  /** The positions of the requests of a key in [lo, hi); of those with status 200; of the others. */
  ghost function Hits(reqs: seq<Request>, lo: int, hi: int, key: Key): set<int> {
    set i | 0 <= i < |reqs| && lo <= reqs[i].ts < hi && reqs[i].key == key
  }

  ghost function Good(reqs: seq<Request>, lo: int, hi: int, key: Key): set<int> {
    set i | 0 <= i < |reqs| && lo <= reqs[i].ts < hi && reqs[i].key == key && reqs[i].status == 200
  }

  ghost function Bad(reqs: seq<Request>, lo: int, hi: int, key: Key): set<int> {
    set i | 0 <= i < |reqs| && lo <= reqs[i].ts < hi && reqs[i].key == key && reqs[i].status != 200
  }

  /** The milliseconds of these requests, front to back. */
  function MsSum(reqs: seq<Request>, lo: int, hi: int, key: Key): int {
    if reqs == [] then 0
    else (if lo <= reqs[0].ts < hi && reqs[0].key == key then reqs[0].ms else 0) + MsSum(reqs[1..], lo, hi, key)
  }

  /** Their prompt tokens. */
  function PromptSum(reqs: seq<Request>, lo: int, hi: int, key: Key): int {
    if reqs == [] then 0
    else (if lo <= reqs[0].ts < hi && reqs[0].key == key then reqs[0].promptTokens else 0) + PromptSum(reqs[1..], lo, hi, key)
  }

  /** Their output tokens. */
  function OutputSum(reqs: seq<Request>, lo: int, hi: int, key: Key): int {
    if reqs == [] then 0
    else (if lo <= reqs[0].ts < hi && reqs[0].key == key then reqs[0].outputTokens else 0) + OutputSum(reqs[1..], lo, hi, key)
  }

  /** Every column of a row says about these requests what its name says. */
  ghost predicate Reports(t: Totals, reqs: seq<Request>, lo: int, hi: int, key: Key) {
    && t.requests == |Hits(reqs, lo, hi, key)|
    && t.successes == |Good(reqs, lo, hi, key)|
    && t.failures == |Bad(reqs, lo, hi, key)|
    && t.ms == MsSum(reqs, lo, hi, key)
    && t.promptTokens == PromptSum(reqs, lo, hi, key)
    && t.outputTokens == OutputSum(reqs, lo, hi, key)
  }

  lemma {:induction false} SumsLast(reqs: seq<Request>, r: Request, lo: int, hi: int, key: Key)
    ensures var hit := lo <= r.ts < hi && r.key == key;
            && MsSum(reqs + [r], lo, hi, key) == MsSum(reqs, lo, hi, key) + (if hit then r.ms else 0)
            && PromptSum(reqs + [r], lo, hi, key) == PromptSum(reqs, lo, hi, key) + (if hit then r.promptTokens else 0)
            && OutputSum(reqs + [r], lo, hi, key) == OutputSum(reqs, lo, hi, key) + (if hit then r.outputTokens else 0)
  {
    if reqs != [] {
      assert (reqs + [r])[1..] == reqs[1..] + [r];
      SumsLast(reqs[1..], r, lo, hi, key);
    } else {
      assert reqs + [r] == [r] && [r][1..] == [];
    }
  }

  lemma OneMore(before: set<int>, after: set<int>, n: int, hit: bool)
    requires n !in before && forall i :: i in after <==> i in before || (hit && i == n)
    ensures |after| == |before| + (if hit then 1 else 0)
  {
    var grown := if hit then before + {n} else before;
    assert forall i :: i in grown <==> i in after;
    assert grown == after;
  }

  lemma HitsLast(reqs: seq<Request>, r: Request, lo: int, hi: int, key: Key)
    ensures |Hits(reqs + [r], lo, hi, key)| == |Hits(reqs, lo, hi, key)| + (if lo <= r.ts < hi && r.key == key then 1 else 0)
  {
    OneMore(Hits(reqs, lo, hi, key), Hits(reqs + [r], lo, hi, key), |reqs|, lo <= r.ts < hi && r.key == key);
  }

  lemma GoodLast(reqs: seq<Request>, r: Request, lo: int, hi: int, key: Key)
    ensures |Good(reqs + [r], lo, hi, key)| == |Good(reqs, lo, hi, key)| + (if lo <= r.ts < hi && r.key == key && r.status == 200 then 1 else 0)
  {
    OneMore(Good(reqs, lo, hi, key), Good(reqs + [r], lo, hi, key), |reqs|, lo <= r.ts < hi && r.key == key && r.status == 200);
  }

  lemma BadLast(reqs: seq<Request>, r: Request, lo: int, hi: int, key: Key)
    ensures |Bad(reqs + [r], lo, hi, key)| == |Bad(reqs, lo, hi, key)| + (if lo <= r.ts < hi && r.key == key && r.status != 200 then 1 else 0)
  {
    OneMore(Bad(reqs, lo, hi, key), Bad(reqs + [r], lo, hi, key), |reqs|, lo <= r.ts < hi && r.key == key && r.status != 200);
  }

  /** The totals are these counts and sums. */
  lemma {:induction false} TotalsReport(reqs: seq<Request>, lo: int, hi: int, key: Key)
    ensures Reports(TotalsOf(reqs, lo, hi, key), reqs, lo, hi, key)
    decreases |reqs|
  {
    if reqs == [] {
      assert Hits([], lo, hi, key) == {} && Good([], lo, hi, key) == {} && Bad([], lo, hi, key) == {};
    } else {
      var front, last := reqs[..|reqs| - 1], reqs[|reqs| - 1];
      TotalsReport(front, lo, hi, key);
      assert reqs == front + [last];
      hide Hits, Good, Bad, MsSum, PromptSum, OutputSum;
      SumsLast(front, last, lo, hi, key);
      HitsLast(front, last, lo, hi, key);
      GoodLast(front, last, lo, hi, key);
      BadLast(front, last, lo, hi, key);
    }
  }

  /** There is a row for a bucket and key exactly if the bucket is over and holds a request of
      the key, and it reports these requests. */
  ghost predicate Counted(t: Table, all: seq<Request>, span: int, upto: int)
    requires span > 0
  {
    && (forall c :: c in t <==> && c.bucket % span == 0 && c.bucket + span <= upto
                                && exists i :: 0 <= i < |all| && c.bucket <= all[i].ts < c.bucket + span && all[i].key == c.key)
    && forall c :: c in t ==> Reports(t[c], all, c.bucket, c.bucket + span, c.key)
  }

  lemma HitsExist(all: seq<Request>, lo: int, hi: int, key: Key)
    ensures TotalsOf(all, lo, hi, key).requests > 0 <==> exists i :: 0 <= i < |all| && lo <= all[i].ts < hi && all[i].key == key
  {
    if TotalsOf(all, lo, hi, key).requests > 0 {
      var i := CountedWitness(all, lo, hi, key);
    }
    if i :| 0 <= i < |all| && lo <= all[i].ts < hi && all[i].key == key {
      RequestIsCounted(all, i, lo, hi);
    }
  }

  /** A table is exact if and only if its columns are these counts and sums. */
  lemma ExactIsCounted(t: Table, all: seq<Request>, span: int, upto: int)
    requires IsSpan(span)
    ensures Exact(t, all, span, upto) <==> Counted(t, all, span, upto)
  {
    forall lo, hi, key
      ensures TotalsOf(all, lo, hi, key).requests > 0 <==> exists i :: 0 <= i < |all| && lo <= all[i].ts < hi && all[i].key == key
      ensures Reports(TotalsOf(all, lo, hi, key), all, lo, hi, key)
    {
      HitsExist(all, lo, hi, key);
      TotalsReport(all, lo, hi, key);
    }
    hide TotalsOf, Hits, Good, Bad, MsSum, PromptSum, OutputSum;
    assert forall c: Cell :: Aligned(c.bucket, span) <==> c.bucket % span == 0;
    hide Aligned;
  }

  predicate NoneIn(reqs: seq<Request>, lo: int, hi: int) {
    forall i :: 0 <= i < |reqs| ==> !(lo <= reqs[i].ts < hi)
  }

  lemma {:induction false} NoneMeansZero(reqs: seq<Request>, lo: int, hi: int, key: Key)
    requires NoneIn(reqs, lo, hi)
    ensures TotalsOf(reqs, lo, hi, key) == ZERO
    decreases |reqs|
  {
    if reqs != [] {
      NoneMeansZero(reqs[..|reqs| - 1], lo, hi, key);
    }
  }

  /** A request is counted in every interval it lies in. */
  lemma {:induction false} RequestIsCounted(reqs: seq<Request>, i: nat, lo: int, hi: int)
    requires i < |reqs| && lo <= reqs[i].ts < hi
    ensures TotalsOf(reqs, lo, hi, reqs[i].key).requests > 0
    decreases |reqs|
  {
    if i < |reqs| - 1 {
      RequestIsCounted(reqs[..|reqs| - 1], i, lo, hi);
    }
  }

  lemma {:induction false} CountedIsPresent(reqs: seq<Request>, lo: int, hi: int, key: Key)
    requires TotalsOf(reqs, lo, hi, key).requests > 0
    ensures !NoneIn(reqs, lo, hi)
    decreases |reqs|
  {
    if NoneIn(reqs, lo, hi) {
      NoneMeansZero(reqs, lo, hi, key);
    }
  }

  /** `DELETE FROM requests WHERE ts < cutoff` */
  function KeepFrom(reqs: seq<Request>, cutoff: int): seq<Request>
    decreases |reqs|
  {
    if reqs == [] then []
    else
      var last := reqs[|reqs| - 1];
      KeepFrom(reqs[..|reqs| - 1], cutoff) + if last.ts >= cutoff then [last] else []
  }

  lemma {:induction false} SweepSpares(reqs: seq<Request>, cutoff: int, lo: int, hi: int, key: Key)
    requires cutoff <= lo
    ensures TotalsOf(KeepFrom(reqs, cutoff), lo, hi, key) == TotalsOf(reqs, lo, hi, key)
    decreases |reqs|
  {
    if reqs != [] {
      var front, last := reqs[..|reqs| - 1], reqs[|reqs| - 1];
      SweepSpares(front, cutoff, lo, hi, key);
      if last.ts >= cutoff {
        var kept := KeepFrom(reqs, cutoff);
        assert kept[..|kept| - 1] == KeepFrom(front, cutoff);
      } else {
        assert KeepFrom(reqs, cutoff) == KeepFrom(front, cutoff);
      }
    }
  }

  lemma {:induction false} KeepFromTwice(reqs: seq<Request>, a: int, b: int)
    ensures KeepFrom(KeepFrom(reqs, a), b) == KeepFrom(reqs, if a < b then b else a)
    decreases |reqs|
  {
    if reqs != [] {
      var front, last := reqs[..|reqs| - 1], reqs[|reqs| - 1];
      KeepFromTwice(front, a, b);
      if last.ts >= a {
        var kept := KeepFrom(reqs, a);
        assert kept[..|kept| - 1] == KeepFrom(front, a);
      } else {
        assert KeepFrom(reqs, a) == KeepFrom(front, a);
      }
    }
  }

  lemma {:induction false} KeptIsSubset(reqs: seq<Request>, cutoff: int)
    ensures forall r :: r in KeepFrom(reqs, cutoff) <==> r in reqs && r.ts >= cutoff
    decreases |reqs|
  {
    if reqs != [] {
      KeptIsSubset(reqs[..|reqs| - 1], cutoff);
      assert reqs == reqs[..|reqs| - 1] + [reqs[|reqs| - 1]];
    }
  }

  lemma KeepFromAppend(reqs: seq<Request>, r: Request, cutoff: int)
    requires r.ts >= cutoff
    ensures KeepFrom(reqs + [r], cutoff) == KeepFrom(reqs, cutoff) + [r]
  {
    assert (reqs + [r])[..|reqs|] == reqs;
  }

  // ---------------------------------------------------------------- exact tables

  /** The table holds, for every closed bucket and key with requests, their totals over all
      requests ever made, and nothing else. */
  ghost predicate Exact(t: Table, all: seq<Request>, span: int, upto: int)
    requires IsSpan(span)
  {
    && (forall c :: c in t <==> && Aligned(c.bucket, span) && c.bucket + span <= upto
                                && TotalsOf(all, c.bucket, c.bucket + span, c.key).requests > 0)
    && forall c :: c in t ==> t[c] == TotalsOf(all, c.bucket, c.bucket + span, c.key)
  }

  /** An exact table is determined by the requests: no history of catch-ups, repetitions or
      sweeps can show in it. */
  lemma ExactIsUnique(a: Table, b: Table, all: seq<Request>, span: int, upto: int)
    requires IsSpan(span) && Exact(a, all, span, upto) && Exact(b, all, span, upto)
    ensures a == b
  {
    hide TotalsOf, Aligned;
    assert forall c :: c in a <==> c in b;
  }

  /** Every row of an exact table accounts for its requests as successes and failures. */
  lemma RowsAddUp(t: Table, all: seq<Request>, span: int, upto: int, c: Cell)
    requires IsSpan(span) && Exact(t, all, span, upto) && c in t
    ensures t[c].requests == t[c].successes + t[c].failures > 0
  {
    RequestsAreOutcomes(all, c.bucket, c.bucket + span, c.key);
  }

  /** Moving the boundary across a stretch without requests changes nothing. */
  lemma ExactMove(t: Table, all: seq<Request>, span: int, u: int, v: int)
    requires IsSpan(span) && Exact(t, all, span, u)
    requires Aligned(u, span) && Aligned(v, span)
    requires NoneIn(all, if u < v then u else v, if u < v then v else u)
    ensures Exact(t, all, span, v)
  {
    forall c: Cell | Aligned(c.bucket, span) && TotalsOf(all, c.bucket, c.bucket + span, c.key).requests > 0
      ensures c.bucket + span <= u <==> c.bucket + span <= v
    {
      CountedIsPresent(all, c.bucket, c.bucket + span, c.key);
      if u < v {
        Boundary(c.bucket, u, span);
      } else {
        Boundary(c.bucket, v, span);
      }
    }
  }

  /** A bucket lies entirely before or entirely behind a boundary. */
  lemma Boundary(bucket: int, u: int, span: int)
    requires IsSpan(span) && Aligned(bucket, span) && Aligned(u, span)
    ensures bucket + span <= u || bucket >= u
  {
    if span == HOUR {
      assert bucket % 3600 == 0 && u % 3600 == 0;
    } else {
      assert bucket % 86400 == 0 && u % 86400 == 0;
    }
  }

  /** New requests in open buckets leave the closed ones as they are. */
  lemma ExactInsert(t: Table, all: seq<Request>, r: Request, span: int, upto: int)
    requires IsSpan(span) && Exact(t, all, span, upto) && r.ts >= upto
    ensures Exact(t, all + [r], span, upto)
  {
    assert (all + [r])[..|all|] == all;
    forall c: Cell | c.bucket + span <= upto
      ensures TotalsOf(all + [r], c.bucket, c.bucket + span, c.key) == TotalsOf(all, c.bucket, c.bucket + span, c.key)
    {
    }
  }

  /** Rows of one bucket. */
  function AtBucket<T>(b: int, groups: map<Key, T>): map<Cell, T> {
    map c: Cell | c in (set k | k in groups :: Cell(b, k)) :: groups[c.key]
  }

  ghost predicate ExactGroups(groups: map<Key, Totals>, all: seq<Request>, lo: int, hi: int) {
    && (forall k :: k in groups <==> TotalsOf(all, lo, hi, k).requests > 0)
    && forall k :: k in groups ==> groups[k] == TotalsOf(all, lo, hi, k)
  }

  /** A request that lands in a closed bucket is never counted, and makes its row wrong: late
      requests are exactly the ones that break the table. */
  lemma LateInsertExactly(t: Table, all: seq<Request>, r: Request, span: int, upto: int)
    requires IsSpan(span) && Exact(t, all, span, upto) && Aligned(upto, span)
    ensures Exact(t, all + [r], span, upto) <==> r.ts >= upto
  {
    if r.ts >= upto {
      ExactInsert(t, all, r, span, upto);
    } else {
      var b := BucketOf(r.ts, span);
      var c := Cell(b, r.key);
      Boundary(b, upto, span);
      assert (all + [r])[..|all|] == all;
      TotalsOfLast(all + [r], b, b + span, r.key);
      hide TotalsOf, Aligned;
      assert TotalsOf(all + [r], b, b + span, r.key).requests == TotalsOf(all, b, b + span, r.key).requests + 1;
      assert c in t ==> t[c] == TotalsOf(all, b, b + span, r.key);
    }
  }

  /** A sweep is harmless to every total still to come, exactly if it takes no request that the
      hourly roll-up has not closed yet. */
  lemma SweepIsHarmlessExactly(all: seq<Request>, cutoff: int, closed: int)
    ensures (forall lo, hi, key :: closed <= lo ==> TotalsOf(KeepFrom(all, cutoff), lo, hi, key) == TotalsOf(all, lo, hi, key))
            <==> NoneIn(all, closed, cutoff)
  {
    hide TotalsOf, KeepFrom;
    if NoneIn(all, closed, cutoff) {
      forall lo, hi, key | closed <= lo
        ensures TotalsOf(KeepFrom(all, cutoff), lo, hi, key) == TotalsOf(all, lo, hi, key)
      {
        SweepOfNone(all, cutoff, lo, hi, key);
      }
    } else {
      var i :| 0 <= i < |all| && closed <= all[i].ts < cutoff;
      var lo, key := all[i].ts, all[i].key;
      RequestIsCounted(all, i, lo, lo + 1);
      KeptIsSubset(all, cutoff);
      assert NoneIn(KeepFrom(all, cutoff), lo, lo + 1) by {
        forall j | 0 <= j < |KeepFrom(all, cutoff)| ensures KeepFrom(all, cutoff)[j].ts >= cutoff {
          assert KeepFrom(all, cutoff)[j] in KeepFrom(all, cutoff);
        }
      }
      NoneMeansZero(KeepFrom(all, cutoff), lo, lo + 1, key);
    }
  }

  lemma {:induction false} SweepOfNone(all: seq<Request>, cutoff: int, lo: int, hi: int, key: Key)
    requires NoneIn(all, lo, cutoff)
    ensures TotalsOf(KeepFrom(all, cutoff), lo, hi, key) == TotalsOf(all, lo, hi, key)
    decreases |all|
  {
    if all != [] {
      var front, last := all[..|all| - 1], all[|all| - 1];
      assert forall i :: 0 <= i < |front| ==> front[i] == all[i];
      SweepOfNone(front, cutoff, lo, hi, key);
      TotalsOfLast(all, lo, hi, key);
      if last.ts >= cutoff {
        var kept := KeepFrom(all, cutoff);
        assert kept[..|kept| - 1] == KeepFrom(front, cutoff);
        TotalsOfLast(kept, lo, hi, key);
      } else {
        assert KeepFrom(all, cutoff) == KeepFrom(front, cutoff);
      }
    }
  }

  /** Closing one more bucket. */
  lemma ExactClose(t: Table, all: seq<Request>, span: int, b: int, groups: map<Key, Totals>)
    requires IsSpan(span) && Exact(t, all, span, b) && Aligned(b, span)
    requires ExactGroups(groups, all, b, b + span)
    ensures Exact(t + AtBucket(b, groups), all, span, b + span)
  {
    var t' := t + AtBucket(b, groups);
    hide TotalsOf;
    forall c: Cell
      ensures c in t' <==> && Aligned(c.bucket, span) && c.bucket + span <= b + span
                           && TotalsOf(all, c.bucket, c.bucket + span, c.key).requests > 0
      ensures c in t' ==> t'[c] == TotalsOf(all, c.bucket, c.bucket + span, c.key)
    {
      if Aligned(c.bucket, span) {
        Boundary(c.bucket, b, span);
      }
      assert c in AtBucket(b, groups) <==> c.bucket == b && c.key in groups by {
        assert c == Cell(c.bucket, c.key);
      }
    }
  }

  lemma CountedHasRow(t: Table, all: seq<Request>, span: int, upto: int, i: nat) returns (c: Cell)
    requires IsSpan(span) && Exact(t, all, span, upto) && Aligned(upto, span)
    requires i < |all| && all[i].ts < upto
    ensures c in t && Aligned(c.bucket, span) && c.bucket <= all[i].ts < c.bucket + span
  {
    var b := BucketOf(all[i].ts, span);
    Boundary(b, upto, span);
    RequestIsCounted(all, i, b, b + span);
    hide TotalsOf;
    c := Cell(b, all[i].key);
  }

  /** Behind the newest row nothing has been counted. */
  lemma NoneBehindNewest(t: Table, all: seq<Request>, span: int, upto: int, newest: int)
    requires IsSpan(span) && Exact(t, all, span, upto) && Aligned(upto, span)
    requires forall c :: c in t ==> c.bucket <= newest
    ensures NoneIn(all, newest + span, upto)
  {
    hide Exact;
    forall i | 0 <= i < |all| ensures !(newest + span <= all[i].ts < upto) {
      if all[i].ts < upto {
        var c := CountedHasRow(t, all, span, upto, i);
      }
    }
  }

  /** `ts - ts % span` */
  function BucketOf(ts: int, span: int): (b: int)
    requires IsSpan(span)
    ensures Aligned(b, span) && b <= ts < b + span
  {
    if span == HOUR then ts - ts % 3600 else ts - ts % 86400
  }

  /** How the boundary ends up after a catch-up that started at `first` and went up to `goal`. */
  lemma ExactSettle(t: Table, all: seq<Request>, span: int, upto: int, first: int, goal: int)
    requires IsSpan(span) && Aligned(upto, span) && Aligned(first, span) && Aligned(goal, span)
    requires Exact(t, all, span, if goal < first then first else goal)
    requires NoneIn(all, if upto < first then upto else first, if upto < first then first else upto)
    ensures Exact(t, all, span, if goal < upto then upto else goal)
  {
    hide Exact;
    ExactMove(t, all, span, if goal < first then first else goal, if goal < upto then upto else goal);
  }

  // ---------------------------------------------------------------- from hours to days

  function CellOr(t: Table, c: Cell): Totals {
    if c in t then t[c] else ZERO
  }

  /** The sum of the hourly rows of one key over `n` hours. */
  function HoursSum(t: Table, start: int, n: nat, key: Key): Totals {
    if n == 0 then ZERO
    else Add(HoursSum(t, start, n - 1, key), CellOr(t, Cell(start + (n - 1) * HOUR, key)))
  }

  const HOURS_PER_DAY: nat := 24

  /** Where the hourly rows end, within [start, end). */
  function Clip(start: int, end: int, closed: int): int {
    if closed >= end then end else if closed < start then start else closed
  }

  lemma OneMoreHour(all: seq<Request>, closed: int, start: int, b: int, key: Key)
    requires start <= b && Aligned(b, HOUR) && Aligned(closed, HOUR)
    ensures Add(TotalsOf(all, start, Clip(start, b, closed), key),
                if b + HOUR <= closed then TotalsOf(all, b, b + HOUR, key) else ZERO)
         == TotalsOf(all, start, Clip(start, b + HOUR, closed), key)
  {
    hide TotalsOf, Add;
    Boundary(b, closed, HOUR);
    if b + HOUR <= closed {
      TotalsSplit(all, start, b, b + HOUR, key);
    } else {
      AddZero(TotalsOf(all, start, Clip(start, b, closed), key));
    }
  }

  /** The hourly rows of a day add up to all requests of its closed hours. */
  lemma {:induction false} HoursAreTotals(t: Table, all: seq<Request>, closed: int, start: int, n: nat, key: Key)
    requires Exact(t, all, HOUR, closed) && Aligned(closed, HOUR) && Aligned(start, HOUR)
    ensures HoursSum(t, start, n, key) == TotalsOf(all, start, Clip(start, start + n * HOUR, closed), key)
    decreases n
  {
    hide TotalsOf, Add, Exact, CellOr;
    if n == 0 {
      NoneMeansZero(all, start, start, key);
    } else {
      var b := start + (n - 1) * HOUR;
      HoursAreTotals(t, all, closed, start, n - 1, key);
      CellIsTotal(t, all, closed, b, key);
      OneMoreHour(all, closed, start, b, key);
    }
  }

  lemma HoursSumLast(t: Table, start: int, n: nat, key: Key)
    requires n > 0
    ensures HoursSum(t, start, n, key) == Add(HoursSum(t, start, n - 1, key), CellOr(t, Cell(start + (n - 1) * HOUR, key)))
  {
  }

  lemma CellIsTotal(t: Table, all: seq<Request>, closed: int, b: int, key: Key)
    requires Exact(t, all, HOUR, closed) && Aligned(b, HOUR)
    ensures CellOr(t, Cell(b, key)) == if b + HOUR <= closed then TotalsOf(all, b, b + HOUR, key) else ZERO
  {
    if b + HOUR <= closed && Cell(b, key) !in t {
      NoRequestsNoTotals(all, b, b + HOUR, key);
    }
  }

  lemma {:induction false} NoRequestsNoTotals(reqs: seq<Request>, lo: int, hi: int, key: Key)
    requires TotalsOf(reqs, lo, hi, key).requests == 0
    ensures TotalsOf(reqs, lo, hi, key) == ZERO
    decreases |reqs|
  {
    if reqs != [] {
      NoRequestsNoTotals(reqs[..|reqs| - 1], lo, hi, key);
    }
  }

  lemma DayIsClosedPart(t: Table, all: seq<Request>, closed: int, day: int, key: Key)
    requires Exact(t, all, HOUR, closed) && Aligned(closed, HOUR) && Aligned(day, DAY)
    ensures var cut := Clip(day, day + DAY, closed);
            TotalsOf(all, day, day + DAY, key) == Add(HoursSum(t, day, HOURS_PER_DAY, key), TotalsOf(all, cut, day + DAY, key))
  {
    hide Exact, HoursSum, TotalsOf, Add;
    DaysAreHours(day);
    hide Aligned;
    HoursAreTotals(t, all, closed, day, HOURS_PER_DAY, key);
    TotalsSplit(all, day, Clip(day, day + DAY, closed), day + DAY, key);
  }

  /** When a daily row is made, it is the true total of its day for every key exactly if no
      request of the day is still waiting for its hourly roll-up. */
  lemma DayIsCompleteExactly(t: Table, all: seq<Request>, closed: int, day: int)
    requires Exact(t, all, HOUR, closed) && Aligned(closed, HOUR) && Aligned(day, DAY)
    ensures (forall key :: HoursSum(t, day, HOURS_PER_DAY, key) == TotalsOf(all, day, day + DAY, key)) <==>
            NoneIn(all, Clip(day, day + DAY, closed), day + DAY)
  {
    hide Exact, HoursSum, TotalsOf;
    var cut := Clip(day, day + DAY, closed);
    if NoneIn(all, cut, day + DAY) {
      forall key ensures HoursSum(t, day, HOURS_PER_DAY, key) == TotalsOf(all, day, day + DAY, key) {
        DayIsClosedPart(t, all, closed, day, key);
        NoneMeansZero(all, cut, day + DAY, key);
        AddZero(HoursSum(t, day, HOURS_PER_DAY, key));
      }
    } else {
      var i :| 0 <= i < |all| && cut <= all[i].ts < day + DAY;
      RequestIsCounted(all, i, cut, day + DAY);
      DayIsClosedPart(t, all, closed, day, all[i].key);
    }
  }

  /** One more hourly row taken into account. */
  lemma {:induction false} HoursSumInsert(t: Table, c: Cell, v: Totals, start: int, n: nat, key: Key)
    requires c !in t && Aligned(c.bucket, HOUR) && Aligned(start, HOUR)
    ensures HoursSum(t[c := v], start, n, key) ==
            if c.key == key && start <= c.bucket < start + n * HOUR then Add(HoursSum(t, start, n, key), v)
            else HoursSum(t, start, n, key)
    decreases n
  {
    if n > 0 {
      var b := start + (n - 1) * HOUR;
      HoursSumInsert(t, c, v, start, n - 1, key);
      HoursSumLast(t, start, n, key);
      HoursSumLast(t[c := v], start, n, key);
      CellInsert(t, c, v, Cell(b, key));
      hide HoursSum, Add, CellOr;
      Boundary(c.bucket, b, HOUR);
      var x := HoursSum(t, start, n - 1, key);
      if c == Cell(b, key) {
        AddZero(x);
      } else if c.key == key && start <= c.bucket < b {
        AddLast(x, CellOr(t, Cell(b, key)), v);
      } else {
        assert !(c.key == key && c.bucket == b) by { assert c == Cell(c.bucket, c.key); }
      }
    }
  }

  lemma CellInsert(t: Table, c: Cell, v: Totals, x: Cell)
    requires c !in t
    ensures CellOr(t[c := v], x) == if x == c then v else CellOr(t, x)
    ensures CellOr(t, c) == ZERO
  {
  }

  lemma {:induction false} HoursSumSame(a: Table, b: Table, start: int, n: nat, key: Key)
    requires forall c: Cell :: start <= c.bucket < start + n * HOUR ==> CellOr(a, c) == CellOr(b, c)
    ensures HoursSum(a, start, n, key) == HoursSum(b, start, n, key)
    decreases n
  {
    if n > 0 {
      HoursSumSame(a, b, start, n - 1, key);
    }
  }

  // ---------------------------------------------------------------- the scheduler's work

  /** `MAX(bucket)` with 0 for an empty table. */
  method NewestBucket(t: Table) returns (m: int)
    ensures t == map[] ==> m == 0
    ensures t != map[] ==> exists c :: c in t && c.bucket == m
    ensures forall c :: c in t ==> c.bucket <= m
  {
    if t == map[] {
      return 0;
    }
    var first :| first in t;
    m := first.bucket;
    var todo := t.Keys - {first};
    while todo != {}
      invariant todo <= t.Keys
      invariant exists c :: c in t && c.bucket == m
      invariant forall c :: c in t && c !in todo ==> c.bucket <= m
    {
      var c :| c in todo;
      if c.bucket > m {
        m := c.bucket;
      }
      todo := todo - {c};
    }
  }

  /** `MIN(bucket)` with 0 for an empty table. */
  method OldestBucket(t: Table) returns (m: int)
    ensures t == map[] ==> m == 0
    ensures t != map[] ==> exists c :: c in t && c.bucket == m
    ensures forall c :: c in t ==> m <= c.bucket
  {
    if t == map[] {
      return 0;
    }
    var first :| first in t;
    m := first.bucket;
    var todo := t.Keys - {first};
    while todo != {}
      invariant todo <= t.Keys
      invariant exists c :: c in t && c.bucket == m
      invariant forall c :: c in t && c !in todo ==> m <= c.bucket
    {
      var c :| c in todo;
      if c.bucket < m {
        m := c.bucket;
      }
      todo := todo - {c};
    }
  }

  /** `MIN(ts)` with 0 for an empty table. */
  method OldestRequest(reqs: seq<Request>) returns (m: int)
    ensures reqs == [] ==> m == 0
    ensures reqs != [] ==> exists i :: 0 <= i < |reqs| && reqs[i].ts == m
    ensures forall i :: 0 <= i < |reqs| ==> m <= reqs[i].ts
  {
    if reqs == [] {
      return 0;
    }
    m := reqs[0].ts;
    for i := 1 to |reqs|
      invariant exists j :: 0 <= j < i && reqs[j].ts == m
      invariant forall j :: 0 <= j < i ==> m <= reqs[j].ts
    {
      if reqs[i].ts < m {
        m := reqs[i].ts;
      }
    }
  }

  /** The upserts of one bucket, in whatever order the groups come. */
  method Upsert<T>(t: map<Cell, T>, b: int, groups: map<Key, T>) returns (r: map<Cell, T>)
    ensures r == t + AtBucket(b, groups)
  {
    r := t;
    var todo := groups.Keys;
    while todo != {}
      invariant todo <= groups.Keys
      invariant forall c :: c in r <==> c in t || (c.bucket == b && c.key in groups && c.key !in todo)
      invariant forall c :: c in r ==> r[c] == if c.bucket == b && c.key in groups && c.key !in todo then groups[c.key] else t[c]
    {
      var k :| k in todo;
      todo := todo - {k};
      assert forall c: Cell :: c == Cell(b, k) <==> c.bucket == b && c.key == k;
      r := r[Cell(b, k) := groups[k]];
    }
    assert forall c: Cell :: c in AtBucket(b, groups) <==> c.bucket == b && c.key in groups by {
      forall c: Cell ensures c in AtBucket(b, groups) <==> c.bucket == b && c.key in groups {
        assert c == Cell(c.bucket, c.key);
      }
    }
  }

  lemma OneMoreLatency(lats: map<Key, seq<int>>, reqs: seq<Request>, r: Request, lo: int, hi: int)
    requires GroupLatencies(lats, reqs, lo, hi)
    ensures GroupLatencies(if lo <= r.ts < hi then lats[r.key := (if r.key in lats then lats[r.key] else []) + [r.ms]] else lats,
                           reqs + [r], lo, hi)
  {
    forall k ensures Latencies(reqs + [r], lo, hi, k) ==
                     if lo <= r.ts < hi && r.key == k then Latencies(reqs, lo, hi, k) + [r.ms] else Latencies(reqs, lo, hi, k) {
      LatenciesLast(reqs, r, lo, hi, k);
      assert Latencies(reqs, lo, hi, k) + [] == Latencies(reqs, lo, hi, k);
    }
    hide Latencies;
  }

  /** The groups of the raw requests of one hour, with their latencies. */
  method GroupRequests(reqs: seq<Request>, lo: int, hi: int) returns (groups: map<Key, Totals>, lats: map<Key, seq<int>>)
    ensures ExactGroups(groups, reqs, lo, hi) && GroupsReport(groups, reqs, lo, hi)
    ensures GroupLatencies(lats, reqs, lo, hi)
  {
    groups, lats := map[], map[];
    assert GroupLatencies(lats, reqs[..0], lo, hi);
    hide One, Add, GroupLatencies, GroupsReport;
    for i := 0 to |reqs|
      invariant ExactGroups(groups, reqs[..i], lo, hi)
      invariant GroupLatencies(lats, reqs[..i], lo, hi)
    {
      OneMoreLatency(lats, reqs[..i], reqs[i], lo, hi);
      var r := reqs[i];
      var front := reqs[..i];
      assert reqs[..i + 1] == front + [r] && (front + [r])[..i] == front;
      if lo <= r.ts < hi {
        forall k ensures TotalsOf(reqs[..i + 1], lo, hi, k) ==
                         if k == r.key then Add(TotalsOf(front, lo, hi, k), One(r)) else TotalsOf(front, lo, hi, k) {
          TotalsOfLast(reqs[..i + 1], lo, hi, k);
        }
        CountOfOne(TotalsOf(front, lo, hi, r.key), r);
        ZeroOutside(groups, front, lo, hi, r.key);
        hide TotalsOf;
        var acc := if r.key in groups then groups[r.key] else ZERO;
        groups := groups[r.key := Add(acc, One(r))];
        lats := lats[r.key := (if r.key in lats then lats[r.key] else []) + [r.ms]];
      } else {
        forall k ensures TotalsOf(reqs[..i + 1], lo, hi, k) == TotalsOf(front, lo, hi, k) {
          TotalsOfLast(reqs[..i + 1], lo, hi, k);
        }
      }
    }
    assert reqs[..|reqs|] == reqs;
    ExactGroupsReport(groups, reqs, lo, hi);
  }

  lemma CountOfOne(a: Totals, r: Request)
    ensures Add(a, One(r)).requests > 0
  {
  }

  lemma ZeroOutside(groups: map<Key, Totals>, reqs: seq<Request>, lo: int, hi: int, key: Key)
    requires ExactGroups(groups, reqs, lo, hi)
    ensures key !in groups ==> TotalsOf(reqs, lo, hi, key) == ZERO
  {
    if key !in groups {
      NoRequestsNoTotals(reqs, lo, hi, key);
    }
  }

  /** A day's groups over the hourly rows. */
  ghost predicate DayGroups(groups: map<Key, Totals>, rows: Table, day: int) {
    && (forall k :: k in groups <==> exists c :: c in rows && day <= c.bucket < day + DAY && c.key == k)
    && forall k :: k in groups ==> groups[k] == HoursSum(rows, day, HOURS_PER_DAY, k)
  }

  /** The groups of the hourly rows of one day, read in whatever order the query yields. */
  method GroupHours(rows: Table, day: int) returns (groups: map<Key, Totals>)
    requires Aligned(day, HOUR) && forall c :: c in rows ==> Aligned(c.bucket, HOUR)
    ensures DayGroups(groups, rows, day)
  {
    groups := map[];
    var todo := set c | c in rows && day <= c.bucket < day + DAY;
    ghost var read: Table := map[];
    hide HoursSum, Add;
    forall k ensures HoursSum(read, day, HOURS_PER_DAY, k) == ZERO {
      EmptyHours(day, HOURS_PER_DAY, k);
    }
    while todo != {}
      invariant todo <= rows.Keys && forall c :: c in todo ==> day <= c.bucket < day + DAY
      invariant forall c :: c in read <==> c in rows && day <= c.bucket < day + DAY && c !in todo
      invariant forall c :: c in read ==> read[c] == rows[c]
      invariant forall k :: k in groups <==> exists c :: c in read && c.key == k
      invariant forall k :: HoursSum(read, day, HOURS_PER_DAY, k) == if k in groups then groups[k] else ZERO
    {
      var c :| c in todo;
      todo := todo - {c};
      ghost var before := read;
      read := read[c := rows[c]];
      forall k ensures HoursSum(read, day, HOURS_PER_DAY, k) ==
                       if k == c.key then Add(HoursSum(before, day, HOURS_PER_DAY, k), rows[c])
                       else HoursSum(before, day, HOURS_PER_DAY, k) {
        HoursSumInsert(before, c, rows[c], day, HOURS_PER_DAY, k);
      }
      var acc := if c.key in groups then groups[c.key] else ZERO;
      ghost var was := groups;
      groups := groups[c.key := Add(acc, rows[c])];
      forall k ensures k in groups <==> exists x :: x in read && x.key == k {
        if k in groups {
          if k == c.key {
            assert c in read;
          } else {
            var x :| x in before && x.key == k;
            assert x in read;
          }
        }
      }
    }
    forall k ensures HoursSum(read, day, HOURS_PER_DAY, k) == HoursSum(rows, day, HOURS_PER_DAY, k) {
      HoursSumSame(read, rows, day, HOURS_PER_DAY, k);
    }
  }

  lemma {:induction false} EmptyHours(start: int, n: nat, key: Key)
    ensures HoursSum(map[], start, n, key) == ZERO
    decreases n
  {
    if n > 0 {
      EmptyHours(start, n - 1, key);
    }
  }

  // ---------------------------------------------------------------- the percentile columns

  /** `p50_ms` and `p95_ms` of an hourly row. */
  datatype Ranks = Ranks(p50: int, p95: int)

  /** The latencies of all requests of a key in [lo, hi), in the order of the table. */
  function Latencies(reqs: seq<Request>, lo: int, hi: int, key: Key): seq<int>
    decreases |reqs|
  {
    if reqs == [] then []
    else
      var last := reqs[|reqs| - 1];
      Latencies(reqs[..|reqs| - 1], lo, hi, key) + if lo <= last.ts < hi && last.key == key then [last.ms] else []
  }

  predicate RanksOf(r: Ranks, xs: seq<int>) {
    xs != [] && IsRank(xs, |xs| * 50 / 100, r.p50) && IsRank(xs, |xs| * 95 / 100, r.p95)
  }

  /** The requests of a key in [lo, hi) that took less than `v`, and at most `v`. */
  ghost function Faster(reqs: seq<Request>, lo: int, hi: int, key: Key, v: int): set<int> {
    set i | 0 <= i < |reqs| && lo <= reqs[i].ts < hi && reqs[i].key == key && reqs[i].ms < v
  }

  ghost function NotSlower(reqs: seq<Request>, lo: int, hi: int, key: Key, v: int): set<int> {
    set i | 0 <= i < |reqs| && lo <= reqs[i].ts < hi && reqs[i].key == key && reqs[i].ms <= v
  }

  /** Both columns have their rank among these requests, which are counted from 0 in order of
      their milliseconds. */
  ghost predicate RanksReport(r: Ranks, reqs: seq<Request>, lo: int, hi: int, key: Key) {
    var n := |Hits(reqs, lo, hi, key)|;
    && |Faster(reqs, lo, hi, key, r.p50)| <= n * 50 / 100 < |NotSlower(reqs, lo, hi, key, r.p50)|
    && |Faster(reqs, lo, hi, key, r.p95)| <= n * 95 / 100 < |NotSlower(reqs, lo, hi, key, r.p95)|
  }

  lemma FasterLast(reqs: seq<Request>, r: Request, lo: int, hi: int, key: Key, v: int)
    ensures |Faster(reqs + [r], lo, hi, key, v)|
            == |Faster(reqs, lo, hi, key, v)| + (if lo <= r.ts < hi && r.key == key && r.ms < v then 1 else 0)
  {
    OneMore(Faster(reqs, lo, hi, key, v), Faster(reqs + [r], lo, hi, key, v), |reqs|, lo <= r.ts < hi && r.key == key && r.ms < v);
  }

  lemma NotSlowerLast(reqs: seq<Request>, r: Request, lo: int, hi: int, key: Key, v: int)
    ensures |NotSlower(reqs + [r], lo, hi, key, v)|
            == |NotSlower(reqs, lo, hi, key, v)| + (if lo <= r.ts < hi && r.key == key && r.ms <= v then 1 else 0)
  {
    OneMore(NotSlower(reqs, lo, hi, key, v), NotSlower(reqs + [r], lo, hi, key, v), |reqs|,
            lo <= r.ts < hi && r.key == key && r.ms <= v);
  }

  /** Counting latencies is counting requests. */
  lemma {:induction false} LatenciesRank(reqs: seq<Request>, lo: int, hi: int, key: Key, v: int)
    ensures Below(Latencies(reqs, lo, hi, key), v) == |Faster(reqs, lo, hi, key, v)|
    ensures UpTo(Latencies(reqs, lo, hi, key), v) == |NotSlower(reqs, lo, hi, key, v)|
    decreases |reqs|
  {
    if reqs == [] {
      assert Faster([], lo, hi, key, v) == {} && NotSlower([], lo, hi, key, v) == {};
    } else {
      var front, last := reqs[..|reqs| - 1], reqs[|reqs| - 1];
      LatenciesRank(front, lo, hi, key, v);
      assert reqs == front + [last];
      hide Faster, NotSlower, Below, UpTo;
      FasterLast(front, last, lo, hi, key, v);
      NotSlowerLast(front, last, lo, hi, key, v);
      LatenciesLast(front, last, lo, hi, key);
      hide Latencies;
      CountLast(Latencies(front, lo, hi, key), last.ms, v);
      assert Latencies(front, lo, hi, key) + [] == Latencies(front, lo, hi, key);
    }
  }

  lemma RanksOfReport(r: Ranks, reqs: seq<Request>, lo: int, hi: int, key: Key)
    requires RanksOf(r, Latencies(reqs, lo, hi, key))
    ensures RanksReport(r, reqs, lo, hi, key)
  {
    LatenciesRank(reqs, lo, hi, key, r.p50);
    LatenciesRank(reqs, lo, hi, key, r.p95);
    LatenciesAreCounted(reqs, lo, hi, key);
    TotalsReport(reqs, lo, hi, key);
    hide Latencies, TotalsOf, Hits, Good, Bad, MsSum, PromptSum, OutputSum, Faster, NotSlower, Below, UpTo;
  }

  /** Every hourly row has percentile columns, and they report its requests. */
  ghost predicate ColumnsReport(ranks: map<Cell, Ranks>, hourly: Table, all: seq<Request>) {
    ranks.Keys == hourly.Keys && forall c :: c in ranks ==> RanksReport(ranks[c], all, c.bucket, c.bucket + 3600, c.key)
  }

  lemma RanksExactReport(ranks: map<Cell, Ranks>, hourly: Table, all: seq<Request>)
    requires RanksExact(ranks, hourly, all)
    ensures ColumnsReport(ranks, hourly, all)
  {
    hide RanksOf, RanksReport;
    forall c | c in ranks ensures RanksReport(ranks[c], all, c.bucket, c.bucket + 3600, c.key) {
      RanksOfReport(ranks[c], all, c.bucket, c.bucket + HOUR, c.key);
    }
  }

  /** Every hourly row has the percentiles of all requests ever inserted in its hour. */
  ghost predicate RanksExact(ranks: map<Cell, Ranks>, hourly: Table, all: seq<Request>) {
    && ranks.Keys == hourly.Keys
    && forall c :: c in ranks ==> RanksOf(ranks[c], Latencies(all, c.bucket, c.bucket + HOUR, c.key))
  }

  lemma LatenciesLast(reqs: seq<Request>, r: Request, lo: int, hi: int, key: Key)
    ensures Latencies(reqs + [r], lo, hi, key) ==
            Latencies(reqs, lo, hi, key) + if lo <= r.ts < hi && r.key == key then [r.ms] else []
  {
    assert (reqs + [r])[..|reqs|] == reqs;
  }

  lemma {:induction false} LatenciesAreCounted(reqs: seq<Request>, lo: int, hi: int, key: Key)
    ensures |Latencies(reqs, lo, hi, key)| == TotalsOf(reqs, lo, hi, key).requests
    decreases |reqs|
  {
    if reqs != [] {
      LatenciesAreCounted(reqs[..|reqs| - 1], lo, hi, key);
      TotalsOfLast(reqs, lo, hi, key);
    }
  }

  lemma {:induction false} SweepSparesLatencies(reqs: seq<Request>, cutoff: int, lo: int, hi: int, key: Key)
    requires cutoff <= lo
    ensures Latencies(KeepFrom(reqs, cutoff), lo, hi, key) == Latencies(reqs, lo, hi, key)
    decreases |reqs|
  {
    if reqs != [] {
      var front, last := reqs[..|reqs| - 1], reqs[|reqs| - 1];
      SweepSparesLatencies(front, cutoff, lo, hi, key);
      assert reqs == front + [last];
      LatenciesLast(front, last, lo, hi, key);
      if last.ts >= cutoff {
        assert KeepFrom(reqs, cutoff) == KeepFrom(front, cutoff) + [last];
        LatenciesLast(KeepFrom(front, cutoff), last, lo, hi, key);
      } else {
        assert KeepFrom(reqs, cutoff) == KeepFrom(front, cutoff);
      }
    }
  }

  lemma RanksInsert(ranks: map<Cell, Ranks>, hourly: Table, all: seq<Request>, r: Request, upto: int)
    requires RanksExact(ranks, hourly, all) && Exact(hourly, all, HOUR, upto) && r.ts >= upto
    ensures RanksExact(ranks, hourly, all + [r])
  {
    forall c | c in ranks ensures RanksOf(ranks[c], Latencies(all + [r], c.bucket, c.bucket + HOUR, c.key)) {
      assert c in hourly;
      LatenciesLast(all, r, c.bucket, c.bucket + HOUR, c.key);
      assert Latencies(all, c.bucket, c.bucket + HOUR, c.key) + [] == Latencies(all, c.bucket, c.bucket + HOUR, c.key);
    }
  }

  /** The latencies of every group that has any. */
  ghost predicate GroupLatencies(lats: map<Key, seq<int>>, reqs: seq<Request>, lo: int, hi: int) {
    forall k :: if k in lats then lats[k] == Latencies(reqs, lo, hi, k) != [] else Latencies(reqs, lo, hi, k) == []
  }

  /** What the live requests say about an hour not yet closed is true of all requests. */
  lemma LatenciesMatchAll(lats: map<Key, seq<int>>, all: seq<Request>, swept: int, lo: int, hi: int)
    requires GroupLatencies(lats, KeepFrom(all, swept), lo, hi) && swept <= lo
    ensures GroupLatencies(lats, all, lo, hi)
  {
    forall k ensures Latencies(KeepFrom(all, swept), lo, hi, k) == Latencies(all, lo, hi, k) {
      SweepSparesLatencies(all, swept, lo, hi, k);
    }
    hide Latencies, KeepFrom;
  }

  lemma SameGroups(groups: map<Key, Totals>, lats: map<Key, seq<int>>, all: seq<Request>, lo: int, hi: int)
    requires ExactGroups(groups, all, lo, hi) && GroupLatencies(lats, all, lo, hi)
    ensures lats.Keys == groups.Keys
  {
    forall k ensures k in lats <==> k in groups {
      LatenciesAreCounted(all, lo, hi, k);
    }
  }

  /** The percentiles of every group. */
  method RankGroups(lats: map<Key, seq<int>>) returns (ranks: map<Key, Ranks>)
    requires forall k :: k in lats ==> lats[k] != []
    ensures ranks.Keys == lats.Keys && forall k :: k in lats ==> RanksOf(ranks[k], lats[k])
  {
    ranks := map[];
    var todo := lats.Keys;
    while todo != {}
      invariant todo <= lats.Keys && ranks.Keys == lats.Keys - todo
      invariant forall k :: k in ranks ==> RanksOf(ranks[k], lats[k])
    {
      var k :| k in todo;
      todo := todo - {k};
      var p50, p95 := LatencyPercentiles(lats[k]);
      ranks := ranks[k := Ranks(p50, p95)];
    }
  }

  lemma RanksClose(ranks: map<Cell, Ranks>, hourly: Table, all: seq<Request>, b: int,
                   groups: map<Key, Totals>, lats: map<Key, seq<int>>, made: map<Key, Ranks>)
    requires RanksExact(ranks, hourly, all) && GroupLatencies(lats, all, b, b + HOUR)
    requires lats.Keys == groups.Keys == made.Keys && forall k :: k in lats ==> RanksOf(made[k], lats[k])
    ensures RanksExact(ranks + AtBucket(b, made), hourly + AtBucket(b, groups), all)
  {
    hide RanksOf, Latencies;
    forall c: Cell ensures c in AtBucket(b, made) <==> c.bucket == b && c.key in made {
      assert c == Cell(c.bucket, c.key);
    }
    forall c: Cell ensures c in AtBucket(b, groups) <==> c.bucket == b && c.key in groups {
      assert c == Cell(c.bucket, c.key);
    }
    var after := ranks + AtBucket(b, made);
    forall c | c in after ensures RanksOf(after[c], Latencies(all, c.bucket, c.bucket + HOUR, c.key)) {
      if c in AtBucket(b, made) {
        assert after[c] == made[c.key] && lats[c.key] == Latencies(all, b, b + HOUR, c.key);
      }
    }
  }

  // ---------------------------------------------------------------- the state over time

  /** The start of the bucket that is still open at `now`. */
  function OpenBucket(now: int, span: int): (b: int)
    requires IsSpan(span)
    ensures Aligned(b, span) && b <= now < b + span
  {
    BucketOf(now, span)
  }

  lemma LiveMatchesAll(all: seq<Request>, swept: int, closed: int, b: int, groups: map<Key, Totals>)
    requires swept <= closed && Aligned(closed, HOUR) && Aligned(b, HOUR)
    requires ExactGroups(groups, KeepFrom(all, swept), b, b + HOUR)
    requires b < closed ==> NoneIn(all, b, b + HOUR)
    ensures ExactGroups(groups, all, b, b + HOUR)
  {
    var live, end := KeepFrom(all, swept), b + HOUR;
    forall k ensures TotalsOf(live, b, end, k) == TotalsOf(all, b, end, k) {
      if b < closed {
        KeptIsSubset(all, swept);
        NoneMeansZero(all, b, end, k);
        NoneMeansZero(live, b, end, k);
      } else {
        SweepSpares(all, swept, b, end, k);
      }
    }
  }

  lemma NothingAtBucket<T>(b: int)
    ensures AtBucket<T>(b, map[]) == map[]
  {
  }

  lemma GroupsAreNotEmpty(lats: map<Key, seq<int>>, reqs: seq<Request>, lo: int, hi: int)
    requires GroupLatencies(lats, reqs, lo, hi)
    ensures forall k :: k in lats ==> lats[k] != []
  {
    hide Latencies;
  }

  lemma NoGroups(groups: map<Key, Totals>, all: seq<Request>, b: int)
    requires ExactGroups(groups, all, b, b + HOUR) && NoneIn(all, b, b + HOUR)
    ensures groups == map[]
  {
    forall k ensures k !in groups {
      NoneMeansZero(all, b, b + HOUR, k);
    }
  }

  lemma LiveLatencies(all: seq<Request>, swept: int, closed: int, b: int, lats: map<Key, seq<int>>)
    requires swept <= closed && GroupLatencies(lats, KeepFrom(all, swept), b, b + HOUR)
    requires b < closed ==> NoneIn(all, b, b + HOUR)
    ensures GroupLatencies(lats, all, b, b + HOUR)
  {
    hide Latencies;
    if b < closed {
      NoneKept(all, swept, b, b + HOUR);
      NoLatencies(lats, KeepFrom(all, swept), all, b, b + HOUR);
    } else {
      LatenciesMatchAll(lats, all, swept, b, b + HOUR);
    }
  }

  lemma NoneKept(all: seq<Request>, swept: int, lo: int, hi: int)
    requires NoneIn(all, lo, hi)
    ensures NoneIn(KeepFrom(all, swept), lo, hi)
  {
    KeptIsSubset(all, swept);
    hide KeepFrom;
    var live := KeepFrom(all, swept);
    forall i | 0 <= i < |live| ensures !(lo <= live[i].ts < hi) {
      assert live[i] in live;
    }
  }

  lemma NoLatencies(lats: map<Key, seq<int>>, a: seq<Request>, b: seq<Request>, lo: int, hi: int)
    requires NoneIn(a, lo, hi) && NoneIn(b, lo, hi) && GroupLatencies(lats, a, lo, hi)
    ensures GroupLatencies(lats, b, lo, hi)
  {
    forall k: Key ensures |Latencies(a, lo, hi, k)| == 0 && |Latencies(b, lo, hi, k)| == 0 {
      NoneMeansZero(a, lo, hi, k);
      NoneMeansZero(b, lo, hi, k);
      LatenciesAreCounted(a, lo, hi, k);
      LatenciesAreCounted(b, lo, hi, k);
    }
    hide Latencies;
  }

  /** A key has an hourly row within a closed day exactly if it has requests on that day. */
  lemma RowsMeanRequests(hourly: Table, all: seq<Request>, closed: int, day: int, c: Cell)
    requires Exact(hourly, all, HOUR, closed) && Aligned(day, DAY)
    requires c in hourly && day <= c.bucket < day + DAY
    ensures TotalsOf(all, day, day + DAY, c.key).requests > 0
  {
    var hour := TotalsOf(all, c.bucket, c.bucket + HOUR, c.key);
    assert hour.requests > 0;
    hide TotalsOf, Exact;
    DaysAreHours(day);
    hide Aligned;
    if Aligned(c.bucket, HOUR) {
      Boundary(c.bucket, day + DAY, HOUR);
      TotalsSplit(all, day, c.bucket, day + DAY, c.key);
      TotalsSplit(all, c.bucket, c.bucket + HOUR, day + DAY, c.key);
    }
  }

  lemma RequestsMeanRows(hourly: Table, all: seq<Request>, closed: int, day: int, key: Key) returns (c: Cell)
    requires Exact(hourly, all, HOUR, closed) && Aligned(closed, HOUR) && Aligned(day, DAY) && day + DAY <= closed
    requires TotalsOf(all, day, day + DAY, key).requests > 0
    ensures c in hourly && day <= c.bucket < day + DAY && c.key == key
  {
    var i := CountedWitness(all, day, day + DAY, key);
    c := CountedHasRow(hourly, all, HOUR, closed, i);
    DaysAreHours(day);
    hide Aligned;
    Boundary(c.bucket, day, HOUR);
    RequestIsCounted(all, i, c.bucket, c.bucket + HOUR);
    c := Cell(c.bucket, key);
  }

  lemma DayGroupsAreExact(groups: map<Key, Totals>, hourly: Table, all: seq<Request>, closed: int, day: int)
    requires Exact(hourly, all, HOUR, closed) && Aligned(closed, HOUR) && Aligned(day, DAY)
    requires DayGroups(groups, hourly, day) && day + DAY <= closed
    ensures ExactGroups(groups, all, day, day + DAY)
  {
    assert Aligned(day, HOUR);
    var end := day + DAY;
    hide HoursSum, Exact, TotalsOf;
    forall k ensures HoursSum(hourly, day, HOURS_PER_DAY, k) == TotalsOf(all, day, end, k) {
      HoursAreTotals(hourly, all, closed, day, HOURS_PER_DAY, k);
    }
    forall k ensures k in groups <==> TotalsOf(all, day, end, k).requests > 0 {
      if k in groups {
        var c :| c in hourly && day <= c.bucket < day + DAY && c.key == k;
        RowsMeanRequests(hourly, all, closed, day, c);
      }
      if TotalsOf(all, day, end, k).requests > 0 {
        var c := RequestsMeanRows(hourly, all, closed, day, k);
      }
    }
  }

  lemma {:induction false} CountedWitness(reqs: seq<Request>, lo: int, hi: int, key: Key) returns (i: nat)
    requires TotalsOf(reqs, lo, hi, key).requests > 0
    ensures i < |reqs| && lo <= reqs[i].ts < hi && reqs[i].key == key
    decreases |reqs|
  {
    var last := |reqs| - 1;
    if lo <= reqs[last].ts < hi && reqs[last].key == key {
      i := last;
    } else {
      i := CountedWitness(reqs[..last], lo, hi, key);
    }
  }

  lemma RowsAreLate(t: Table, all: seq<Request>, span: int, upto: int, bucket: int)
    requires IsSpan(span) && Exact(t, all, span, upto)
    requires forall i :: 0 <= i < |all| ==> all[i].ts >= DAY
    requires exists c :: c in t && c.bucket == bucket
    ensures bucket >= DAY && Aligned(bucket, span) && bucket + span <= upto
  {
    var c :| c in t && c.bucket == bucket;
    var i := CountedWitness(all, c.bucket, c.bucket + span, c.key);
    assert all[i].ts >= DAY;
    Boundary(bucket, DAY, span);
  }

  /** The rows of one day are what its hourly rows add up to. */
  ghost predicate DayRow(daily: Table, hourly: Table, day: int) {
    && (forall k :: Cell(day, k) in daily <==> exists c :: c in hourly && day <= c.bucket < day + DAY && c.key == k)
    && forall k :: Cell(day, k) in daily ==> daily[Cell(day, k)] == HoursSum(hourly, day, HOURS_PER_DAY, k)
  }

  /** Old daily rows, all of days before `first`, are kept; from `first` up to `open` every day
      has exactly the rows its hourly rows give it. */
  ghost predicate AppendedDays(before: Table, after: Table, hourly: Table, first: int, open: int) {
    && (forall c :: c in after && c.bucket < first <==> c in before)
    && (forall c :: c in before ==> after[c] == before[c])
    && (forall c :: c in after && c.bucket >= first ==> Aligned(c.bucket, DAY) && c.bucket + DAY <= open)
    && forall day :: Aligned(day, DAY) && first <= day && day + DAY <= open ==> DayRow(after, hourly, day)
  }

  /** Before the first hourly row every request is live and lies in an hour still open. */
  lemma NothingClosedYet(hourly: Table, requests: seq<Request>, all: seq<Request>, swept: int, closed: int)
    requires hourly == map[] && requests == KeepFrom(all, swept) && swept <= closed
    requires Aligned(closed, HOUR) && Exact(hourly, all, HOUR, closed)
    ensures forall i :: 0 <= i < |all| ==> all[i].ts >= closed && all[i] in requests
  {
    KeptIsSubset(all, swept);
    hide Exact, KeepFrom, Aligned;
    forall i | 0 <= i < |all| ensures all[i].ts >= closed && all[i] in requests {
      assert all[i] in all;
      if all[i].ts < closed {
        var c := CountedHasRow(hourly, all, HOUR, closed, i);
        assert false;
      }
    }
  }

  lemma NoneBefore(requests: seq<Request>, all: seq<Request>, min: int, closed: int, first: int)
    requires forall i :: 0 <= i < |all| ==> all[i].ts >= closed && all[i] in requests
    requires forall i :: 0 <= i < |requests| ==> min <= requests[i].ts
    requires first <= min
    ensures NoneIn(all, closed, first) && NoneIn(all, first, closed)
  {
  }

  lemma LateIsAligned(last: int)
    requires Aligned(last, HOUR) && last >= DAY
    ensures Aligned(last + HOUR, HOUR) && last + HOUR >= HOUR
  {
  }

  lemma HourBoundary(t: int)
    ensures Aligned(t, HOUR) <==> t % 3600 == 0
  {
  }

  lemma FirstHour(ts: int)
    requires ts >= DAY
    ensures BucketOf(ts, HOUR) >= HOUR
  {
  }

  // ---------------------------------------------------------------- days

  /** The same for a table of groups of one interval. */
  ghost predicate GroupsReport(groups: map<Key, Totals>, reqs: seq<Request>, lo: int, hi: int) {
    && (forall k :: k in groups <==> exists i :: 0 <= i < |reqs| && lo <= reqs[i].ts < hi && reqs[i].key == k)
    && forall k :: k in groups ==> Reports(groups[k], reqs, lo, hi, k)
  }

  lemma ExactGroupsReport(groups: map<Key, Totals>, reqs: seq<Request>, lo: int, hi: int)
    ensures ExactGroups(groups, reqs, lo, hi) <==> GroupsReport(groups, reqs, lo, hi)
  {
    forall k
      ensures TotalsOf(reqs, lo, hi, k).requests > 0 <==> exists i :: 0 <= i < |reqs| && lo <= reqs[i].ts < hi && reqs[i].key == k
      ensures Reports(TotalsOf(reqs, lo, hi, k), reqs, lo, hi, k)
    {
      HitsExist(reqs, lo, hi, k);
      TotalsReport(reqs, lo, hi, k);
    }
    hide TotalsOf, Hits, Good, Bad, MsSum, PromptSum, OutputSum;
  }

  /** Every day that is over and not late has a row for exactly the keys with a request on it,
      and the row reports these requests. */
  ghost predicate DaysCounted(daily: Table, all: seq<Request>, late: iset<int>, dayClosed: int) {
    forall c: Cell | c.bucket % 86400 == 0 && c.bucket + 86400 <= dayClosed && c.bucket !in late ::
      && (c in daily <==> exists i :: 0 <= i < |all| && c.bucket <= all[i].ts < c.bucket + 86400 && all[i].key == c.key)
      && (c in daily ==> Reports(daily[c], all, c.bucket, c.bucket + 86400, c.key))
  }

  lemma DaysReport(daily: Table, all: seq<Request>, late: iset<int>, dayClosed: int, closed: int)
    requires DaysExact(daily, all, late, dayClosed, closed)
    ensures DaysCounted(daily, all, late, dayClosed)
  {
    forall c: Cell | c.bucket % 86400 == 0 && c.bucket + 86400 <= dayClosed && c.bucket !in late
      ensures c in daily <==> exists i :: 0 <= i < |all| && c.bucket <= all[i].ts < c.bucket + 86400 && all[i].key == c.key
      ensures c in daily ==> Reports(daily[c], all, c.bucket, c.bucket + 86400, c.key)
    {
      assert Aligned(c.bucket, DAY) && DayExact(daily, all, c.bucket) && c == Cell(c.bucket, c.key);
      HitsExist(all, c.bucket, c.bucket + 86400, c.key);
      TotalsReport(all, c.bucket, c.bucket + 86400, c.key);
    }
  }

  /** The appended rows, late or not, report the requests of the hours closed by then. */
  lemma AppendedRowsReport(before: Table, after: Table, hourly: Table, all: seq<Request>, first: int, open: int, closed: int)
    requires AppendedDays(before, after, hourly, first, open)
    requires Exact(hourly, all, HOUR, closed) && Aligned(closed, HOUR)
    ensures forall c :: c in after && c.bucket >= first ==>
              Reports(after[c], all, c.bucket, if closed < c.bucket + 86400 then closed else c.bucket + 86400, c.key)
  {
    hide Exact, TotalsOf, HoursSum, Reports, Aligned;
    forall c | c in after && c.bucket >= first
      ensures Reports(after[c], all, c.bucket, if closed < c.bucket + 86400 then closed else c.bucket + 86400, c.key)
    {
      DaysAreHours(c.bucket);
      assert DayRow(after, hourly, c.bucket) && c == Cell(c.bucket, c.key);
      HoursAreTotals(hourly, all, closed, c.bucket, HOURS_PER_DAY, c.key);
      var cut := Clip(c.bucket, c.bucket + DAY, closed);
      TotalsReport(all, c.bucket, cut, c.key);
      var h :| h in hourly && c.bucket <= h.bucket < c.bucket + DAY && h.key == c.key;
      RowIsClosed(hourly, all, closed, h);
    }
  }

  lemma RowIsClosed(hourly: Table, all: seq<Request>, closed: int, h: Cell)
    requires Exact(hourly, all, HOUR, closed) && h in hourly
    ensures h.bucket + HOUR <= closed
  {
  }

  /** The rows of a day are the totals of all its requests, for exactly the keys that have any. */
  ghost predicate DayExact(daily: Table, all: seq<Request>, day: int) {
    forall k ::
      && (Cell(day, k) in daily <==> TotalsOf(all, day, day + DAY, k).requests > 0)
      && (Cell(day, k) in daily ==> daily[Cell(day, k)] == TotalsOf(all, day, day + DAY, k))
  }

  /** That is so for every day up to `dayClosed` that is not late. */
  ghost predicate DaysExact(daily: Table, all: seq<Request>, late: iset<int>, dayClosed: int, closed: int) {
    forall day :: Aligned(day, DAY) && day + DAY <= dayClosed && day !in late ==>
      day + DAY <= closed && DayExact(daily, all, day)
  }

  /** The late days after a daily catch-up: those it passes with open hours, and the old ones
      that it does not make up for. */
  ghost function LateAfter(late: iset<int>, first: int, open: int, closed: int): iset<int> {
    iset day: int | (day in late && !(first <= day && day + DAY <= open && day + DAY <= closed))
                    || (closed < day + DAY <= open)
  }

  /** One day behind the newest row. */
  ghost predicate IsBehind(daily: Table, first: int) {
    && (exists c :: c in daily && first == c.bucket + DAY)
    && forall c :: c in daily ==> c.bucket < first
  }

  /** The day of the oldest hourly row. */
  ghost predicate IsFirstDay(hourly: Table, first: int) {
    && (exists c :: c in hourly && first <= c.bucket < first + DAY)
    && forall c :: c in hourly ==> first <= c.bucket
  }

  lemma NoDaysYet()
    ensures DaysExact(map[], [], iset{}, 0, 0)
  {
  }

  /** A request in an open hour is of no day that counts as exact. */
  lemma DaysInsert(daily: Table, all: seq<Request>, late: iset<int>, dayClosed: int, closed: int, r: Request)
    requires DaysExact(daily, all, late, dayClosed, closed) && r.ts >= closed
    ensures DaysExact(daily, all + [r], late, dayClosed, closed)
  {
    hide Aligned;
    forall day | Aligned(day, DAY) && day + DAY <= dayClosed && day !in late ensures DayExact(daily, all + [r], day) {
      assert DayExact(daily, all, day);
      var end := day + DAY;
      forall k ensures TotalsOf(all + [r], day, end, k) == TotalsOf(all, day, end, k) {
        assert (all + [r])[..|all|] == all;
        TotalsOfLast(all + [r], day, end, k);
      }
      hide TotalsOf;
    }
    hide DayExact;
  }

  lemma NoneLate(late: iset<int>, first: int, open: int, closed: int)
    requires open <= closed
    ensures LateAfter(late, first, open, closed) <= late
    ensures forall day :: day in LateAfter(late, first, open, closed) ==> !(first <= day && day + DAY <= open)
  {
  }

  /** When no day is late, the daily table is exact as a whole. */
  lemma NothingLate(daily: Table, all: seq<Request>, dayClosed: int, closed: int)
    requires DaysExact(daily, all, iset{}, dayClosed, closed)
    requires forall c :: c in daily ==> Aligned(c.bucket, DAY) && c.bucket + DAY <= dayClosed
    ensures Exact(daily, all, DAY, dayClosed)
  {
    hide Aligned, TotalsOf;
    forall c: Cell
      ensures c in daily <==> && Aligned(c.bucket, DAY) && c.bucket + DAY <= dayClosed
                              && TotalsOf(all, c.bucket, c.bucket + DAY, c.key).requests > 0
      ensures c in daily ==> daily[c] == TotalsOf(all, c.bucket, c.bucket + DAY, c.key)
    {
      assert c == Cell(c.bucket, c.key);
      if Aligned(c.bucket, DAY) && c.bucket + DAY <= dayClosed {
        assert DayExact(daily, all, c.bucket);
      }
    }
  }

  /** A day that a catch-up does not touch keeps its rows. */
  lemma AppendedElsewhere(before: Table, after: Table, hourly: Table, first: int, open: int, day: int)
    requires AppendedDays(before, after, hourly, first, open) && (forall c :: c in before ==> c.bucket < first)
    requires day < first || day + DAY > open
    ensures forall k :: Cell(day, k) in after <==> Cell(day, k) in before
    ensures forall k :: Cell(day, k) in before ==> after[Cell(day, k)] == before[Cell(day, k)]
  {
    hide DayRow;
    forall k ensures Cell(day, k) in after <==> Cell(day, k) in before {
      var c := Cell(day, k);
      assert c in after && c.bucket < first <==> c in before;
    }
  }

  lemma FirstDayIsLate(min: int)
    requires min >= DAY
    ensures BucketOf(min, DAY) > 0
  {
  }

  class Stats {
    /** Raw rows that have not been swept. */
    var requests: seq<Request>
    var hourly: Table
    /** The percentile columns of the hourly table. */
    var ranks: map<Cell, Ranks>
    var daily: Table
    /** Every request ever inserted. */
    ghost var all: seq<Request>
    /** Rows before this moment have been swept. */
    ghost var swept: int
    /** The end of the hours (days) that catch-ups have closed. */
    ghost var closed: int
    ghost var dayClosed: int
    /** The days that a daily catch-up passed while some of their hours were still open. */
    ghost var late: iset<int>

    /** The value 0 stands for "no rows" in the catch-ups, so requests are assumed to be later
        than the first day of the epoch. */
    ghost predicate HoursValid()
      reads `all, `requests, `swept, `closed, `hourly
    {
      && (forall i :: 0 <= i < |all| ==> all[i].ts >= DAY)
      && requests == KeepFrom(all, swept)
      && swept <= closed && Aligned(closed, HOUR)
      && Exact(hourly, all, HOUR, closed)
    }

    /** Every day that is closed and not late has exactly the rows of all its requests. */
    ghost predicate DaysValid()
      reads `all, `daily, `dayClosed, `closed, `late
    {
      && Aligned(dayClosed, DAY)
      && (forall c :: c in daily ==> Aligned(c.bucket, DAY) && c.bucket > 0 && c.bucket + DAY <= dayClosed)
      && DaysExact(daily, all, late, dayClosed, closed)
    }

    ghost predicate Valid()
      reads this
    {
      HoursValid() && DaysValid() && RanksValid()
    }

    ghost predicate RanksValid()
      reads `all, `hourly, `ranks
    {
      RanksExact(ranks, hourly, all)
    }

    constructor ()
      ensures Valid() && late == iset{} && all == [] && closed == 0 && swept == 0 && daily == map[]
    {
      requests, hourly, ranks, daily := [], map[], map[], map[];
      all, swept, closed, dayClosed, late := [], 0, 0, 0, iset{};
      NoDaysYet();
    }

    /** A finished request is recorded.  It does not land in an hour that is already closed. */
    method Insert(r: Request)
      requires Valid() && r.ts >= closed && r.ts >= DAY
      modifies this
      ensures Valid() && all == old(all) + [r]
      ensures unchanged(`hourly, `ranks, `daily, `swept, `closed, `dayClosed, `late)
    {
      hide RanksExact, DaysExact;
      RanksInsert(ranks, hourly, all, r, closed);
      ExactInsert(hourly, all, r, HOUR, closed);
      DaysInsert(daily, all, late, dayClosed, closed, r);
      KeepFromAppend(all, r, swept);
      hide Exact, KeepFrom;
      requests := requests + [r];
      all := all + [r];
    }

    /** `retentionSweep`, after a catch-up that closed everything older than the cutoff. */
    method RetentionSweep(now: int, retentionDays: int)
      requires Valid()
      requires retentionDays > 0 ==> now - retentionDays * DAY <= closed
      modifies this
      ensures Valid()
      ensures unchanged(`hourly, `ranks, `daily, `all, `closed, `dayClosed, `late)
      ensures requests == if retentionDays > 0 then KeepFrom(old(requests), now - retentionDays * DAY) else old(requests)
      ensures retentionDays > 0 ==> forall r :: r in requests <==> r in old(requests) && r.ts >= now - retentionDays * 86400
    {
      hide KeepFrom, Exact, DaysExact, RanksExact;
      if retentionDays <= 0 {
        return;
      }
      var cutoff := now - retentionDays * DAY;
      KeepFromTwice(all, swept, cutoff);
      KeptIsSubset(requests, cutoff);
      requests := KeepFrom(requests, cutoff);
      swept := if swept < cutoff then cutoff else swept;
    }

    /** `aggregateBucket` for one hour. */
    method AggregateHour(b: int)
      requires requests == KeepFrom(all, swept) && swept <= closed && Aligned(closed, HOUR)
      requires Aligned(b, HOUR) && Exact(hourly, all, HOUR, b) && RanksValid()
      requires b < closed ==> NoneIn(all, b, b + HOUR)
      modifies `hourly, `ranks
      ensures Exact(hourly, all, HOUR, b + HOUR) && RanksValid()
      ensures Counted(hourly, all, 3600, b + 3600)
      ensures b < closed ==> hourly == old(hourly) && ranks == old(ranks)
    {
      hide Counted, GroupsReport, Exact, KeepFrom, Aligned, RanksExact, ExactGroups, AtBucket, NoneIn, Latencies, RanksOf;
      var groups, lats := GroupRequests(requests, b, b + HOUR);
      LiveMatchesAll(all, swept, closed, b, groups);
      LiveLatencies(all, swept, closed, b, lats);
      SameGroups(groups, lats, all, b, b + HOUR);
      ExactClose(hourly, all, HOUR, b, groups);
      if b < closed {
        NoGroups(groups, all, b);
        NothingAtBucket<Totals>(b);
        NothingAtBucket<Ranks>(b);
      }
      GroupsAreNotEmpty(lats, all, b, b + HOUR);
      hide GroupLatencies;
      var columns := RankGroups(lats);
      RanksClose(ranks, hourly, all, b, groups, lats, columns);
      hourly := Upsert(hourly, b, groups);
      ranks := Upsert(ranks, b, columns);
      ExactIsCounted(hourly, all, HOUR, b + HOUR);
    }

    /** Where `aggregateHourlyCatchup` starts: behind the newest row, or, before the first row,
        at the hour of the oldest request; None if there is nothing to do. */
    method HourlyStart() returns (first: int, idle: bool)
      requires Valid()
      ensures !idle ==> Aligned(first, HOUR) && first >= HOUR
      ensures !idle ==> NoneIn(all, if closed < first then closed else first, if closed < first then first else closed)
      ensures idle ==> forall i :: 0 <= i < |all| ==> all[i].ts < closed
    {
      hide Exact, KeepFrom, Aligned, RanksValid, DaysValid;
      var last := NewestBucket(hourly);
      if hourly != map[] {
        RowsAreLate(hourly, all, HOUR, closed, last);
      }
      if last == 0 {
        assert hourly == map[];
        var min := OldestRequest(requests);
        NothingClosedYet(hourly, requests, all, swept, closed);
        KeptIsSubset(all, swept);
        if min == 0 {
          return 0, true;
        }
        first := BucketOf(min, HOUR);
        NoneBefore(requests, all, min, closed, first);
        FirstHour(min);
        return first, false;
      }
      NoneBehindNewest(hourly, all, HOUR, closed, last);
      LateIsAligned(last);
      return last + HOUR, false;
    }

    /** The loop of `aggregateHourlyCatchup`, up to the hour that is still open. */
    method CloseHours(first: int, open: int)
      requires requests == KeepFrom(all, swept) && swept <= closed && Aligned(closed, HOUR)
      requires Aligned(first, HOUR) && Aligned(open, HOUR) && Exact(hourly, all, HOUR, first)
      requires first < closed ==> NoneIn(all, first, closed)
      requires RanksValid()
      modifies `hourly, `ranks
      ensures Exact(hourly, all, HOUR, if open < first then first else open) && RanksValid()
      ensures open <= closed ==> hourly == old(hourly) && ranks == old(ranks)
    {
      hide Exact, KeepFrom, Aligned, RanksValid;
      var b := first;
      while b <= open - HOUR
        invariant Aligned(b, HOUR) && Exact(hourly, all, HOUR, b) && RanksValid()
        invariant first <= b && (b <= first || b <= open)
        invariant open <= closed ==> hourly == old(hourly) && ranks == old(ranks)
        decreases open - b
      {
        if b < closed {
          Boundary(b, closed, HOUR);
        }
        AggregateHour(b);
        NextAligned(b, HOUR);
        b := b + HOUR;
      }
      Boundary(b, open, HOUR);
    }

    lemma ColumnsAreReported()
      requires RanksValid()
      ensures ColumnsReport(ranks, hourly, all)
    {
      RanksExactReport(ranks, hourly, all);
    }

    /** `aggregateHourlyCatchup`: afterwards every hour before the current one is closed and its
        rows are exact; run again within the hour, it changes nothing. */
    method HourlyCatchup(now: int)
      requires Valid() && now >= 0
      modifies this
      ensures Valid()
      ensures closed == if old(closed) < OpenBucket(now, HOUR) then OpenBucket(now, HOUR) else old(closed)
      ensures unchanged(`requests, `daily, `all, `swept, `dayClosed, `late)
      ensures Counted(hourly, all, 3600, closed) && closed % 3600 == 0 && closed > now - 3600
      ensures ColumnsReport(ranks, hourly, all)
      ensures OpenBucket(now, HOUR) <= old(closed) ==> hourly == old(hourly) && ranks == old(ranks)
    {
      hide ColumnsReport, Counted, Exact, KeepFrom, Aligned, NoneIn, RanksValid;
      var open := OpenBucket(now, HOUR);
      var first, idle := HourlyStart();
      if idle {
        ExactMove(hourly, all, HOUR, closed, if closed < open then open else closed);
      } else {
        ExactMove(hourly, all, HOUR, closed, first);
        CloseHours(first, open);
        ExactSettle(hourly, all, HOUR, closed, first, open);
      }
      closed := if closed < open then open else closed;
      ExactIsCounted(hourly, all, HOUR, closed);
      assert RanksValid();
      ColumnsAreReported();
      HourBoundary(closed);
    }

    /** `aggregateBucket` for one day; if all its hours are closed, the groups are those of all
        requests of the day. */
    method AggregateDay(day: int) returns (ghost groups: map<Key, Totals>)
      requires Aligned(day, DAY) && forall c :: c in hourly ==> Aligned(c.bucket, HOUR)
      modifies `daily
      ensures DayGroups(groups, hourly, day)
      ensures daily == old(daily) + AtBucket(day, groups)
      ensures HoursValid() && day + DAY <= closed ==> ExactGroups(groups, all, day, day + DAY)
    {
      DaysAreHours(day);
      hide Aligned, HoursSum, ExactGroups, DayGroups;
      var g := GroupHours(hourly, day);
      daily := Upsert(daily, day, g);
      groups := g;
      if HoursValid() && day + DAY <= closed {
        DayGroupsAreExact(groups, hourly, all, closed, day);
      }
    }

    /** Where `aggregateDailyCatchup` starts: one day behind the newest row, or, before the first
        row, at the day of the oldest hourly row. */
    method DailyStart() returns (first: int, idle: bool)
      requires Valid()
      ensures idle <==> hourly == map[] && daily == map[]
      ensures !idle ==> Aligned(first, DAY) && first > 0
      ensures daily != map[] ==> IsBehind(daily, first)
      ensures !idle && daily == map[] ==> IsFirstDay(hourly, first)
    {
      hide Exact, KeepFrom, Aligned, RanksValid, DaysExact;
      var last := NewestBucket(daily);
      if last == 0 {
        assert daily == map[];
        var min := OldestBucket(hourly);
        if hourly != map[] {
          RowsAreLate(hourly, all, HOUR, closed, min);
        }
        if min == 0 {
          return 0, true;
        }
        first := BucketOf(min, DAY);
        FirstDayIsLate(min);
        return first, false;
      }
      NextAligned(last, DAY);
      return last + DAY, false;
    }

    /** The loop of `aggregateDailyCatchup`. */
    method CloseDays(first: int, open: int)
      requires Aligned(first, DAY) && Aligned(open, DAY)
      requires forall c :: c in hourly ==> Aligned(c.bucket, HOUR)
      requires forall c :: c in daily ==> c.bucket < first
      modifies `daily
      ensures AppendedDays(old(daily), daily, hourly, first, open)
    {
      hide Aligned, HoursSum;
      var b := first;
      while b <= open - DAY
        invariant Aligned(b, DAY) && first <= b && (b <= first || b <= open)
        invariant forall c :: c in daily && c.bucket < first <==> c in old(daily)
        invariant forall c :: c in old(daily) ==> daily[c] == old(daily)[c]
        invariant forall c :: c in daily && c.bucket >= first ==> Aligned(c.bucket, DAY) && c.bucket < b
        invariant forall day :: Aligned(day, DAY) && first <= day < b ==> DayRow(daily, hourly, day)
        decreases open - b
      {
        ghost var before := daily;
        ghost var groups := AggregateDay(b);
        forall day | Aligned(day, DAY) && first <= day < b + DAY ensures DayRow(daily, hourly, day) {
          Boundary(day, b, DAY);
          if day < b {
            DayRowKept(before, daily, hourly, b, groups, day);
          } else {
            Boundary(b, day, DAY);
            DayRowMade(before, daily, hourly, b, groups);
          }
        }
        forall c ensures c in daily <==> c in before || (c.bucket == b && c.key in groups) {
          assert c == Cell(c.bucket, c.key);
        }
        NextAligned(b, DAY);
        b := b + DAY;
      }
      forall c | c in daily && c.bucket >= first ensures c.bucket + DAY <= open {
        Boundary(c.bucket, b, DAY);
      }
    }

    lemma ExactDayRow(daily: Table, c: Cell)
      requires Exact(hourly, all, HOUR, closed) && Aligned(closed, HOUR)
      requires Aligned(c.bucket, DAY) && c.bucket + DAY <= closed && DayRow(daily, hourly, c.bucket)
      ensures c in daily <==> TotalsOf(all, c.bucket, c.bucket + DAY, c.key).requests > 0
      ensures c in daily ==> daily[c] == TotalsOf(all, c.bucket, c.bucket + DAY, c.key)
    {
      assert c == Cell(c.bucket, c.key);
      DaysAreHours(c.bucket);
      HoursAreTotals(hourly, all, closed, c.bucket, HOURS_PER_DAY, c.key);
      hide TotalsOf, HoursSum, Aligned, Exact;
      if c in daily {
        var h :| h in hourly && c.bucket <= h.bucket < c.bucket + DAY && h.key == c.key;
        RowsMeanRequests(hourly, all, closed, c.bucket, h);
      }
      if TotalsOf(all, c.bucket, c.bucket + DAY, c.key).requests > 0 {
        var h := RequestsMeanRows(hourly, all, closed, c.bucket, c.key);
      }
    }

    /** `aggregateDailyCatchup`.  Days are only ever appended: from `first` on, which is one day
        behind the newest row, every closed day gets the sum of its hourly rows, and no other row
        changes.  The days it passes before their hours are closed become late, and no others; a
        late day without a later row is made up for. */
    method DailyCatchup(now: int) returns (ghost first: int)
      requires Valid() && now >= 0
      modifies this
      ensures Valid()
      ensures dayClosed == if old(dayClosed) < OpenBucket(now, DAY) then OpenBucket(now, DAY) else old(dayClosed)
      ensures unchanged(`requests, `hourly, `ranks, `all, `swept, `closed)
      ensures Aligned(first, DAY) && AppendedDays(old(daily), daily, hourly, first, OpenBucket(now, DAY))
      ensures old(daily) != map[] ==> IsBehind(old(daily), first)
      ensures old(daily) == map[] && hourly != map[] ==> IsFirstDay(hourly, first)
      ensures old(daily) == map[] && hourly == map[] ==> first == OpenBucket(now, DAY)
      ensures late == LateAfter(old(late), first, OpenBucket(now, DAY), closed)
      ensures DaysCounted(daily, all, late, dayClosed) && dayClosed > now - 86400
      ensures forall c :: c in daily && c.bucket >= first ==>
                Reports(daily[c], all, c.bucket, if closed < c.bucket + 86400 then closed else c.bucket + 86400, c.key)
    {
      hide DaysCounted, Reports, Exact, KeepFrom, Aligned, HoursSum, DayRow, NoneIn, AppendedDays, OpenBucket, HoursValid, RanksValid,
           DaysExact, LateAfter, IsBehind, IsFirstDay;
      var open := OpenBucket(now, DAY);
      var start, idle := DailyStart();
      HoursAreAligned();
      ghost var before := daily;
      RowsAreBehind(before, start, dayClosed);
      first := AppendDays(start, idle, open);
      DaysStayExact(before, daily, first, idle, open);
      AppendedBefore(before, daily, first, open, dayClosed);
      late := LateAfter(late, first, open, closed);
      dayClosed := if dayClosed < open then open else dayClosed;
      DaysReport(daily, all, late, dayClosed, closed);
      AppendedRowsReport(before, daily, hourly, all, first, open, closed);
    }

    lemma RowsAreBehind(before: Table, start: int, dayClosed: int)
      requires before != map[] ==> IsBehind(before, start)
      requires forall c :: c in before ==> c.bucket + DAY <= dayClosed
      ensures before != map[] ==> start <= dayClosed
      ensures forall c :: c in before ==> c.bucket < start
    {
    }

    lemma AppendedBefore(before: Table, after: Table, first: int, open: int, dayClosed: int)
      requires AppendedDays(before, after, hourly, first, open)
      requires forall c :: c in before ==> c.bucket + DAY <= dayClosed
      ensures forall c :: c in after ==> c.bucket + DAY <= (if dayClosed < open then open else dayClosed)
    {
      hide DayRow;
    }

    lemma DaysAreExact(daily: Table, late: iset<int>, dayClosed: int)
      requires forall day :: Aligned(day, DAY) && day + DAY <= dayClosed && day !in late ==>
                 day + DAY <= closed && DayExact(daily, all, day)
      ensures DaysExact(daily, all, late, dayClosed, closed)
    {
    }

    lemma OldDayIsExact(daily: Table, day: int)
      requires DaysExact(daily, all, late, dayClosed, closed)
      requires Aligned(day, DAY) && day + DAY <= dayClosed && day !in late
      ensures day + DAY <= closed && DayExact(daily, all, day)
    {
    }

    lemma AppendedDayIsExact(before: Table, after: Table, first: int, open: int, day: int)
      requires HoursValid() && AppendedDays(before, after, hourly, first, open)
      requires Aligned(day, DAY) && first <= day && day + DAY <= open && day + DAY <= closed
      ensures DayExact(after, all, day)
    {
      HoursAreAligned();
      assert DayRow(after, hourly, day);
      hide HoursValid, Exact, TotalsOf, AppendedDays, DayRow, Aligned;
      forall k ensures (Cell(day, k) in after <==> TotalsOf(all, day, day + DAY, k).requests > 0)
                    && (Cell(day, k) in after ==> after[Cell(day, k)] == TotalsOf(all, day, day + DAY, k)) {
        ExactDayRow(after, Cell(day, k));
      }
    }

    /** Before the first daily row, a closed day before the oldest hourly row has no requests. */
    lemma EmptyDayIsExact(first: int, idle: bool, day: int)
      requires HoursValid() && Aligned(day, DAY) && Aligned(first, DAY) && day < first && day + DAY <= closed
      requires idle ==> hourly == map[]
      requires !idle ==> IsFirstDay(hourly, first)
      ensures DayExact(map[], all, day)
    {
      Boundary(day, first, DAY);
      forall i | 0 <= i < |all| ensures !(day <= all[i].ts < day + DAY) {
        if all[i].ts < closed {
          var c := CountedHasRow(hourly, all, HOUR, closed, i);
        }
      }
      var end := day + DAY;
      forall k ensures TotalsOf(all, day, end, k) == ZERO {
        NoneMeansZero(all, day, end, k);
      }
      hide TotalsOf;
    }

    lemma HoursAreAligned()
      requires HoursValid()
      ensures Aligned(closed, HOUR) && Exact(hourly, all, HOUR, closed)
      ensures forall c :: c in hourly ==> Aligned(c.bucket, HOUR)
    {
    }

    method AppendDays(start: int, idle: bool, open: int) returns (ghost first: int)
      requires Aligned(open, DAY) && forall c :: c in hourly ==> Aligned(c.bucket, HOUR)
      requires forall c :: c in daily ==> Aligned(c.bucket, DAY) && c.bucket > 0
      requires idle ==> hourly == map[] && daily == map[]
      requires !idle ==> Aligned(start, DAY) && start > 0 && forall c :: c in daily ==> c.bucket < start
      modifies `daily
      ensures AppendedDays(old(daily), daily, hourly, first, open)
      ensures forall c :: c in daily ==> Aligned(c.bucket, DAY) && c.bucket > 0
      ensures Aligned(first, DAY) && first == if idle then open else start
    {
      hide Aligned, HoursSum, DayRow, AppendedDays;
      if idle {
        NothingAppended(hourly, open);
        return open;
      }
      CloseDays(start, open);
      DaysAreAligned(old(daily), daily, hourly, start, open);
      return start;
    }

    lemma DaysAreAligned(before: Table, after: Table, hourly: Table, first: int, open: int)
      requires AppendedDays(before, after, hourly, first, open) && first > 0
      requires forall c :: c in before ==> Aligned(c.bucket, DAY) && c.bucket > 0
      ensures forall c :: c in after ==> Aligned(c.bucket, DAY) && c.bucket > 0
    {
    }

    /** What a daily catch-up makes of each day. */
    lemma DaysStayExact(before: Table, after: Table, first: int, idle: bool, open: int)
      requires HoursValid() && Aligned(dayClosed, DAY) && Aligned(first, DAY)
      requires DaysExact(before, all, late, dayClosed, closed)
      requires AppendedDays(before, after, hourly, first, open)
      requires idle ==> hourly == map[] && before == map[] && first == open
      requires (before != map[] ==> first <= dayClosed) && forall c :: c in before ==> c.bucket < first
      requires !idle && before == map[] ==> IsFirstDay(hourly, first)
      ensures DaysExact(after, all, LateAfter(late, first, open, closed), if dayClosed < open then open else dayClosed, closed)
    {
      hide HoursValid, Aligned, DaysExact, AppendedDays, IsFirstDay;
      var late', goal := LateAfter(late, first, open, closed), if dayClosed < open then open else dayClosed;
      forall day | Aligned(day, DAY) && day + DAY <= goal && day !in late'
        ensures day + DAY <= closed && DayExact(after, all, day)
      {
        if first <= day && day + DAY <= open {
          AppendedDayIsExact(before, after, first, open, day);
        } else {
          AppendedElsewhere(before, after, hourly, first, open, day);
          Boundary(day, first, DAY);
          if day + DAY <= dayClosed {
            OldDayIsExact(before, day);
          } else {
            assert before == map[] && day < first;
            EmptyDayIsExact(first, idle, day);
          }
        }
        hide DayExact;
      }
      DaysAreExact(after, late', goal);
    }

    lemma NothingAppended(hourly: Table, open: int)
      requires Aligned(open, DAY)
      ensures AppendedDays(map[], map[], hourly, open, open)
    {
      hide DayRow;
    }

    /** Start-up: catch up on hours, then on days, then sweep.  No day becomes late, and every
        day from `first` on that is over is exact. */
    method Boot(now: int, retentionDays: int) returns (ghost first: int)
      requires Valid() && now >= 0
      modifies this
      ensures Valid() && all == old(all)
      ensures closed == if old(closed) < OpenBucket(now, HOUR) then OpenBucket(now, HOUR) else old(closed)
      ensures dayClosed == if old(dayClosed) < OpenBucket(now, DAY) then OpenBucket(now, DAY) else old(dayClosed)
      ensures late == LateAfter(old(late), first, OpenBucket(now, DAY), closed) <= old(late)
      ensures old(daily) != map[] ==> IsBehind(old(daily), first)
      ensures AppendedDays(old(daily), daily, hourly, first, OpenBucket(now, DAY))
      ensures forall day :: Aligned(day, DAY) && first <= day && day + DAY <= OpenBucket(now, DAY) ==> DayExact(daily, all, day)
      ensures Counted(hourly, all, 3600, closed) && DaysCounted(daily, all, late, dayClosed)
      ensures requests == if retentionDays > 0 then KeepFrom(old(requests), now - retentionDays * DAY) else old(requests)
    {
      hide Counted, DaysCounted, Reports, AppendedDays, IsBehind, IsFirstDay, DayExact, HoursValid, RanksValid;
      HourlyCatchup(now);
      DayStartsWithHour(now);
      ghost var before := late;
      first := DailyCatchup(now);
      NoneLate(before, first, OpenBucket(now, DAY), closed);
      RetentionSweep(now, retentionDays);
    }
  }

  lemma DayStartsWithHour(now: int)
    ensures OpenBucket(now, DAY) <= OpenBucket(now, HOUR) && now - DAY < OpenBucket(now, HOUR)
  {
    DaysAreHours(OpenBucket(now, DAY));
    Boundary(OpenBucket(now, DAY), OpenBucket(now, HOUR), HOUR);
  }

  lemma DayRowKept(before: Table, after: Table, hourly: Table, b: int, groups: map<Key, Totals>, day: int)
    requires after == before + AtBucket(b, groups) && day != b && DayRow(before, hourly, day)
    ensures DayRow(after, hourly, day)
  {
    forall k ensures Cell(day, k) !in AtBucket(b, groups) {
    }
  }

  lemma DayRowMade(before: Table, after: Table, hourly: Table, b: int, groups: map<Key, Totals>)
    requires after == before + AtBucket(b, groups) && DayGroups(groups, hourly, b)
    requires forall c :: c in before ==> c.bucket != b
    ensures DayRow(after, hourly, b)
  {
    forall k ensures Cell(b, k) in after <==> k in groups {
    }
  }

  // ---------------------------------------------------------------- a daily row that stays short

  /** Two requests of one day, the second one in its last hour. */
  function EarlyRequest(key: Key): Request {
    Request(DAY + 10 * HOUR, key, 200, 0, 0, 0)
  }

  function LateRequest(key: Key): Request {
    Request(DAY + 23 * HOUR + 600, key, 200, 0, 0, 0)
  }

  lemma TotalsOfTwo(a: Request, b: Request, lo: int, hi: int, key: Key)
    requires a.key == key && b.key == key
    ensures TotalsOf([a, b], lo, hi, key).requests ==
            (if lo <= a.ts < hi then 1 else 0) + (if lo <= b.ts < hi then 1 else 0)
  {
    assert [a, b][..1] == [a] && [a][..0] == [];
    TotalsOfLast([a, b], lo, hi, key);
    TotalsOfLast([a], lo, hi, key);
  }

  lemma TwoRequests(key: Key)
    ensures var all := [EarlyRequest(key), LateRequest(key)];
            && TotalsOf(all, DAY, DAY + 23 * HOUR, key).requests == 1
            && TotalsOf(all, DAY, 2 * DAY, key).requests == 2
            && TotalsOf(all, DAY + 10 * HOUR, DAY + 11 * HOUR, key).requests == 1
  {
    hide TotalsOf;
    var a, b := EarlyRequest(key), LateRequest(key);
    TotalsOfTwo(a, b, DAY, DAY + 23 * HOUR, key);
    TotalsOfTwo(a, b, DAY, 2 * DAY, key);
    TotalsOfTwo(a, b, DAY + 10 * HOUR, DAY + 11 * HOUR, key);
  }

  /** When hour 23 still waits for its roll-up, the hourly rows of the day hold one request of
      two. */
  lemma ShortDay(t: Table, key: Key)
    requires Exact(t, [EarlyRequest(key), LateRequest(key)], HOUR, DAY + 23 * HOUR)
    ensures HoursSum(t, DAY, HOURS_PER_DAY, key).requests == 1
    ensures TotalsOf([EarlyRequest(key), LateRequest(key)], DAY, 2 * DAY, key).requests == 2
    ensures Cell(DAY + 10 * HOUR, key) in t
  {
    TwoRequests(key);
    hide TotalsOf, HoursSum;
    assert Aligned(DAY + 23 * HOUR, HOUR) && Aligned(DAY, HOUR) && Aligned(DAY + 10 * HOUR, HOUR);
    HoursAreTotals(t, [EarlyRequest(key), LateRequest(key)], DAY + 23 * HOUR, DAY, HOURS_PER_DAY, key);
  }

  lemma FirstDay(first: int)
    requires Aligned(first, DAY) && first <= DAY + 10 * HOUR
    ensures first <= DAY
  {
  }

  lemma KeepBoth(a: Request, b: Request)
    requires a.ts >= 0 && b.ts >= 0
    ensures KeepFrom([a, b], 0) == [a, b]
  {
    assert [a, b][..1] == [a] && [a][..0] == [];
    assert KeepFrom([a], 0) == [a];
  }

  /** The hourly catch-up at 23:30 and the daily one just after midnight. */
  method MidnightRow(key: Key) returns (s: Stats)
    ensures fresh(s) && s.Valid() && s.all == [EarlyRequest(key), LateRequest(key)] && s.swept == 0
    ensures Cell(DAY, key) in s.daily && s.daily[Cell(DAY, key)].requests == 1
  {
    hide Exact, TotalsOf, HoursSum, KeepFrom, AppendedDays, BucketOf;
    s := new Stats();
    s.Insert(EarlyRequest(key));
    s.Insert(LateRequest(key));
    assert s.all == [EarlyRequest(key), LateRequest(key)];
    HalfPastEleven();
    s.HourlyCatchup(DAY + 23 * HOUR + 1800);
    ShortDay(s.hourly, key);
    ghost var first := s.DailyCatchup(2 * DAY + 60);
    ShortRow(s.daily, s.hourly, key, first);
  }

  lemma HalfPastEleven()
    ensures OpenBucket(DAY + 23 * HOUR + 1800, HOUR) == DAY + 23 * HOUR
    ensures OpenBucket(2 * DAY + 60, DAY) == 2 * DAY
  {
  }

  lemma ShortRow(daily: Table, hourly: Table, key: Key, first: int)
    requires AppendedDays(map[], daily, hourly, first, OpenBucket(2 * DAY + 60, DAY))
    requires HoursSum(hourly, DAY, HOURS_PER_DAY, key).requests == 1
    requires Cell(DAY + 10 * HOUR, key) in hourly && forall c :: c in hourly ==> first <= c.bucket
    requires Aligned(first, DAY)
    ensures Cell(DAY, key) in daily && daily[Cell(DAY, key)].requests == 1
  {
    hide HoursSum;
    HalfPastEleven();
    FirstDay(first);
    assert DayRow(daily, hourly, DAY);
  }

  /** The last hourly catch-up of the day at 23:30, the daily one just after midnight: the row of
      the day reports one request of two, and the catch-ups of the following days leave it so. */
  method LateDailyRow(key: Key) returns (reported: nat, happened: nat)
    ensures reported == 1 && happened == 2
  {
    hide Exact, TotalsOf, HoursSum, KeepFrom, DayRow, BucketOf;
    var s := MidnightRow(key);
    s.HourlyCatchup(3 * DAY + 60);
    ghost var first := s.DailyCatchup(3 * DAY + 60);
    KeepBoth(EarlyRequest(key), LateRequest(key));
    return s.daily[Cell(DAY, key)].requests, |s.requests|;
  }
}
