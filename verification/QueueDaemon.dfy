/** The queue daemon (tools/cookie-sync/queue_daemon.py): a job queue that survives crashes
    through one state file, which every write replaces as a whole.

    The variables of `main` are lost in a crash; the file is not.  Between changing a variable
    and writing the file the two differ, so both moments are steps of their own here and a crash
    may come after either. */
module QueueDaemon {
  import opened Wrappers

  datatype Kind = Sched | Error | Relogin

  /** A job.  `covers` is the number of 502 rows that its detail text reports. */
  datatype Job = Job(num: nat, kind: Kind, covers: nat)

  /** The state file, and equally the variables of `main` that go into it. */
  datatype Saved = Saved(queue: seq<Job>, lastId: nat, pending: nat, nextSched: real, errUntil: real, num: nat)

  /** A row of the `requests` table. */
  datatype Row = Row(id: nat, status: int, error: string)

  datatype Config = Config(period: real, cooldown: real, threshold: int, cookieMode: bool)

  const NO_FILE := Saved([], 0, 0, 0.0, 0.0, 0)

  const COOKIE_ERR_HINTS: seq<string> :=
    ["cookie \U{6C60}", "no SNlM0e", "cookie expired", "HTTP 302", "EOF", "redirect", "\U{767B}\U{5F55}"]

  // ---------------------------------------------------------------- rows that count

  predicate AppearsAt(s: string, h: string, i: int) {
    0 <= i <= |s| - |h| && s[i..i + |h|] == h
  }

  predicate Appears(h: string, s: string) {
    exists i :: 0 <= i <= |s| && AppearsAt(s, h, i)
  }

  /** Does this row count towards the threshold? */
  predicate IsHit(r: Row, cfg: Config) {
    r.status == 502 && (cfg.cookieMode ==> exists h :: h in COOKIE_ERR_HINTS && Appears(h, r.error))
  }

  /** The counting rows with an id in (lo, hi]. */
  function Hits(rows: seq<Row>, lo: int, hi: int, cfg: Config): nat {
    if rows == [] then 0
    else (if lo < rows[0].id <= hi && IsHit(rows[0], cfg) then 1 else 0) + Hits(rows[1..], lo, hi, cfg)
  }

  function MaxId(rows: seq<Row>, least: nat): (m: nat)
    ensures m >= least && forall i :: 0 <= i < |rows| ==> rows[i].id <= m
    ensures m == least || exists i :: 0 <= i < |rows| && rows[i].id == m
  {
    if rows == [] then least
    else
      var m := MaxId(rows[1..], least);
      if rows[0].id > m then rows[0].id else m
  }

  // ---------------------------------------------------------------- the ledger

  function Sum(jobs: seq<Job>): nat {
    if jobs == [] then 0 else jobs[0].covers + Sum(jobs[1..])
  }

  /** What one state of the variables (or of the file) stands for: besides the values
      themselves, the id after which counting began, all jobs taken from the queue so far, and
      how many counting rows were swept from the table before they were read. */
  datatype Book = Book(saved: Saved, base: nat, popped: seq<Job>, missed: nat)

  /** Every job ever put into the queue: those taken out, then those waiting. */
  function Ledger(b: Book): seq<Job> {
    b.popped + b.saved.queue
  }

  predicate DistinctNumbers(jobs: seq<Job>) {
    forall i, j :: 0 <= i < j < |jobs| ==> jobs[i].num != jobs[j].num
  }

  /** The numbers 1 to `n`, each exactly once. */
  predicate Numbered(jobs: seq<Job>, n: nat) {
    && |jobs| == n
    && DistinctNumbers(jobs)
    && forall i :: 0 <= i < |jobs| ==> 1 <= jobs[i].num <= n
  }

  /** Nothing is counted twice and nothing is forgotten. */
  predicate Balanced(b: Book, rows: seq<Row>, cfg: Config) {
    && b.base <= b.saved.lastId <= MaxId(rows, 0)
    && Hits(rows, b.base, b.saved.lastId, cfg) == b.saved.pending + Sum(Ledger(b)) + b.missed
  }

  predicate Timers(b: Book, clock: real, cfg: Config) {
    && (b.saved.nextSched == 0.0 || b.saved.nextSched <= clock + cfg.period)
    && (b.saved.errUntil == 0.0 || b.saved.errUntil <= clock + cfg.cooldown)
  }

  predicate Sound(b: Book, rows: seq<Row>, clock: real, cfg: Config) {
    Balanced(b, rows, cfg) && Numbered(Ledger(b), b.saved.num) && Timers(b, clock, cfg)
  }

  // ---------------------------------------------------------------- changes of the variables

  /** Loading the file at a start. */
  function Booted(b: Book, live: seq<Row>, now: real, readable: bool, cfg: Config): Book {
    var s := b.saved;
    var last := if s.lastId != 0 then s.lastId else if readable then MaxId(live, 0) else 0;
    Book(s.(lastId := last,
            errUntil := if s.pending >= cfg.threshold then 0.0 else s.errUntil,
            nextSched := if s.nextSched <= now then now + cfg.period else s.nextSched),
         if s.lastId != 0 then b.base else last,
         b.popped,
         b.missed)
  }

  /** Reading what is left of the rows behind `lastId`; the swept ones are passed unread. */
  function Polled(b: Book, rows: seq<Row>, swept: nat, cfg: Config): Book
    requires swept <= |rows|
  {
    var last := b.saved.lastId;
    var mx := MaxId(rows[swept..], last);
    b.(saved := b.saved.(lastId := mx, pending := b.saved.pending + Hits(rows[swept..], last, mx, cfg)),
       missed := b.missed + Hits(rows[..swept], last, mx, cfg))
  }

  function Enqueued(s: Saved, kind: Kind, covers: nat): Saved {
    s.(num := s.num + 1, queue := s.queue + [Job(s.num + 1, kind, covers)])
  }

  predicate ErrorsDue(s: Saved, now: real, cfg: Config) {
    s.pending >= cfg.threshold && now >= s.errUntil
  }

  function OnErrors(b: Book, now: real, cfg: Config): Book {
    b.(saved := Enqueued(b.saved, Error, b.saved.pending).(pending := 0, nextSched := now + cfg.period, errUntil := now + cfg.cooldown))
  }

  function OnSchedule(b: Book, now: real, cfg: Config): Book {
    b.(saved := Enqueued(b.saved, Sched, 0).(nextSched := now + cfg.period))
  }

  function OnExpiredSession(b: Book): Book {
    b.(saved := Enqueued(b.saved, Relogin, 0))
  }

  function Popped(b: Book): Book
    requires b.saved.queue != []
  {
    b.(saved := b.saved.(queue := b.saved.queue[1..]), popped := b.popped + [b.saved.queue[0]])
  }

  /** After a successful login the next job is another fetch. */
  function FollowedUp(b: Book): Book {
    b.(saved := b.saved.(num := b.saved.num + 1, queue := [Job(b.saved.num + 1, Error, 0)] + b.saved.queue))
  }

  // ---------------------------------------------------------------- runs with crashes

  /** A running daemon.  `dirty`: the variables are ahead of the file.  `inHand`: the job taken
      from the queue and not yet started. */
  datatype Process = Process(book: Book, dirty: bool, inHand: Option<Job>)

  /** `rows` holds all rows there ever were; the first `swept` are gone from the table.
      `started` lists the job numbers in the order in which they were started; `lost` counts
      the crashes that hit between taking a job and starting it. */
  datatype World = World(rows: seq<Row>, swept: nat, file: Book, process: Option<Process>,
                         started: seq<nat>, lost: nat, clock: real)

  datatype Op =
    | Arrive(row: Row)
    | Sweep(upTo: nat)
    | Boot(now: real, readable: bool)
    | Poll(readable: bool)
    | CheckErrors(now: real)
    | CheckSchedule(now: real)
    | SessionExpired
    | Pop
    | Persist
    | Execute(ok: bool)
    | Crash

  const INITIAL := World([], 0, Book(NO_FILE, 0, [], 0), None, [], 0, 0.0)

  predicate Running(w: World) {
    w.process.Some? && !w.process.value.dirty && w.process.value.inHand.None?
  }

  /** Row ids grow; the retention sweep removes only rows already counted; the clock does not
      go back; a change of the variables is written before anything else happens. */
  predicate Allowed(w: World, op: Op) {
    match op
    case Arrive(row) => row.id > MaxId(w.rows, 0)
    case Sweep(k) => w.swept <= k <= |w.rows|
    case Boot(now, _) => w.process.None? && now >= w.clock
    case Poll(_) => Running(w)
    case CheckErrors(now) => Running(w) && now >= w.clock
    case CheckSchedule(now) => Running(w) && now >= w.clock
    case SessionExpired => Running(w) && w.process.value.book.saved.queue == []
    case Pop => Running(w) && w.process.value.book.saved.queue != []
    case Persist => w.process.Some?
    case Execute(_) => w.process.Some? && !w.process.value.dirty && w.process.value.inHand.Some?
    case Crash => w.process.Some?
  }

  function Dirty(w: World, b: Book, inHand: Option<Job>): World {
    w.(process := Some(Process(b, true, inHand)))
  }

  function Live(w: World): seq<Row>
    requires w.swept <= |w.rows|
  {
    w.rows[w.swept..]
  }

  function Step(w: World, op: Op, cfg: Config): World
    requires Allowed(w, op) && w.swept <= |w.rows|
  {
    match op
    case Arrive(row) => w.(rows := w.rows + [row])
    case Sweep(k) => w.(swept := k)
    case Boot(now, readable) =>
      Dirty(w, Booted(w.file, Live(w), now, readable, cfg), None).(clock := now)
    case Poll(readable) =>
      if readable && MaxId(Live(w), w.process.value.book.saved.lastId) != w.process.value.book.saved.lastId then
        Dirty(w, Polled(w.process.value.book, w.rows, w.swept, cfg), None)
      else w
    case CheckErrors(now) =>
      if ErrorsDue(w.process.value.book.saved, now, cfg) then
        Dirty(w, OnErrors(w.process.value.book, now, cfg), None).(clock := now)
      else w.(clock := now)
    case CheckSchedule(now) =>
      if now >= w.process.value.book.saved.nextSched then
        Dirty(w, OnSchedule(w.process.value.book, now, cfg), None).(clock := now)
      else w.(clock := now)
    case SessionExpired => Dirty(w, OnExpiredSession(w.process.value.book), None)
    case Pop => Dirty(w, Popped(w.process.value.book), Some(w.process.value.book.saved.queue[0]))
    case Persist => w.(file := w.process.value.book, process := Some(w.process.value.(dirty := false)))
    case Execute(ok) =>
      var job := w.process.value.inHand.value;
      w.(started := w.started + [job.num],
         process := Some(if job.kind == Relogin && ok then Process(FollowedUp(w.process.value.book), true, None)
                         else w.process.value.(inHand := None)))
    case Crash => w.(process := None, lost := w.lost + if InHandForGood(w) then 1 else 0)
  }

  /** A job is taken, and the file no longer has it. */
  predicate InHandForGood(w: World) {
    w.process.Some? && !w.process.value.dirty && w.process.value.inHand.Some?
  }

  predicate AllowedRun(w: World, ops: seq<Op>, cfg: Config)
    requires w.swept <= |w.rows|
    decreases |ops|
  {
    ops == [] || (Allowed(w, ops[0]) && AllowedRun(Step(w, ops[0], cfg), ops[1..], cfg))
  }

  function Run(w: World, ops: seq<Op>, cfg: Config): World
    requires w.swept <= |w.rows| && AllowedRun(w, ops, cfg)
    decreases |ops|
  {
    if ops == [] then w else Run(Step(w, ops[0], cfg), ops[1..], cfg)
  }

  // ---------------------------------------------------------------- what every step keeps

  predicate RowsFit(w: World) {
    && w.swept <= |w.rows|
    && forall i :: 0 <= i < |w.rows| ==> w.rows[i].id > 0
  }

  /** How the variables can be ahead of the file. */
  predicate Linked(p: Process, file: Book) {
    && p.book.saved.lastId >= file.saved.lastId
    && (file.saved.lastId > 0 ==> p.book.base == file.base)
    && (!p.dirty ==> p.book == file)
    && (!p.dirty && p.inHand.Some? ==> file.popped != [] && file.popped[|file.popped| - 1] == p.inHand.value)
    && (p.dirty ==> p.book.popped == match p.inHand case None => file.popped case Some(j) => file.popped + [j])
  }

  /** The jobs taken from the queue for good, without the one in hand. */
  function Settled(w: World): seq<Job> {
    if InHandForGood(w) && w.file.popped != [] then w.file.popped[..|w.file.popped| - 1] else w.file.popped
  }

  predicate HasNumber(jobs: seq<Job>, n: nat) {
    exists i :: 0 <= i < |jobs| && jobs[i].num == n
  }

  predicate StartedOnce(started: seq<nat>, settled: seq<Job>, lost: nat) {
    && (forall i, j :: 0 <= i < j < |started| ==> started[i] != started[j])
    && (forall i :: 0 <= i < |started| ==> HasNumber(settled, started[i]))
    && |started| + lost == |settled|
  }

  predicate Inv(w: World, cfg: Config) {
    && RowsFit(w)
    && Sound(w.file, w.rows, w.clock, cfg)
    && (w.process.Some? ==> Linked(w.process.value, w.file) && Sound(w.process.value.book, w.rows, w.clock, cfg))
    && StartedOnce(w.started, Settled(w), w.lost)
  }

  lemma {:induction false} StepKeepsInv(w: World, op: Op, cfg: Config)
    requires Inv(w, cfg) && Allowed(w, op)
    ensures Inv(Step(w, op, cfg), cfg)
  {
    hide Sound, StartedOnce, MaxId, Hits, Ledger, Booted, Polled, OnErrors, OnSchedule, OnExpiredSession, FollowedUp, Popped, ErrorsDue;
    match op
    case Arrive(row) =>
      ArriveKeepsSound(w.file, w.rows, row, w.clock, cfg);
      if w.process.Some? {
        ArriveKeepsSound(w.process.value.book, w.rows, row, w.clock, cfg);
      }
    case Sweep(k) =>
    case Boot(now, readable) =>
      LaterIsSound(w.file, w.rows, w.clock, now, cfg);
      BootKeepsSound(w.file, w.rows, w.swept, w.clock, now, readable, cfg);
      BootLinks(w.file, Live(w), now, readable, cfg);
    case Poll(readable) =>
      PollKeepsSound(w.process.value.book, w.rows, w.swept, w.clock, cfg);
      PollLinks(w.process.value.book, w.rows, w.swept, cfg);
    case CheckErrors(now) =>
      LaterIsSound(w.file, w.rows, w.clock, now, cfg);
      ErrorsKeepSound(w.file, w.rows, w.clock, now, cfg);
      EnqueueLinks(w.file, now, cfg);
    case CheckSchedule(now) =>
      LaterIsSound(w.file, w.rows, w.clock, now, cfg);
      ScheduleKeepsSound(w.file, w.rows, w.clock, now, cfg);
      EnqueueLinks(w.file, now, cfg);
    case SessionExpired =>
      ExpiredKeepsSound(w.file, w.rows, w.clock, cfg);
      EnqueueLinks(w.file, w.clock, cfg);
    case Pop =>
      PopKeepsSound(w.file, w.rows, w.clock, cfg);
      PopLinks(w.file);
    case Persist => PersistKeepsInv(w, cfg);
    case Execute(ok) =>
      FollowUpKeepsSound(w.file, w.rows, w.clock, cfg);
      EnqueueLinks(w.file, w.clock, cfg);
      SoundIsDistinct(w.file, w.rows, w.clock, cfg);
      StartKeepsOnce(w.started, w.file.popped, w.lost);
    case Crash =>
      if InHandForGood(w) {
        CrashKeepsOnce(w.started, w.file.popped, w.lost);
      }
  }

  lemma {:induction false} RunKeepsInv(w: World, ops: seq<Op>, cfg: Config)
    requires Inv(w, cfg) && AllowedRun(w, ops, cfg)
    ensures Inv(Run(w, ops, cfg), cfg)
    decreases |ops|
  {
    hide Inv, Step, Allowed, Sound;
    if ops != [] {
      InvFits(w, cfg);
      StepKeepsInv(w, ops[0], cfg);
      InvFits(Step(w, ops[0], cfg), cfg);
      RunKeepsInv(Step(w, ops[0], cfg), ops[1..], cfg);
    }
  }

  lemma InitialIsSound(cfg: Config)
    ensures Inv(INITIAL, cfg)
  {
    assert Hits([], 0, 0, cfg) == 0 && Ledger(INITIAL.file) == [] && Sum([]) == 0;
    hide Hits, Sum, Ledger;
  }

  // ---------------------------------------------------------------- what holds over whole runs

  /** Crash consistency of the counts.  After any run, with crashes and restarts at any point:
      the 502 rows from the base up to the file's `lastRequestId` are exactly those still pending
      plus those reported by the jobs that were ever written to the file. */
  lemma CountsAreConserved(ops: seq<Op>, cfg: Config)
    requires AllowedRun(INITIAL, ops, cfg)
    ensures var w := Run(INITIAL, ops, cfg);
            && w.file.base <= w.file.saved.lastId
            && Hits(w.rows, w.file.base, w.file.saved.lastId, cfg)
               == w.file.saved.pending + Sum(w.file.saved.queue) + Sum(w.file.popped) + w.file.missed
  {
    InitialIsSound(cfg);
    RunKeepsInv(INITIAL, ops, cfg);
    var w := Run(INITIAL, ops, cfg);
    SumConcat(w.file.popped, w.file.saved.queue);
  }

  /** What a poll misses: it passes a counting row unread exactly if such a row was swept behind
      the last id it knew. */
  lemma PollMissesExactly(b: Book, rows: seq<Row>, swept: nat, cfg: Config)
    requires swept <= |rows|
    ensures var after := Polled(b, rows, swept, cfg);
            after.missed > b.missed <==>
            exists i :: 0 <= i < swept && b.saved.lastId < rows[i].id <= after.saved.lastId && IsHit(rows[i], cfg)
  {
    var gone, mx := rows[..swept], MaxId(rows[swept..], b.saved.lastId);
    HitsFound(gone, b.saved.lastId, mx, cfg);
    hide Hits, MaxId, IsHit;
    if i :| 0 <= i < |gone| && b.saved.lastId < gone[i].id <= mx && IsHit(gone[i], cfg) {
      assert gone[i] == rows[i];
    }
    if i :| 0 <= i < swept && b.saved.lastId < rows[i].id <= mx && IsHit(rows[i], cfg) {
      assert gone[i] == rows[i];
    }
  }

  /** Every sweep takes only rows up to the id in the file. */
  predicate SweepsAreLate(w: World, ops: seq<Op>, cfg: Config)
    requires w.swept <= |w.rows| && AllowedRun(w, ops, cfg)
    decreases |ops|
  {
    ops != [] ==>
      && (ops[0].Sweep? ==> forall i :: 0 <= i < ops[0].upTo ==> w.rows[i].id <= w.file.saved.lastId)
      && SweepsAreLate(Step(w, ops[0], cfg), ops[1..], cfg)
  }

  ghost predicate NoneMissed(w: World) {
    && w.swept <= |w.rows| && (forall i :: 0 <= i < w.swept ==> w.rows[i].id <= w.file.saved.lastId)
    && w.file.missed == 0
    && (w.process.Some? ==> w.process.value.book.missed == 0)
  }

  lemma StepMissesNone(w: World, op: Op, cfg: Config)
    requires Inv(w, cfg) && NoneMissed(w) && Allowed(w, op)
    requires op.Sweep? ==> forall i :: 0 <= i < op.upTo ==> w.rows[i].id <= w.file.saved.lastId
    ensures NoneMissed(Step(w, op, cfg))
  {
    hide Sound, StartedOnce, MaxId, Hits, ErrorsDue;
    if op.Poll? {
      var last := w.process.value.book.saved.lastId;
      NoneInside(w.rows[..w.swept], last, MaxId(Live(w), last), cfg);
    }
  }

  /** With such sweeps nothing is missed, and every counting row behind the base is accounted
      for. */
  lemma {:induction false} LateSweepsMissNothing(w: World, ops: seq<Op>, cfg: Config)
    requires Inv(w, cfg) && NoneMissed(w) && AllowedRun(w, ops, cfg) && SweepsAreLate(w, ops, cfg)
    ensures Run(w, ops, cfg).file.missed == 0
    decreases |ops|
  {
    if ops != [] {
      hide Inv, Step, Allowed, NoneMissed;
      InvFits(w, cfg);
      StepKeepsInv(w, ops[0], cfg);
      StepMissesNone(w, ops[0], cfg);
      LateSweepsMissNothing(Step(w, ops[0], cfg), ops[1..], cfg);
    }
  }

  /** No job is started twice across restarts, none that was started waits in the file, and
      the jobs taken but never started are those a crash found in hand. */
  lemma JobsStartAtMostOnce(ops: seq<Op>, cfg: Config)
    requires AllowedRun(INITIAL, ops, cfg)
    ensures var w := Run(INITIAL, ops, cfg);
            && (forall i, j :: 0 <= i < j < |w.started| ==> w.started[i] != w.started[j])
            && (forall i, j :: 0 <= i < |w.started| && 0 <= j < |w.file.saved.queue| ==> w.started[i] != w.file.saved.queue[j].num)
            && |w.file.popped| == |w.started| + w.lost + if InHandForGood(w) then 1 else 0
  {
    hide AllowedRun, Run, Sound;
    InitialIsSound(cfg);
    RunKeepsInv(INITIAL, ops, cfg);
    var w := Run(INITIAL, ops, cfg);
    if InHandForGood(w) {
      InHandIsPopped(w, cfg);
    }
    StartedIsNotWaiting(w, cfg);
  }

  /** Every number the daemon ever gave out and wrote belongs to exactly one job, which either
      waits in the file or was taken from it. */
  lemma EveryNumberIsAccountedFor(ops: seq<Op>, cfg: Config, k: nat)
    requires AllowedRun(INITIAL, ops, cfg)
    requires 1 <= k <= Run(INITIAL, ops, cfg).file.saved.num
    ensures var f := Run(INITIAL, ops, cfg).file;
            HasNumber(f.saved.queue, k) != HasNumber(f.popped, k)
  {
    InitialIsSound(cfg);
    RunKeepsInv(INITIAL, ops, cfg);
    var f := Run(INITIAL, ops, cfg).file;
    hide Balanced, Timers, Inv, AllowedRun, Run;
    EitherHalf(f, k);
  }

  /** Once the file holds an id, the base stays: from there on no restart skips a row. */
  lemma {:induction false} BaseStays(w: World, ops: seq<Op>, cfg: Config)
    requires Inv(w, cfg) && w.file.saved.lastId > 0 && AllowedRun(w, ops, cfg)
    ensures Run(w, ops, cfg).file.base == w.file.base
    ensures Run(w, ops, cfg).file.saved.lastId >= w.file.saved.lastId
    decreases |ops|
  {
    if ops != [] {
      hide Inv, Step, Allowed;
      InvFits(w, cfg);
      StepKeepsInv(w, ops[0], cfg);
      StepKeepsBase(w, ops[0], cfg);
      BaseStays(Step(w, ops[0], cfg), ops[1..], cfg);
    }
  }

  /** So every counting row that arrives after that is counted exactly once, as soon as the file
      has passed it. */
  lemma LaterRowsCountOnce(w: World, ops: seq<Op>, cfg: Config)
    requires Inv(w, cfg) && w.file.saved.lastId > 0 && AllowedRun(w, ops, cfg)
    ensures var z := Run(w, ops, cfg);
            z.file.saved.pending + Sum(Ledger(z.file)) + z.file.missed
            == w.file.saved.pending + Sum(Ledger(w.file)) + w.file.missed + Hits(z.rows, w.file.saved.lastId, z.file.saved.lastId, cfg)
  {
    hide AllowedRun, Run, Timers, Numbered, RowsFit, Linked, StartedOnce, MaxId, Hits, Sum, Ledger;
    InvFits(w, cfg);
    RunKeepsInv(w, ops, cfg);
    BaseStays(w, ops, cfg);
    RowsOnlyGrow(w, ops, cfg);
    var z := Run(w, ops, cfg);
    var later := z.rows[|w.rows|..];
    assert z.rows == w.rows + later;
    HitsSplit(z.rows, w.file.base, w.file.saved.lastId, z.file.saved.lastId, cfg);
    HitsOfOld(w.rows, later, w.file.base, w.file.saved.lastId, cfg);
  }

  /** After any run neither timer is further away than its own length: a scheduled job is due
      within one period, and a reached threshold within one cooldown. */
  lemma NothingStalls(ops: seq<Op>, cfg: Config, now: real)
    requires AllowedRun(INITIAL, ops, cfg) && Run(INITIAL, ops, cfg).process.Some? && now >= 0.0
    ensures var w := Run(INITIAL, ops, cfg);
            var s := w.process.value.book.saved;
            && (now >= w.clock + cfg.period ==> now >= s.nextSched)
            && (now >= w.clock + cfg.cooldown && s.pending >= cfg.threshold ==> ErrorsDue(s, now, cfg))
  {
    hide AllowedRun, Run, Balanced, Numbered, StartedOnce, RowsFit, Linked;
    InitialIsSound(cfg);
    RunKeepsInv(INITIAL, ops, cfg);
  }

  /** A backlog found at a start fires in the first iteration, whatever cooldown was left. */
  lemma BacklogFiresAtOnce(b: Book, live: seq<Row>, now: real, readable: bool, rows: seq<Row>, swept: nat, cfg: Config)
    requires b.saved.pending >= cfg.threshold && now >= 0.0 && swept <= |rows|
    ensures ErrorsDue(Polled(Booted(b, live, now, readable, cfg), rows, swept, cfg).saved, now, cfg)
  {
  }

  /** A start passes over counting rows exactly if the file holds no id yet and the table can be
      read and has such rows. */
  lemma StartSkipsExactly(b: Book, live: seq<Row>, now: real, readable: bool, cfg: Config)
    ensures var after := Booted(b, live, now, readable, cfg);
            && after.saved.pending == b.saved.pending
            && (Hits(live, b.saved.lastId, after.saved.lastId, cfg) > 0 <==>
                  b.saved.lastId == 0 && readable && exists i :: 0 <= i < |live| && live[i].id > 0 && IsHit(live[i], cfg))
  {
    var after := Booted(b, live, now, readable, cfg);
    if b.saved.lastId == 0 && readable {
      HitsFound(live, 0, after.saved.lastId, cfg);
    } else {
      NoneInside(live, b.saved.lastId, after.saved.lastId, cfg);
    }
  }

  const FIRST_FAILURE := Row(1, 502, "")

  /** A daemon first started on an empty table, and killed after the first failed request but
      before reading it, never counts that request. */
  lemma EmptyStartLosesRows(cfg: Config)
    requires !cfg.cookieMode && cfg.threshold > 0 && cfg.period > 0.0
    ensures var ops := [Boot(1.0, true), Persist, Arrive(FIRST_FAILURE), Crash, Boot(2.0, true), Persist, Poll(true)];
            && AllowedRun(INITIAL, ops, cfg)
            && var w := Run(INITIAL, ops, cfg);
               && w.file.saved.lastId == 1
               && w.file.saved.pending + Sum(Ledger(w.file)) == 0 < Hits(w.rows, 0, 1, cfg)
  {
    LossBegins(cfg);
    LossGoesOn(cfg);
    LossEnds(cfg);
    LossShows(cfg);
    LossyFits(cfg);
    hide Step, Allowed, Sum, Ledger, Hits, LossyWorld;
    var ops := [Boot(1.0, true), Persist, Arrive(FIRST_FAILURE), Crash, Boot(2.0, true), Persist, Poll(true)];
    var rest := [Crash, Boot(2.0, true), Persist, Poll(true)];
    LossTail(rest, cfg);
    assert ops[3..] == rest;
    RunUnfolds(LossyWorld(2, cfg), ops[2..], LossyWorld(3, cfg), cfg);
    RunUnfolds(LossyWorld(1, cfg), ops[1..], LossyWorld(2, cfg), cfg);
    RunUnfolds(LossyWorld(0, cfg), ops, LossyWorld(1, cfg), cfg);
  }

  // ---------------------------------------------------------------- timers across starts

  /** Nothing in this run asks for a fetch before the moment `s`: no clock reading reaches it and
      no threshold is due.  Starts and crashes are free to happen. */
  predicate QuietBefore(w: World, ops: seq<Op>, s: real, cfg: Config)
    requires w.swept <= |w.rows| && AllowedRun(w, ops, cfg)
    decreases |ops|
  {
    ops != [] ==>
      && (match ops[0]
          case Boot(now, _) => now < s
          case CheckSchedule(now) => now < s
          case CheckErrors(now) =>
            w.process.value.book.saved.pending < cfg.threshold || now < w.process.value.book.saved.errUntil
          case _ => true)
      && QuietBefore(Step(w, ops[0], cfg), ops[1..], s, cfg)
  }

  predicate ScheduledAt(w: World, s: real) {
    w.file.saved.nextSched == s && (w.process.Some? ==> w.process.value.book.saved.nextSched == s)
  }

  /** A stored moment for the next scheduled fetch survives every such run: however often the
      daemon is killed and started before it, it stays where it is. */
  lemma {:induction false} ScheduleSurvives(w: World, ops: seq<Op>, s: real, cfg: Config)
    requires Inv(w, cfg) && AllowedRun(w, ops, cfg) && QuietBefore(w, ops, s, cfg) && ScheduledAt(w, s)
    ensures ScheduledAt(Run(w, ops, cfg), s)
    decreases |ops|
  {
    if ops != [] {
      hide Inv, Allowed;
      InvFits(w, cfg);
      StepKeepsInv(w, ops[0], cfg);
      InvFits(Step(w, ops[0], cfg), cfg);
      StepKeepsSchedule(w, ops[0], s, cfg);
      hide Step;
      ScheduleSurvives(Step(w, ops[0], cfg), ops[1..], s, cfg);
    }
  }

  lemma StepKeepsSchedule(w: World, op: Op, s: real, cfg: Config)
    requires w.swept <= |w.rows| && Allowed(w, op) && ScheduledAt(w, s)
    requires match op
             case Boot(now, _) => now < s
             case CheckSchedule(now) => now < s
             case CheckErrors(now) =>
               w.process.value.book.saved.pending < cfg.threshold || now < w.process.value.book.saved.errUntil
             case _ => true
    ensures ScheduledAt(Step(w, op, cfg), s)
  {
    hide MaxId, Hits;
  }

  /** So the fetch happens: the first look at the clock at or behind that moment puts it last in
      the queue, and the next one is a period later. */
  lemma ScheduleFires(w: World, ops: seq<Op>, s: real, now: real, cfg: Config)
    requires Inv(w, cfg) && AllowedRun(w, ops, cfg) && QuietBefore(w, ops, s, cfg) && ScheduledAt(w, s)
    requires Running(Run(w, ops, cfg)) && now >= s && now >= Run(w, ops, cfg).clock
    ensures var z := Run(w, ops, cfg);
            && Inv(z, cfg) && z.swept <= |z.rows| && Allowed(z, CheckSchedule(now))
            && var before, after := z.process.value.book.saved, Step(z, CheckSchedule(now), cfg).process.value.book.saved;
               && after.nextSched == now + cfg.period
               && after.queue == before.queue + [Job(before.num + 1, Sched, 0)]
               && after.errUntil == before.errUntil
  {
    hide Inv;
    InvFits(w, cfg);
    ScheduleSurvives(w, ops, s, cfg);
    RunKeepsInv(w, ops, cfg);
    InvFits(Run(w, ops, cfg), cfg);
    hide Run, AllowedRun, QuietBefore;
  }

  // ---------------------------------------------------------------- the daemon

  ghost predicate IsHint(h: string) {
    || h == "cookie \U{6C60}" || h == "no SNlM0e" || h == "cookie expired" || h == "HTTP 302"
    || h == "EOF" || h == "redirect" || h == "\U{767B}\U{5F55}"
  }

  /** A failure with status 502, in cookie mode only with one of seven hints in its text. */
  ghost predicate Counts502(r: Row, cookieMode: bool) {
    && r.status == 502
    && (cookieMode ==> exists a, h, b :: IsHint(h) && r.error == a + h + b)
  }

  /** The positions of such rows behind `since`. */
  ghost function New502(rows: seq<Row>, since: nat, cookieMode: bool): set<int> {
    set i | 0 <= i < |rows| && rows[i].id > since && Counts502(rows[i], cookieMode)
  }

  lemma AppearsMeans(h: string, s: string)
    ensures Appears(h, s) <==> exists a, b :: s == a + h + b
  {
    if Appears(h, s) {
      var i :| 0 <= i <= |s| && AppearsAt(s, h, i);
      assert s == s[..i] + h + s[i + |h|..];
    }
    if a, b :| s == a + h + b {
      assert s[|a|..|a| + |h|] == h;
      assert AppearsAt(s, h, |a|);
    }
  }

  lemma IsHitMeans(r: Row, cfg: Config)
    ensures IsHit(r, cfg) <==> Counts502(r, cfg.cookieMode)
  {
    forall h ensures h in COOKIE_ERR_HINTS <==> IsHint(h) {
      HintsAre(h);
    }
    forall h ensures Appears(h, r.error) <==> exists a, b :: r.error == a + h + b {
      AppearsMeans(h, r.error);
    }
    hide Appears, IsHint;
    if h :| IsHint(h) && Appears(h, r.error) {
      var a, b :| r.error == a + h + b;
    }
  }

  lemma HintsAre(h: string)
    ensures h in COOKIE_ERR_HINTS <==> IsHint(h)
  {
    assert COOKIE_ERR_HINTS[0] == "cookie \U{6C60}" && COOKIE_ERR_HINTS[6] == "\U{767B}\U{5F55}";
  }

  /** The count of a poll is the number of these rows. */
  lemma {:induction false} HitsAreCounted(rows: seq<Row>, since: nat, hi: int, cfg: Config)
    requires forall i :: 0 <= i < |rows| ==> rows[i].id <= hi
    ensures Hits(rows, since, hi, cfg) == |New502(rows, since, cfg.cookieMode)|
    decreases |rows|
  {
    if rows == [] {
      assert New502(rows, since, cfg.cookieMode) == {};
    } else {
      var n := |rows| - 1;
      var front, last := rows[..n], rows[n];
      HitsAreCounted(front, since, hi, cfg);
      assert rows == front + [last];
      HitsAppend(front, last, since, hi, cfg);
      IsHitMeans(last, cfg);
      hide Hits, IsHit, Counts502;
      NewLast(front, last, since, cfg.cookieMode);
    }
  }

  lemma NewLast(rows: seq<Row>, r: Row, since: nat, cookieMode: bool)
    ensures |New502(rows + [r], since, cookieMode)|
            == |New502(rows, since, cookieMode)| + if r.id > since && Counts502(r, cookieMode) then 1 else 0
  {
    hide Counts502;
    var before, after := New502(rows, since, cookieMode), New502(rows + [r], since, cookieMode);
    var grown := if r.id > since && Counts502(r, cookieMode) then before + {|rows|} else before;
    assert forall i :: i in grown <==> i in after;
    assert grown == after;
  }

  /** `poll_502`: the new highest id and the number of counting rows behind `since`. */
  method PollRows(rows: seq<Row>, since: nat, cfg: Config) returns (mx: nat, hits: nat)
    ensures mx == MaxId(rows, since)
    ensures hits == Hits(rows, since, mx, cfg)
    ensures hits == |New502(rows, since, cfg.cookieMode)|
    ensures mx >= since && (forall i :: 0 <= i < |rows| ==> rows[i].id <= mx)
    ensures mx == since || exists i :: 0 <= i < |rows| && rows[i].id == mx
  {
    assert Hits(rows[..0], since, since, cfg) == 0;
    hide Hits, MaxId, Appears;
    mx, hits := since, 0;
    for i := 0 to |rows|
      invariant forall j :: 0 <= j < i ==> rows[j].id <= mx
      invariant mx >= since && (mx == since || exists j :: 0 <= j < i && rows[j].id == mx)
      invariant hits == Hits(rows[..i], since, mx, cfg)
    {
      assert rows[..i + 1] == rows[..i] + [rows[i]];
      var r := rows[i];
      if r.id > since {
        ghost var was := mx;
        if r.id > mx {
          mx := r.id;
        }
        HitsSplit(rows[..i], since, was, mx, cfg);
        NoneInside(rows[..i], was, mx, cfg);
        if r.status == 502 {
          if !(cfg.cookieMode && forall h :: h in COOKIE_ERR_HINTS ==> !Appears(h, r.error)) {
            hits := hits + 1;
          }
        }
      }
      HitsAppend(rows[..i], r, since, mx, cfg);
    }
    assert rows[..|rows|] == rows;
    MaxIdIs(rows, since, mx);
    HitsAreCounted(rows, since, mx, cfg);
  }

  /** `ops` leads from one sound state to another. */
  ghost predicate Leads(w: World, ops: seq<Op>, z: World, cfg: Config) {
    Inv(w, cfg) && AllowedRun(w, ops, cfg) && Run(w, ops, cfg) == z
  }

  /** The variables after polling and after each source of jobs, as one pass takes them. */
  function AfterPoll(s: Saved, table: seq<Row>, readable: bool, cfg: Config): Saved {
    if readable then
      var mx := MaxId(table, s.lastId);
      s.(lastId := mx, pending := s.pending + Hits(table, s.lastId, mx, cfg))
    else s
  }

  function AfterErrors(s: Saved, now: real, cfg: Config): Saved {
    if ErrorsDue(s, now, cfg) then
      Enqueued(s, Error, s.pending).(pending := 0, nextSched := now + cfg.period, errUntil := now + cfg.cooldown)
    else s
  }

  function AfterSchedule(s: Saved, now: real, cfg: Config): Saved {
    if now >= s.nextSched then Enqueued(s, Sched, 0).(nextSched := now + cfg.period) else s
  }

  function AfterWatch(s: Saved, expired: bool): Saved {
    if s.queue == [] && expired then Enqueued(s, Relogin, 0) else s
  }

  /** One job, if any waits: it leaves the queue, and a successful login puts a fetch in front. */
  function AfterJob(s: Saved, ok: bool): Saved {
    if s.queue == [] then s
    else
      var rest := s.(queue := s.queue[1..]);
      if s.queue[0].kind == Relogin && ok then
        rest.(num := s.num + 1, queue := [Job(s.num + 1, Error, 0)] + rest.queue)
      else rest
  }

  /** The variables when a pass comes to the queue. */
  function BeforeJob(s: Saved, table: seq<Row>, readable: bool, now: real, expired: bool, cfg: Config): Saved {
    AfterWatch(AfterSchedule(AfterErrors(AfterPoll(s, table, readable, cfg), now, cfg), now, cfg), expired)
  }

  /** The variables after a whole pass. */
  function AfterPass(s: Saved, table: seq<Row>, readable: bool, now: real, expired: bool, ok: bool, cfg: Config): Saved {
    AfterJob(BeforeJob(s, table, readable, now, expired, cfg), ok)
  }

  lemma PassLeavesNoneDue(s: Saved, table: seq<Row>, readable: bool, now: real, expired: bool, ok: bool, cfg: Config)
    ensures var after := AfterPass(s, table, readable, now, expired, ok, cfg);
            && (after.pending < cfg.threshold || now < after.errUntil || after.pending == 0)
            && after == AfterJob(BeforeJob(s, table, readable, now, expired, cfg), ok)
  {
    hide MaxId, Hits;
  }

  /** A pass reads the rows it can, and a due threshold or timer gives a job. */
  lemma PassDoesItsWork(s: Saved, table: seq<Row>, readable: bool, now: real, expired: bool, ok: bool, cfg: Config)
    ensures var polled, after := AfterPoll(s, table, readable, cfg), AfterPass(s, table, readable, now, expired, ok, cfg);
            && (readable ==> after.lastId == MaxId(table, s.lastId))
            && (ErrorsDue(polled, now, cfg) || now >= s.nextSched ==> after.num > s.num)
            && (ErrorsDue(polled, now, cfg) && s.queue != [] ==>
                  Job(s.num + 1, Error, polled.pending) in after.queue)
            && (ErrorsDue(polled, now, cfg) ==> after.pending == 0)
            && (!ErrorsDue(polled, now, cfg) ==> after.pending == polled.pending && after.errUntil == s.errUntil)
            && s.queue <= BeforeJob(s, table, readable, now, expired, cfg).queue
  {
    hide MaxId, Hits;
    var polled := AfterPoll(s, table, readable, cfg);
    if ErrorsDue(polled, now, cfg) && s.queue != [] {
      var job := Job(s.num + 1, Error, polled.pending);
      var q := AfterWatch(AfterSchedule(AfterErrors(polled, now, cfg), now, cfg), expired).queue;
      assert q[0] == s.queue[0] && q[|s.queue|] == job;
      assert q[1..][|s.queue| - 1] == job;
    }
  }

  /** What one pass makes of the counter and of the two timers. */
  ghost predicate CountsAndTimes(s: Saved, table: seq<Row>, readable: bool, now: real, cfg: Config, after: Saved) {
    var found := s.pending + if readable then |New502(table, s.lastId, cfg.cookieMode)| else 0;
    var due := found >= cfg.threshold && now >= s.errUntil;
    && after.errUntil == (if due then now + cfg.cooldown else s.errUntil)
    && after.nextSched == (if due || now >= s.nextSched then now + cfg.period else s.nextSched)
    && after.pending == (if due then 0 else found)
  }

  lemma PassKeepsTime(s: Saved, table: seq<Row>, readable: bool, now: real, expired: bool, ok: bool, cfg: Config)
    ensures CountsAndTimes(s, table, readable, now, cfg, AfterPass(s, table, readable, now, expired, ok, cfg))
  {
    HitsAreCounted(table, s.lastId, MaxId(table, s.lastId), cfg);
    hide MaxId, Hits, New502;
  }

  /** The jobs a pass puts behind those that wait: one for the failures if they are due, then a
      scheduled one if that is still due, and a login only into an empty queue. */
  ghost predicate QueueGrows(s: Saved, table: seq<Row>, readable: bool, now: real, expired: bool, cfg: Config, before: Saved) {
    var found := s.pending + if readable then |New502(table, s.lastId, cfg.cookieMode)| else 0;
    var due := found >= cfg.threshold && now >= s.errUntil;
    var sched := if due then cfg.period <= 0.0 else now >= s.nextSched;
    var errors := if due then [Job(s.num + 1, Error, found)] else [];
    var fetches := if sched then [Job(s.num + |errors| + 1, Sched, 0)] else [];
    var queue := s.queue + errors + fetches;
    var logins := if queue == [] && expired then [Job(s.num + 1, Relogin, 0)] else [];
    && before.queue == queue + logins
    && before.num == s.num + |errors| + |fetches| + |logins|
  }

  lemma PassQueues(s: Saved, table: seq<Row>, readable: bool, now: real, expired: bool, cfg: Config)
    ensures QueueGrows(s, table, readable, now, expired, cfg, BeforeJob(s, table, readable, now, expired, cfg))
  {
    HitsAreCounted(table, s.lastId, MaxId(table, s.lastId), cfg);
    hide MaxId, Hits, New502, ErrorsDue, AfterWatch;
    var polled := AfterPoll(s, table, readable, cfg);
    assert polled == s.(lastId := polled.lastId, pending := s.pending + if readable then |New502(table, s.lastId, cfg.cookieMode)| else 0);
    hide AfterPoll, AfterErrors, AfterSchedule;
    var two := AfterSchedule(AfterErrors(polled, now, cfg), now, cfg);
    TwoSources(polled, now, cfg);
    LastSource(two, expired);
  }

  lemma TwoSources(s: Saved, now: real, cfg: Config)
    ensures var due := s.pending >= cfg.threshold && now >= s.errUntil;
            var sched := if due then cfg.period <= 0.0 else now >= s.nextSched;
            var errors := if due then [Job(s.num + 1, Error, s.pending)] else [];
            var fetches := if sched then [Job(s.num + |errors| + 1, Sched, 0)] else [];
            var after := AfterSchedule(AfterErrors(s, now, cfg), now, cfg);
            after.queue == s.queue + errors + fetches && after.num == s.num + |errors| + |fetches|
  {
  }

  lemma LastSource(s: Saved, expired: bool)
    ensures var logins := if s.queue == [] && expired then [Job(s.num + 1, Relogin, 0)] else [];
            AfterWatch(s, expired).queue == s.queue + logins && AfterWatch(s, expired).num == s.num + |logins|
  {
  }

  /** New ids, each above the ones before it. */
  predicate Ascending(rows: seq<Row>, least: nat) {
    && (forall i :: 0 <= i < |rows| ==> rows[i].id > least)
    && forall i, j :: 0 <= i < j < |rows| ==> rows[i].id < rows[j].id
  }

  class Daemon {
    const cfg: Config
    /** The variables of `main`. */
    var queue: seq<Job>
    var lastId: nat
    var pending: nat
    var nextSched: real
    var errUntil: real
    var num: nat
    /** The state file. */
    var file: Saved
    /** The same daemon with its surroundings and its history. */
    ghost var w: World

    function Variables(): Saved
      reads this
    {
      Saved(queue, lastId, pending, nextSched, errUntil, num)
    }

    ghost predicate Valid()
      reads this
    {
      && Inv(w, cfg)
      && w.file.saved == file
      && (w.process.Some? ==> w.process.value.book.saved == Variables())
    }

    constructor (cfg: Config)
      ensures Valid() && w == INITIAL && this.cfg == cfg
    {
      this.cfg := cfg;
      queue, lastId, pending, nextSched, errUntil, num := [], 0, 0, 0.0, 0.0, 0;
      file := NO_FILE;
      w := INITIAL;
      InitialIsSound(cfg);
    }

    /** What happens outside: rows come and go, and the process can be killed. */
    ghost method Outside(op: Op)
      requires Valid() && Allowed(w, op) && (op.Arrive? || op.Sweep? || op.Crash?)
      modifies `w
      ensures Valid() && w == Step(old(w), op, cfg)
    {
      StepKeepsInv(w, op, cfg);
      hide Inv;
      w := Step(w, op, cfg);
    }

    /** `persist` */
    method WriteState()
      requires Valid() && w.process.Some?
      modifies `file, `w
      ensures Valid() && w == Step(old(w), Persist, cfg)
      ensures file == Variables()
    {
      StepKeepsInv(w, Persist, cfg);
      hide Inv;
      file := Variables();
      w := Step(w, Persist, cfg);
    }

    /** `main` up to its loop: load the file, decide where to start, write. */
    method Start(table: seq<Row>, now: real, readable: bool)
      requires Valid() && w.process.None? && now >= w.clock && table == Live(w)
      modifies this
      ensures Valid() && Running(w)
      ensures Leads(old(w), [Boot(now, readable), Persist], w, cfg)
      ensures file == Variables()
      ensures queue == old(file).queue && pending == old(file).pending && num == old(file).num
      ensures lastId == if old(file).lastId == 0 && readable then MaxId(table, 0) else old(file).lastId
      ensures nextSched == if old(file).nextSched > now then old(file).nextSched else now + cfg.period
      ensures errUntil == if old(file).pending >= cfg.threshold then 0.0 else old(file).errUntil
    {
      Load(table, now, readable);
      hide Inv, Leads;
      LeadsAndPersists(old(w), Boot(now, readable), cfg);
      WriteState();
    }

    method Load(table: seq<Row>, now: real, readable: bool)
      requires Valid() && w.process.None? && now >= w.clock && table == Live(w)
      modifies this
      ensures Valid() && w == Step(old(w), Boot(now, readable), cfg) && file == old(file)
      ensures queue == old(file).queue && pending == old(file).pending && num == old(file).num
      ensures lastId == if old(file).lastId == 0 && readable then MaxId(table, 0) else old(file).lastId
      ensures nextSched == if old(file).nextSched > now then old(file).nextSched else now + cfg.period
      ensures errUntil == if old(file).pending >= cfg.threshold then 0.0 else old(file).errUntil
    {
      hide Inv, Leads;
      StepKeepsInv(w, Boot(now, readable), cfg);
      InvFits(w, cfg);
      w := Step(w, Boot(now, readable), cfg);
      queue, lastId, pending, num := file.queue, file.lastId, file.pending, file.num;
      nextSched, errUntil := file.nextSched, file.errUntil;
      if lastId == 0 {
        lastId := if readable then MaxId(table, 0) else 0;
      }
      if pending >= cfg.threshold {
        errUntil := 0.0;
      }
      if nextSched <= now {
        nextSched := now + cfg.period;
      }
    }

    /** First source of jobs: read the new rows, and write the counts at once. */
    method PollRequests(table: seq<Row>, readable: bool) returns (ghost ops: seq<Op>)
      requires Valid() && Running(w) && table == Live(w)
      modifies this
      ensures Valid() && Running(w) && Leads(old(w), ops, w, cfg)
      ensures Variables() == AfterPoll(old(Variables()), table, readable, cfg)
      ensures file == Variables() && w.started == old(w.started) && w.clock == old(w.clock) && w.rows == old(w.rows)
      ensures lastId == if readable then MaxId(table, old(lastId)) else old(lastId)
      ensures pending == old(pending) + if readable then |New502(table, old(lastId), cfg.cookieMode)| else 0
      ensures unchanged(`queue, `nextSched, `errUntil, `num)
    {
      hide New502, Hits, MaxId, Inv, Leads;
      InvFits(w, cfg);
      var mx, hits := lastId, 0;
      if readable {
        mx, hits := PollRows(table, lastId, cfg);
      }
      if mx != lastId {
        LeadsAndPersists(w, Poll(readable), cfg);
        ops := [Poll(readable), Persist];
        w := Step(w, Poll(readable), cfg);
        lastId := mx;
        pending := pending + hits;
        WriteState();
      } else {
        NoneInside(table, lastId, lastId, cfg);
        LeadsOneStep(w, Poll(readable), cfg);
        ops := [Poll(readable)];
        FileIsCurrent(w, cfg);
      }
    }

    /** When the threshold is reached: a job that accounts for all pending rows, and both timers
        start anew. */
    method EnqueueOnErrors(now: real) returns (ghost ops: seq<Op>)
      requires Valid() && Running(w) && now >= w.clock
      modifies this
      ensures Valid() && Running(w) && Leads(old(w), ops, w, cfg)
      ensures Variables() == AfterErrors(old(Variables()), now, cfg)
      ensures file == Variables() && w.started == old(w.started) && w.clock == now && w.rows == old(w.rows)
      ensures old(pending) >= cfg.threshold && now >= old(errUntil) ==>
                && num == old(num) + 1 && queue == old(queue) + [Job(old(num) + 1, Error, old(pending))] && pending == 0
                && nextSched == now + cfg.period && errUntil == now + cfg.cooldown && lastId == old(lastId)
      ensures old(pending) < cfg.threshold || now < old(errUntil) ==> Variables() == old(Variables())
    {
      hide Inv, Leads;
      InvFits(w, cfg);
      if pending >= cfg.threshold && now >= errUntil {
        LeadsAndPersists(w, CheckErrors(now), cfg);
        ops := [CheckErrors(now), Persist];
        w := Step(w, CheckErrors(now), cfg);
        num := num + 1;
        queue := queue + [Job(num, Error, pending)];
        pending := 0;
        nextSched := now + cfg.period;
        errUntil := now + cfg.cooldown;
        WriteState();
      } else {
        LeadsOneStep(w, CheckErrors(now), cfg);
        ops := [CheckErrors(now)];
        FileIsCurrent(w, cfg);
        w := Step(w, CheckErrors(now), cfg);
      }
    }

    method EnqueueOnSchedule(now: real) returns (ghost ops: seq<Op>)
      requires Valid() && Running(w) && now >= w.clock
      modifies this
      ensures Valid() && Running(w) && Leads(old(w), ops, w, cfg)
      ensures Variables() == AfterSchedule(old(Variables()), now, cfg)
      ensures now >= old(nextSched) ==>
                && num == old(num) + 1 && queue == old(queue) + [Job(old(num) + 1, Sched, 0)] && nextSched == now + cfg.period
                && lastId == old(lastId) && pending == old(pending) && errUntil == old(errUntil)
      ensures now < old(nextSched) ==> Variables() == old(Variables())
      ensures file == Variables() && w.started == old(w.started) && w.rows == old(w.rows)
    {
      hide Inv, Leads;
      InvFits(w, cfg);
      if now >= nextSched {
        LeadsAndPersists(w, CheckSchedule(now), cfg);
        ops := [CheckSchedule(now), Persist];
        w := Step(w, CheckSchedule(now), cfg);
        num := num + 1;
        queue := queue + [Job(num, Sched, 0)];
        nextSched := now + cfg.period;
        WriteState();
      } else {
        LeadsOneStep(w, CheckSchedule(now), cfg);
        ops := [CheckSchedule(now)];
        FileIsCurrent(w, cfg);
        w := Step(w, CheckSchedule(now), cfg);
      }
    }

    /** The session watchdog, which looks only while nothing waits. */
    method EnqueueOnExpiredSession(expired: bool) returns (ghost ops: seq<Op>)
      requires Valid() && Running(w)
      modifies this
      ensures Valid() && Running(w) && Leads(old(w), ops, w, cfg)
      ensures Variables() == AfterWatch(old(Variables()), expired)
      ensures old(queue) == [] && expired ==>
                && num == old(num) + 1 && queue == [Job(old(num) + 1, Relogin, 0)] && lastId == old(lastId)
                && pending == old(pending) && errUntil == old(errUntil) && nextSched == old(nextSched)
      ensures old(queue) != [] || !expired ==> Variables() == old(Variables())
      ensures file == Variables() && w.started == old(w.started) && w.rows == old(w.rows)
    {
      hide Inv, Leads;
      InvFits(w, cfg);
      FileIsCurrent(w, cfg);
      if queue == [] && expired {
        LeadsAndPersists(w, SessionExpired, cfg);
        ops := [SessionExpired, Persist];
        w := Step(w, SessionExpired, cfg);
        num := num + 1;
        queue := queue + [Job(num, Relogin, 0)];
        WriteState();
      } else {
        LeadsNowhere(w, cfg);
        ops := [];
      }
    }

    /** Take the first job and write before anything is done with it. */
    method TakeJob() returns (job: Job, ghost ops: seq<Op>)
      requires Valid() && Running(w) && queue != []
      modifies this
      ensures Valid() && Leads(old(w), ops, w, cfg)
      ensures w.process == Some(Process(w.file, false, Some(job))) && w.started == old(w.started) && w.rows == old(w.rows)
      ensures job == old(queue)[0] && Variables() == old(Variables()).(queue := old(queue)[1..])
      ensures file == Variables() && job !in file.queue
    {
      hide Inv, Leads;
      InvFits(w, cfg);
      LeadsAndPersists(w, Pop, cfg);
      ops := [Pop, Persist];
      w := Step(w, Pop, cfg);
      job := queue[0];
      queue := queue[1..];
      WriteState();
      TakenIsGone(w, cfg);
    }

    /** Run the job in hand; a successful login puts another fetch in front. */
    method RunJob(job: Job, ok: bool) returns (ghost ops: seq<Op>)
      requires Valid() && w.process == Some(Process(w.file, false, Some(job)))
      modifies this
      ensures Valid() && Running(w) && Leads(old(w), ops, w, cfg)
      ensures w.started == old(w.started) + [job.num] && w.rows == old(w.rows)
      ensures Variables() ==
              if job.kind == Relogin && ok then
                old(Variables()).(queue := [Job(old(num) + 1, Error, 0)] + old(queue), num := old(num) + 1)
              else old(Variables())
      ensures file == Variables()
    {
      hide Inv, Leads;
      InvFits(w, cfg);
      LeadsAndPersists(w, Execute(ok), cfg);
      ops := [Execute(ok), Persist];
      w := Step(w, Execute(ok), cfg);
      if job.kind == Relogin && ok {
        num := num + 1;
        queue := [Job(num, Error, 0)] + queue;
      }
      WriteState();
    }

    /** Requests finish and their rows arrive, whatever the daemon is doing. */
    ghost method RowsArrive(rows: seq<Row>) returns (ops: seq<Op>)
      requires Valid() && Ascending(rows, MaxId(w.rows, 0))
      modifies `w
      ensures Valid() && Leads(old(w), ops, w, cfg)
      ensures w == old(w).(rows := old(w).rows + rows)
    {
      hide Inv, Leads, Live, AllowedRun, Run;
      ops := [];
      LeadsNowhere(w, cfg);
      assert w.rows + rows[..0] == w.rows;
      for i := 0 to |rows|
        invariant Valid() && Leads(old(w), ops, w, cfg)
        invariant w == old(w).(rows := old(w).rows + rows[..i])
      {
        var op := Arrive(rows[i]);
        StillAscending(old(w).rows, rows, i);
        LeadsOneStep(w, op, cfg);
        Outside(op);
        assert old(w).rows + rows[..i] + [rows[i]] == old(w).rows + rows[..i + 1];
        ops := Joined(old(w), ops, [op], w, cfg);
      }
      assert rows[..|rows|] == rows;
    }

    /** The sources of jobs, in their order. */
    method EnqueueWhatIsDue(table: seq<Row>, readable: bool, now: real, expired: bool) returns (ghost ops: seq<Op>)
      requires Valid() && Running(w) && table == Live(w) && now >= w.clock
      modifies this
      ensures Valid() && Running(w) && Leads(old(w), ops, w, cfg)
      ensures file == Variables() == BeforeJob(old(Variables()), table, readable, now, expired, cfg)
      ensures QueueGrows(old(Variables()), table, readable, now, expired, cfg, Variables())
      ensures w.started == old(w.started) && w.rows == old(w.rows)
    {
      hide QueueGrows, Inv, Leads, Running, Live, MaxId, Hits, New502, AfterPoll, AfterErrors, AfterSchedule, AfterWatch,
           ErrorsDue;
      PassQueues(Variables(), table, readable, now, expired, cfg);
      ghost var w0 := w;
      ops := PollRequests(table, readable);
      ghost var more := EnqueueOnErrors(now);
      ops := Joined(w0, ops, more, w, cfg);
      more := EnqueueOnSchedule(now);
      ops := Joined(w0, ops, more, w, cfg);
      more := EnqueueOnExpiredSession(expired);
      ops := Joined(w0, ops, more, w, cfg);
    }

    /** The first job, if any waits, with rows arriving while it runs. */
    method ExecuteFirst(ok: bool, ghost arriving: seq<Row>) returns (ghost ops: seq<Op>)
      requires Valid() && Running(w) && file == Variables()
      requires Ascending(arriving, MaxId(w.rows, 0))
      modifies this
      ensures Valid() && Running(w) && Leads(old(w), ops, w, cfg)
      ensures file == Variables() == AfterJob(old(Variables()), ok)
      ensures old(queue) != [] ==>
                if old(queue)[0].kind == Relogin && ok then
                  queue == [Job(old(num) + 1, Error, 0)] + old(queue)[1..] && num == old(num) + 1
                else queue == old(queue)[1..] && num == old(num)
      ensures if old(queue) == [] then w == old(w)
              else w.started == old(w.started) + [old(queue)[0].num] && w.rows == old(w.rows) + arriving
    {
      hide Inv, Leads, Running, Live, MaxId;
      ghost var w0 := w;
      ops := [];
      LeadsNowhere(w, cfg);
      if queue != [] {
        var job;
        job, ops := TakeJob();
        ghost var more := RowsArrive(arriving);
        ops := Joined(w0, ops, more, w, cfg);
        more := RunJob(job, ok);
        ops := Joined(w0, ops, more, w, cfg);
      }
    }

    /** One pass through the loop of `main`, with rows arriving while the job runs: at most one
        job runs, the first that waited if any did, and no reached threshold is left outside its
        cooldown. */
    method Iterate(table: seq<Row>, readable: bool, now: real, expired: bool, ok: bool, ghost arriving: seq<Row>)
      returns (ghost ops: seq<Op>)
      requires Valid() && Running(w) && table == Live(w) && now >= w.clock
      requires Ascending(arriving, MaxId(w.rows, 0))
      modifies this
      ensures Valid() && Running(w) && Leads(old(w), ops, w, cfg)
      ensures file == Variables() == AfterPass(old(Variables()), table, readable, now, expired, ok, cfg)
      ensures readable ==> lastId == MaxId(table, old(lastId))
      ensures ErrorsDue(AfterPoll(old(Variables()), table, readable, cfg), now, cfg) || now >= old(nextSched) ==> num > old(num)
      ensures old(queue) != [] ==> w.started == old(w.started) + [old(queue)[0].num]
      ensures w.started == old(w.started) ==> queue == []
      ensures |w.started| <= |old(w.started)| + 1
      ensures w.rows == old(w.rows) + if w.started == old(w.started) then [] else arriving
      ensures pending < cfg.threshold || now < errUntil || pending == 0
      ensures CountsAndTimes(old(Variables()), table, readable, now, cfg, Variables())
    {
      hide CountsAndTimes, Inv, Leads, Running, Live, AllowedRun, Run, MaxId, Hits, AfterPoll, AfterErrors, AfterSchedule, AfterWatch,
           AfterPass, ErrorsDue;
      PassDoesItsWork(Variables(), table, readable, now, expired, ok, cfg);
      PassKeepsTime(Variables(), table, readable, now, expired, ok, cfg);
      PassLeavesNoneDue(Variables(), table, readable, now, expired, ok, cfg);
      ghost var w0 := w;
      ops := EnqueueWhatIsDue(table, readable, now, expired);
      ghost var more := ExecuteFirst(ok, arriving);
      ops := Joined(w0, ops, more, w, cfg);
    }
  }

  // ---------------------------------------------------------------- proofs: rows

  /** Every row is counted once, whatever the polls in between. */
  lemma {:induction false} HitsSplit(rows: seq<Row>, lo: int, mid: int, hi: int, cfg: Config)
    requires lo <= mid <= hi
    ensures Hits(rows, lo, hi, cfg) == Hits(rows, lo, mid, cfg) + Hits(rows, mid, hi, cfg)
    decreases |rows|
  {
    hide IsHit;
    if rows != [] {
      HitsSplit(rows[1..], lo, mid, hi, cfg);
    }
  }

  lemma {:induction false} HitsAppend(rows: seq<Row>, r: Row, lo: int, hi: int, cfg: Config)
    ensures Hits(rows + [r], lo, hi, cfg) == Hits(rows, lo, hi, cfg) + if lo < r.id <= hi && IsHit(r, cfg) then 1 else 0
    decreases |rows|
  {
    hide IsHit;
    if rows == [] {
      assert ([r])[1..] == [];
    } else {
      assert (rows + [r])[1..] == rows[1..] + [r];
      HitsAppend(rows[1..], r, lo, hi, cfg);
    }
  }

  lemma {:induction false} HitsConcat(a: seq<Row>, b: seq<Row>, lo: int, hi: int, cfg: Config)
    ensures Hits(a + b, lo, hi, cfg) == Hits(a, lo, hi, cfg) + Hits(b, lo, hi, cfg)
    decreases |a|
  {
    hide IsHit;
    if a == [] {
      assert a + b == b;
    } else {
      assert (a + b)[1..] == a[1..] + b;
      HitsConcat(a[1..], b, lo, hi, cfg);
    }
  }

  lemma {:induction false} NoneInside(rows: seq<Row>, lo: int, hi: int, cfg: Config)
    requires forall i :: 0 <= i < |rows| ==> !(lo < rows[i].id <= hi)
    ensures Hits(rows, lo, hi, cfg) == 0
    decreases |rows|
  {
    if rows != [] {
      NoneInside(rows[1..], lo, hi, cfg);
    }
  }

  lemma {:induction false} HitsFound(rows: seq<Row>, lo: int, hi: int, cfg: Config)
    ensures Hits(rows, lo, hi, cfg) > 0 <==> exists i :: 0 <= i < |rows| && lo < rows[i].id <= hi && IsHit(rows[i], cfg)
    decreases |rows|
  {
    hide IsHit;
    if rows != [] {
      HitsFound(rows[1..], lo, hi, cfg);
      assert forall i :: 0 <= i < |rows| - 1 ==> rows[1..][i] == rows[i + 1];
      if i :| 0 <= i < |rows| && lo < rows[i].id <= hi && IsHit(rows[i], cfg) {
        if i > 0 {
          assert rows[1..][i - 1] == rows[i];
        }
      }
    }
  }

  lemma HitsOfOld(rows: seq<Row>, later: seq<Row>, lo: nat, hi: nat, cfg: Config)
    requires forall i :: 0 <= i < |later| ==> later[i].id > hi
    ensures Hits(rows + later, lo, hi, cfg) == Hits(rows, lo, hi, cfg)
    decreases |later|
  {
    if later == [] {
      assert rows + later == rows;
    } else {
      var front, last := later[..|later| - 1], later[|later| - 1];
      HitsOfOld(rows, front, lo, hi, cfg);
      HitsAppend(rows + front, last, lo, hi, cfg);
      assert rows + front + [last] == rows + later;
    }
  }

  lemma MaxIdIs(rows: seq<Row>, least: nat, m: nat)
    requires m >= least && forall i :: 0 <= i < |rows| ==> rows[i].id <= m
    requires m == least || exists i :: 0 <= i < |rows| && rows[i].id == m
    ensures m == MaxId(rows, least)
  {
    var _ := MaxId(rows, least);
    hide MaxId;
  }

  lemma SeenByPoll(rows: seq<Row>, swept: nat, last: nat)
    requires swept <= |rows| && last <= MaxId(rows, 0)
    ensures MaxId(rows[swept..], last) <= MaxId(rows, 0)
  {
    var mx := MaxId(rows[swept..], last);
    assert forall i :: swept <= i < |rows| ==> rows[i] == rows[swept..][i - swept];
    hide MaxId;
  }

  lemma {:induction false} RowsOnlyGrow(w: World, ops: seq<Op>, cfg: Config)
    requires w.swept <= |w.rows| && AllowedRun(w, ops, cfg)
    ensures var z := Run(w, ops, cfg);
            && w.rows <= z.rows
            && forall i :: |w.rows| <= i < |z.rows| ==> z.rows[i].id > MaxId(w.rows, 0)
    decreases |ops|
  {
    if ops != [] {
      StepGrows(w, ops[0], cfg);
      hide Step, Allowed, MaxId;
      RowsOnlyGrow(Step(w, ops[0], cfg), ops[1..], cfg);
    }
  }

  lemma StepGrows(w: World, op: Op, cfg: Config)
    requires w.swept <= |w.rows| && Allowed(w, op)
    ensures var z := Step(w, op, cfg);
            && z.swept <= |z.rows| && w.rows <= z.rows
            && MaxId(z.rows, 0) >= MaxId(w.rows, 0)
            && forall i :: |w.rows| <= i < |z.rows| ==> z.rows[i].id > MaxId(w.rows, 0)
  {
    hide Booted, Polled, OnErrors, OnSchedule, OnExpiredSession, FollowedUp, Popped, ErrorsDue;
    if op.Arrive? {
      var all := w.rows + [op.row];
      assert all[|w.rows|] == op.row;
      assert MaxId(all, 0) >= op.row.id;
    }
  }

  lemma StillAscending(before: seq<Row>, rows: seq<Row>, i: nat)
    requires Ascending(rows, MaxId(before, 0)) && i < |rows|
    ensures rows[i].id > MaxId(before + rows[..i], 0)
  {
    var all := before + rows[..i];
    var m := MaxId(all, 0);
    hide MaxId;
    if m > 0 {
      var k :| 0 <= k < |all| && all[k].id == m;
      if k < |before| {
        assert before[k].id <= MaxId(before, 0);
      } else {
        assert all[k] == rows[k - |before|];
      }
    }
  }

  // ---------------------------------------------------------------- proofs: the ledger

  lemma {:induction false} SumConcat(a: seq<Job>, b: seq<Job>)
    ensures Sum(a + b) == Sum(a) + Sum(b)
    decreases |a|
  {
    if a == [] {
      assert a + b == b;
    } else {
      assert (a + b)[1..] == a[1..] + b;
      SumConcat(a[1..], b);
    }
  }

  lemma LedgerIs(a: Book, b: Book)
    requires a.popped == b.popped && a.saved.queue == b.saved.queue
    ensures Ledger(a) == Ledger(b)
  {
  }

  lemma AppendKeepsNumbered(jobs: seq<Job>, a: seq<Job>, b: seq<Job>, j: Job, n: nat)
    requires jobs == a + b && Numbered(jobs, n) && j.num == n + 1
    ensures Numbered(a + ([j] + b), n + 1)
  {
    var after := a + ([j] + b);
    forall i | 0 <= i < |after| ensures 1 <= after[i].num <= n + 1 && (after[i].num == n + 1 <==> i == |a|) {
      assert i < |a| ==> after[i] == jobs[i];
      assert i > |a| ==> after[i] == jobs[i - 1];
    }
    forall x, y | 0 <= x < y < |after| ensures after[x].num != after[y].num {
      assert x < |a| ==> after[x] == jobs[x];
      assert x > |a| ==> after[x] == jobs[x - 1];
      assert y < |a| ==> after[y] == jobs[y];
      assert y > |a| ==> after[y] == jobs[y - 1];
    }
  }

  lemma EnqueueLedger(b: Book, after: Book, job: Job)
    requires after.popped == b.popped && after.saved.queue == b.saved.queue + [job]
    requires Numbered(Ledger(b), b.saved.num) && job.num == b.saved.num + 1
    ensures Numbered(Ledger(after), b.saved.num + 1)
    ensures Sum(Ledger(after)) == Sum(Ledger(b)) + job.covers
  {
    assert Ledger(after) == Ledger(b) + [job];
    SumConcat(Ledger(b), [job]);
    assert Ledger(b) + [] == Ledger(b);
    AppendKeepsNumbered(Ledger(b), Ledger(b), [], job, b.saved.num);
    assert Ledger(b) + ([job] + []) == Ledger(after);
  }

  function NumbersOf(jobs: seq<Job>): set<nat> {
    set i | 0 <= i < |jobs| :: jobs[i].num
  }

  function UpTo(n: nat): (s: set<nat>)
    ensures |s| == n && forall k: nat :: k in s <==> 1 <= k <= n
  {
    if n == 0 then {} else UpTo(n - 1) + {n}
  }

  /** Every number from 1 to `n` occurs. */
  lemma AllNumbersOccur(jobs: seq<Job>, n: nat, k: nat)
    requires Numbered(jobs, n) && 1 <= k <= n
    ensures HasNumber(jobs, k)
  {
    NumbersUsed(jobs);
    assert NumbersOf(jobs) <= UpTo(n);
    SubsetOfSameSize(NumbersOf(jobs), UpTo(n));
    assert k in NumbersOf(jobs);
  }

  lemma {:induction false} NumbersUsed(jobs: seq<Job>)
    requires DistinctNumbers(jobs)
    ensures |NumbersOf(jobs)| == |jobs|
    decreases |jobs|
  {
    if jobs != [] {
      var front, last := jobs[..|jobs| - 1], jobs[|jobs| - 1];
      assert forall i :: 0 <= i < |front| ==> front[i] == jobs[i];
      NumbersUsed(front);
      assert last.num !in NumbersOf(front);
      assert NumbersOf(jobs) == NumbersOf(front) + {last.num};
    }
  }

  lemma SubsetOfSameSize<T>(a: set<T>, b: set<T>)
    requires a <= b && |a| == |b|
    ensures a == b
  {
    assert b == a + (b - a);
    assert |b| == |a| + |b - a|;
  }

  lemma EitherHalf(f: Book, k: nat)
    requires Numbered(Ledger(f), f.saved.num) && 1 <= k <= f.saved.num
    ensures HasNumber(f.saved.queue, k) != HasNumber(f.popped, k)
  {
    AllNumbersOccur(Ledger(f), f.saved.num, k);
    OneHalf(f.popped, f.saved.queue, k);
  }

  lemma OneHalf(a: seq<Job>, b: seq<Job>, k: nat)
    requires DistinctNumbers(a + b) && HasNumber(a + b, k)
    ensures HasNumber(a, k) != HasNumber(b, k)
  {
    var jobs := a + b;
    var i :| 0 <= i < |jobs| && jobs[i].num == k;
    if i < |a| {
      assert a[i].num == k;
      forall j | 0 <= j < |b| ensures b[j].num != k {
        assert jobs[|a| + j] == b[j];
      }
    } else {
      assert b[i - |a|].num == k;
      forall j | 0 <= j < |a| ensures a[j].num != k {
        assert jobs[j] == a[j];
      }
    }
  }

  // ---------------------------------------------------------------- proofs: one step

  lemma ErrorsKeepSound(b: Book, rows: seq<Row>, clock: real, now: real, cfg: Config)
    requires Sound(b, rows, clock, cfg) && clock <= now
    ensures Sound(OnErrors(b, now, cfg), rows, now, cfg)
  {
    EnqueueLedger(b, OnErrors(b, now, cfg), Job(b.saved.num + 1, Error, b.saved.pending));
    hide Numbered, Ledger, MaxId, Hits, Sum;
  }

  lemma ScheduleKeepsSound(b: Book, rows: seq<Row>, clock: real, now: real, cfg: Config)
    requires Sound(b, rows, clock, cfg) && clock <= now
    ensures Sound(OnSchedule(b, now, cfg), rows, now, cfg)
  {
    EnqueueLedger(b, OnSchedule(b, now, cfg), Job(b.saved.num + 1, Sched, 0));
    hide Numbered, Ledger, MaxId, Hits, Sum;
  }

  lemma ExpiredKeepsSound(b: Book, rows: seq<Row>, clock: real, cfg: Config)
    requires Sound(b, rows, clock, cfg)
    ensures Sound(OnExpiredSession(b), rows, clock, cfg)
  {
    EnqueueLedger(b, OnExpiredSession(b), Job(b.saved.num + 1, Relogin, 0));
    hide Numbered, Ledger, MaxId, Hits, Sum;
  }

  lemma PopKeepsSound(b: Book, rows: seq<Row>, clock: real, cfg: Config)
    requires Sound(b, rows, clock, cfg) && b.saved.queue != []
    ensures Sound(Popped(b), rows, clock, cfg)
    ensures Ledger(Popped(b)) == Ledger(b)
  {
    assert b.saved.queue == [b.saved.queue[0]] + b.saved.queue[1..];
    assert Ledger(Popped(b)) == Ledger(b);
    hide Ledger, Numbered, MaxId, Hits, Sum;
  }

  lemma FollowUpKeepsSound(b: Book, rows: seq<Row>, clock: real, cfg: Config)
    requires Sound(b, rows, clock, cfg)
    ensures Sound(FollowedUp(b), rows, clock, cfg)
  {
    var job := Job(b.saved.num + 1, Error, 0);
    AppendKeepsNumbered(Ledger(b), b.popped, b.saved.queue, job, b.saved.num);
    SumConcat(b.popped, b.saved.queue);
    SumConcat(b.popped, [job] + b.saved.queue);
    assert ([job] + b.saved.queue)[1..] == b.saved.queue;
    hide Numbered, MaxId, Hits;
  }

  lemma PollKeepsSound(b: Book, rows: seq<Row>, swept: nat, clock: real, cfg: Config)
    requires Sound(b, rows, clock, cfg) && swept <= |rows|
    ensures Sound(Polled(b, rows, swept, cfg), rows, clock, cfg)
  {
    hide Numbered, Hits, Sum, Ledger, MaxId;
    var last := b.saved.lastId;
    var mx := MaxId(rows[swept..], last);
    SeenByPoll(rows, swept, last);
    assert rows[..swept] + rows[swept..] == rows;
    HitsConcat(rows[..swept], rows[swept..], last, mx, cfg);
    HitsSplit(rows, b.base, last, mx, cfg);
    LedgerIs(b, Polled(b, rows, swept, cfg));
  }

  lemma BootKeepsSound(b: Book, rows: seq<Row>, swept: nat, clock: real, now: real, readable: bool, cfg: Config)
    requires Sound(b, rows, clock, cfg) && clock <= now
    requires swept <= |rows|
    ensures Sound(Booted(b, rows[swept..], now, readable, cfg), rows, now, cfg)
    ensures Booted(b, rows[swept..], now, readable, cfg).saved.lastId >= b.saved.lastId
  {
    var after := Booted(b, rows[swept..], now, readable, cfg);
    LedgerIs(b, after);
    hide Numbered, Sum, Ledger;
    if b.saved.lastId == 0 {
      NoneInside(rows, b.base, 0, cfg);
      NoneInside(rows, after.base, after.base, cfg);
      SeenByPoll(rows, swept, 0);
    }
  }

  lemma ArriveKeepsSound(b: Book, rows: seq<Row>, row: Row, clock: real, cfg: Config)
    requires Sound(b, rows, clock, cfg) && row.id > MaxId(rows, 0)
    ensures Sound(b, rows + [row], clock, cfg)
  {
    hide Numbered, Sum, Ledger;
    HitsAppend(rows, row, b.base, b.saved.lastId, cfg);
    var after := rows + [row];
    assert after[|rows|] == row;
    assert MaxId(after, 0) >= row.id;
  }

  lemma LaterIsSound(b: Book, rows: seq<Row>, clock: real, now: real, cfg: Config)
    requires Sound(b, rows, clock, cfg) && clock <= now
    ensures Sound(b, rows, now, cfg)
  {
    hide Numbered, Balanced;
  }

  /** The job in hand has a number that was not started before. */
  lemma StartKeepsOnce(started: seq<nat>, popped: seq<Job>, lost: nat)
    requires popped != [] && DistinctNumbers(popped) && StartedOnce(started, popped[..|popped| - 1], lost)
    ensures StartedOnce(started + [popped[|popped| - 1].num], popped, lost)
  {
    var front, job := popped[..|popped| - 1], popped[|popped| - 1];
    var after := started + [job.num];
    forall i | 0 <= i < |started| ensures HasNumber(popped, started[i]) && started[i] != job.num {
      var k :| 0 <= k < |front| && front[k].num == started[i];
      assert popped[k].num == started[i];
    }
    assert popped[|popped| - 1].num == job.num;
    assert HasNumber(popped, job.num);
    forall i | 0 <= i < |after| ensures HasNumber(popped, after[i]) {
      if i < |started| {
        assert after[i] == started[i];
      }
    }
  }

  lemma CrashKeepsOnce(started: seq<nat>, popped: seq<Job>, lost: nat)
    requires popped != [] && StartedOnce(started, popped[..|popped| - 1], lost)
    ensures StartedOnce(started, popped, lost + 1)
  {
    var front := popped[..|popped| - 1];
    forall i | 0 <= i < |started| ensures HasNumber(popped, started[i]) {
      var k :| 0 <= k < |front| && front[k].num == started[i];
      assert popped[k].num == started[i];
    }
  }

  lemma PoppedDistinct(b: Book)
    requires DistinctNumbers(Ledger(b))
    ensures DistinctNumbers(b.popped)
  {
    assert forall i :: 0 <= i < |b.popped| ==> Ledger(b)[i] == b.popped[i];
  }

  lemma SoundIsDistinct(b: Book, rows: seq<Row>, clock: real, cfg: Config)
    requires Sound(b, rows, clock, cfg)
    ensures DistinctNumbers(b.popped)
  {
    PoppedDistinct(b);
  }

  lemma BootLinks(b: Book, live: seq<Row>, now: real, readable: bool, cfg: Config)
    ensures Linked(Process(Booted(b, live, now, readable, cfg), true, None), b)
  {
  }

  lemma PollLinks(b: Book, rows: seq<Row>, swept: nat, cfg: Config)
    requires swept <= |rows|
    ensures Linked(Process(Polled(b, rows, swept, cfg), true, None), b)
  {
  }

  lemma EnqueueLinks(b: Book, now: real, cfg: Config)
    ensures Linked(Process(OnErrors(b, now, cfg), true, None), b)
    ensures Linked(Process(OnSchedule(b, now, cfg), true, None), b)
    ensures Linked(Process(OnExpiredSession(b), true, None), b)
    ensures Linked(Process(FollowedUp(b), true, None), b)
  {
  }

  lemma PopLinks(b: Book)
    requires b.saved.queue != []
    ensures Linked(Process(Popped(b), true, Some(b.saved.queue[0])), b)
  {
  }

  lemma PersistKeepsInv(w: World, cfg: Config)
    requires Inv(w, cfg) && w.process.Some?
    ensures Inv(Step(w, Persist, cfg), cfg)
  {
    hide Sound, StartedOnce;
    var p := w.process.value;
    var after := Step(w, Persist, cfg);
    if p.dirty && p.inHand.Some? {
      assert after.file.popped[..|after.file.popped| - 1] == w.file.popped;
    }
    assert Settled(after) == Settled(w);
  }

  lemma InvFits(w: World, cfg: Config)
    requires Inv(w, cfg)
    ensures w.swept <= |w.rows|
  {
    hide Sound, StartedOnce, Linked;
  }

  lemma StepKeepsBase(w: World, op: Op, cfg: Config)
    requires Inv(w, cfg) && w.file.saved.lastId > 0 && Allowed(w, op)
    ensures Step(w, op, cfg).file.base == w.file.base
    ensures Step(w, op, cfg).file.saved.lastId >= w.file.saved.lastId
  {
    hide Sound, StartedOnce, MaxId, Booted, Polled, OnErrors, OnSchedule, OnExpiredSession, FollowedUp, Popped, ErrorsDue;
  }

  lemma InHandIsPopped(w: World, cfg: Config)
    requires Inv(w, cfg) && InHandForGood(w)
    ensures w.file.popped != []
  {
    hide Sound, StartedOnce;
  }

  lemma StartedIsNotWaiting(w: World, cfg: Config)
    requires Inv(w, cfg)
    ensures forall i, j :: 0 <= i < |w.started| && 0 <= j < |w.file.saved.queue| ==> w.started[i] != w.file.saved.queue[j].num
  {
    hide Balanced, Timers;
    var jobs := Ledger(w.file);
    forall i, j | 0 <= i < |w.started| && 0 <= j < |w.file.saved.queue| ensures w.started[i] != w.file.saved.queue[j].num {
      assert HasNumber(Settled(w), w.started[i]);
      var k :| 0 <= k < |Settled(w)| && Settled(w)[k].num == w.started[i];
      assert jobs[k] == Settled(w)[k];
      assert jobs[|w.file.popped| + j] == w.file.saved.queue[j];
    }
  }

  lemma FileIsCurrent(w: World, cfg: Config)
    requires Inv(w, cfg) && Running(w)
    ensures w.process.value.book == w.file
  {
  }

  lemma TakenIsGone(w: World, cfg: Config)
    requires Inv(w, cfg) && InHandForGood(w)
    ensures w.process.value.inHand.value !in w.file.saved.queue
  {
    hide Balanced, Timers, StartedOnce;
    var jobs := Ledger(w.file);
    var last := |w.file.popped| - 1;
    assert jobs[last] == w.process.value.inHand.value;
    assert forall i :: 0 <= i < |w.file.saved.queue| ==> w.file.saved.queue[i] == jobs[last + 1 + i];
  }

  // ---------------------------------------------------------------- proofs: runs

  lemma RunUnfolds(w: World, ops: seq<Op>, next: World, cfg: Config)
    requires w.swept <= |w.rows| && next.swept <= |next.rows| && ops != [] && Allowed(w, ops[0]) && Step(w, ops[0], cfg) == next
    requires AllowedRun(next, ops[1..], cfg)
    ensures AllowedRun(w, ops, cfg) && Run(w, ops, cfg) == Run(next, ops[1..], cfg)
  {
  }

  lemma LeadsNowhere(w: World, cfg: Config)
    requires Inv(w, cfg)
    ensures Leads(w, [], w, cfg)
  {
  }

  lemma {:induction false} LeadsOn(a: World, first: seq<Op>, b: World, second: seq<Op>, c: World, cfg: Config)
    requires Leads(a, first, b, cfg) && Leads(b, second, c, cfg)
    ensures Leads(a, first + second, c, cfg)
    decreases |first|
  {
    hide Step, Allowed, Inv;
    var all := first + second;
    InvFits(a, cfg);
    if first == [] {
      assert all == second;
    } else {
      var next := Step(a, first[0], cfg);
      StepKeepsInv(a, first[0], cfg);
      InvFits(next, cfg);
      assert all[0] == first[0] && all[1..] == first[1..] + second;
      LeadsOn(next, first[1..], b, second, c, cfg);
      RunUnfolds(a, all, next, cfg);
    }
  }

  lemma Joined(a: World, first: seq<Op>, second: seq<Op>, c: World, cfg: Config) returns (both: seq<Op>)
    requires exists b :: Leads(a, first, b, cfg) && Leads(b, second, c, cfg)
    ensures Leads(a, both, c, cfg)
  {
    hide Leads;
    both := first + second;
    var b :| Leads(a, first, b, cfg) && Leads(b, second, c, cfg);
    LeadsOn(a, first, b, second, c, cfg);
  }

  lemma LeadsOneStep(w: World, op: Op, cfg: Config)
    requires Inv(w, cfg) && Allowed(w, op)
    ensures Leads(w, [op], Step(w, op, cfg), cfg) && Inv(Step(w, op, cfg), cfg)
  {
    hide Step, Allowed, Inv;
    InvFits(w, cfg);
    StepKeepsInv(w, op, cfg);
    InvFits(Step(w, op, cfg), cfg);
    assert [op][1..] == [];
    RunUnfolds(w, [op], Step(w, op, cfg), cfg);
  }

  lemma LeadsAndPersists(w: World, op: Op, cfg: Config)
    requires Inv(w, cfg) && Allowed(w, op) && Step(w, op, cfg).process.Some?
    ensures Leads(w, [op, Persist], Step(Step(w, op, cfg), Persist, cfg), cfg)
    ensures Inv(Step(w, op, cfg), cfg) && Inv(Step(Step(w, op, cfg), Persist, cfg), cfg)
  {
    hide Step, Inv, Leads, AllowedRun, Run;
    InvFits(w, cfg);
    LeadsOneStep(w, op, cfg);
    var mid := Step(w, op, cfg);
    InvFits(mid, cfg);
    assert Allowed(mid, Persist);
    hide Allowed;
    LeadsOneStep(mid, Persist, cfg);
    LeadsOn(w, [op], mid, [Persist], Step(mid, Persist, cfg), cfg);
    assert [op] + [Persist] == [op, Persist];
  }

  // ---------------------------------------------------------------- proofs: the run that loses a row

  /** The worlds of a run in which the first failed request is never counted. */
  function LossyWorld(k: nat, cfg: Config): World {
    var none := Book(NO_FILE, 0, [], 0);
    var first := Book(NO_FILE.(nextSched := 1.0 + cfg.period), 0, [], 0);
    var again := Booted(first, [FIRST_FAILURE], 2.0, true, cfg);
    if k == 0 then INITIAL
    else if k == 1 then World([], 0, none, Some(Process(first, true, None)), [], 0, 1.0)
    else if k == 2 then World([], 0, first, Some(Process(first, false, None)), [], 0, 1.0)
    else if k == 3 then World([FIRST_FAILURE], 0, first, Some(Process(first, false, None)), [], 0, 1.0)
    else if k == 4 then World([FIRST_FAILURE], 0, first, None, [], 0, 1.0)
    else if k == 5 then World([FIRST_FAILURE], 0, first, Some(Process(again, true, None)), [], 0, 2.0)
    else World([FIRST_FAILURE], 0, again, Some(Process(again, false, None)), [], 0, 2.0)
  }

  lemma LossBegins(cfg: Config)
    requires cfg.threshold > 0 && cfg.period > 0.0
    ensures Allowed(LossyWorld(0, cfg), Boot(1.0, true))
    ensures Step(LossyWorld(0, cfg), Boot(1.0, true), cfg) == LossyWorld(1, cfg)
  {
    assert Live(INITIAL) == [] && MaxId([], 0) == 0;
  }

  lemma LossGoesOn(cfg: Config)
    ensures Allowed(LossyWorld(1, cfg), Persist) && Step(LossyWorld(1, cfg), Persist, cfg) == LossyWorld(2, cfg)
    ensures Allowed(LossyWorld(2, cfg), Arrive(FIRST_FAILURE))
    ensures Step(LossyWorld(2, cfg), Arrive(FIRST_FAILURE), cfg) == LossyWorld(3, cfg)
    ensures Allowed(LossyWorld(3, cfg), Crash) && Step(LossyWorld(3, cfg), Crash, cfg) == LossyWorld(4, cfg)
  {
    hide Booted;
    assert MaxId([], 0) == 0;
    assert [] + [FIRST_FAILURE] == [FIRST_FAILURE];
  }

  lemma LossEnds(cfg: Config)
    ensures Allowed(LossyWorld(4, cfg), Boot(2.0, true)) && Step(LossyWorld(4, cfg), Boot(2.0, true), cfg) == LossyWorld(5, cfg)
    ensures Allowed(LossyWorld(5, cfg), Persist) && Step(LossyWorld(5, cfg), Persist, cfg) == LossyWorld(6, cfg)
    ensures Allowed(LossyWorld(6, cfg), Poll(true)) && Step(LossyWorld(6, cfg), Poll(true), cfg) == LossyWorld(6, cfg)
  {
    hide Polled;
    assert [FIRST_FAILURE][0..] == [FIRST_FAILURE];
    assert [FIRST_FAILURE][1..] == [];
    assert MaxId([FIRST_FAILURE], 0) == 1 && MaxId([FIRST_FAILURE], 1) == 1;
  }

  lemma LossTail(rest: seq<Op>, cfg: Config)
    requires rest == [Crash, Boot(2.0, true), Persist, Poll(true)]
    ensures LossyWorld(3, cfg).swept <= |LossyWorld(3, cfg).rows|
    ensures AllowedRun(LossyWorld(3, cfg), rest, cfg) && Run(LossyWorld(3, cfg), rest, cfg) == LossyWorld(6, cfg)
  {
    LossGoesOn(cfg);
    LossEnds(cfg);
    LossyFits(cfg);
    hide Step, Allowed, LossyWorld;
    RunUnfolds(LossyWorld(6, cfg), rest[3..], LossyWorld(6, cfg), cfg);
    RunUnfolds(LossyWorld(5, cfg), rest[2..], LossyWorld(6, cfg), cfg);
    RunUnfolds(LossyWorld(4, cfg), rest[1..], LossyWorld(5, cfg), cfg);
    RunUnfolds(LossyWorld(3, cfg), rest, LossyWorld(4, cfg), cfg);
  }

  lemma LossyFits(cfg: Config)
    ensures LossyWorld(0, cfg) == INITIAL
    ensures forall k: nat :: LossyWorld(k, cfg).swept <= |LossyWorld(k, cfg).rows|
  {
  }

  lemma LossShows(cfg: Config)
    requires !cfg.cookieMode
    ensures var w := LossyWorld(6, cfg);
            && w.file.saved.lastId == 1
            && w.file.saved.pending + Sum(Ledger(w.file)) == 0 < Hits(w.rows, 0, 1, cfg)
  {
    assert [FIRST_FAILURE][1..] == [];
    assert MaxId([FIRST_FAILURE], 0) == 1;
    assert Ledger(LossyWorld(6, cfg).file) == [];
  }
}
