/** What `syncSeededProxy` (internal/app/proxy.go) does to a pool the user also edits, over any
    number of restarts. */
module Seeding {
  import opened ProxyPool
  import opened Wrappers

  // ---------------------------------------------------------------- runs

  /** Starts with some value of --proxy, the requests in between, and what the panel can do.  A
      start first loads the list, and reads it again after it dropped a row; both can fail. */
  datatype Op =
    | Restart(url: string, loadOk: bool, dropOk: bool)
    | Served(proxyId: nat, outcome: Outcome)
    | PanelCreate(name: string, newUrl: string, weight: int)
    | PanelChange(id: nat, change: Change)
    | PanelReset(resetId: nat)
    | PanelDelete(deleteId: nat)

  /** A store, and the rows that start-up parameters ever created: their ids, with the URLs they
      were created with. */
  datatype World = World(store: Store, created: map<nat, string>)

  const FRESH := World(Store([], 1, "", None), map[])

  /** The list a new process works with. */
  function FirstList(s: Store, loadOk: bool): seq<Proxy> {
    if loadOk then s.table else []
  }

  /** `loadProxies` and `syncSeededProxy` at a start. */
  function Start(s: Store, url: string, loadOk: bool, dropOk: bool): Store {
    SyncListed(s, FirstList(s, loadOk), dropOk, url)
  }

  function Step(w: World, op: Op): World {
    match op
    case Restart(url, loadOk, dropOk) =>
      var next := Start(w.store, url, loadOk, dropOk);
      World(next, if next.nextId > w.store.nextId then w.created[w.store.nextId := url] else w.created)
    case Served(id, o) =>
      w.(store := w.store.(table := UpdateRow(w.store.table, id, p => Recorded(p, o.success, o.err, o.at))))
    case PanelCreate(name, url, weight) =>
      if name != "" && AcceptedUrl(url) then w.(store := Insert(w.store, name, url, weight)) else w
    case PanelChange(id, c) =>
      w.(store := w.store.(table := UpdateRow(w.store.table, id, p => Changed(p, c))))
    case PanelReset(id) =>
      w.(store := w.store.(table := UpdateRow(w.store.table, id, p => Reset(p))))
    case PanelDelete(id) =>
      w.(store := w.store.(table := DeleteRow(w.store.table, id)))
  }

  /** One operation on a pool that a process keeps, or, for a start, that a new process sets up:
      the store afterwards is that of the step. */
  method Perform(s: Store, op: Op, readOk: bool) returns (after: Store)
    requires Keyed(s.table, s.nextId)
    ensures after == Step(World(s, map[]), op).store
  {
    hide AcceptedUrl, SyncListed;
    var pool := new Pool(s);
    match op {
      case Restart(url, loadOk, dropOk) =>
        pool.LoadProxies(loadOk);
        pool.SyncSeededProxy(url, dropOk, readOk);
      case Served(id, o) =>
        pool.RecordResult(id, o.success, o.err, o.at);
      case PanelCreate(name, url, weight) =>
        var _ := pool.ProxyCreate(name, url, weight, readOk);
      case PanelChange(id, c) =>
        pool.ProxyUpdate(id, c, readOk);
      case PanelReset(id) =>
        pool.ProxyResetFailures(id, readOk);
      case PanelDelete(id) =>
        pool.ProxyDelete(id, readOk);
    }
    after := pool.Stored();
  }

  function Run(w: World, ops: seq<Op>): World
    decreases |ops|
  {
    if ops == [] then w else Run(Step(w, ops[0]), ops[1..])
  }

  ghost predicate Inv(w: World) {
    && Keyed(w.store.table, w.store.nextId)
    && (forall id :: id in w.created ==> id < w.store.nextId)
    && (w.store.seededId.Some? ==>
          w.store.seededId.value in w.created && w.created[w.store.seededId.value] == w.store.seededUrl)
  }

  lemma DropKeepsKeyed(s: Store, list: seq<Proxy>)
    requires Keyed(s.table, s.nextId)
    ensures Keyed(DropListed(s, list).table, s.nextId)
    ensures DropListed(s, list) == s.(table := DropListed(s, list).table)
  {
    hide Keyed;
    if s.seededId.Some? {
      DeleteKeepsKeyed(s.table, s.nextId, s.seededId.value);
    }
  }

  lemma SyncKeepsInv(w: World, list: seq<Proxy>, dropOk: bool, url: string)
    requires Inv(w)
    ensures var next := SyncListed(w.store, list, dropOk, url);
            Inv(World(next, if next.nextId > w.store.nextId then w.created[w.store.nextId := url] else w.created))
  {
    var s := w.store;
    DropKeepsKeyed(s, list);
    hide Keyed, DropListed, ListAfterDrop, AcceptedUrl, HasUrl;
    if url != s.seededUrl {
      InsertKeepsKeyed(DropListed(s, list).table, s.nextId, Created(s.nextId, SEED_NAME, url, 1));
    }
  }

  lemma StepKeepsInv(w: World, op: Op)
    requires Inv(w)
    ensures Inv(Step(w, op))
  {
    match op
    case Restart(url, loadOk, dropOk) => SyncKeepsInv(w, FirstList(w.store, loadOk), dropOk, url);
    case Served(id, o) =>
    case PanelCreate(name, url, weight) =>
      hide AcceptedUrl;
      InsertKeepsKeyed(w.store.table, w.store.nextId, Created(w.store.nextId, name, url, weight));
    case PanelChange(id, c) =>
    case PanelReset(id) =>
    case PanelDelete(id) =>
      DeleteKeepsKeyed(w.store.table, w.store.nextId, id);
  }

  lemma {:induction false} RunKeepsInv(w: World, ops: seq<Op>)
    requires Inv(w)
    ensures Inv(Run(w, ops))
    decreases |ops|
  {
    hide Inv, Step;
    if ops != [] {
      StepKeepsInv(w, ops[0]);
      RunKeepsInv(Step(w, ops[0]), ops[1..]);
    }
  }

  // ---------------------------------------------------------------- what is never deleted

  /** After any run, a start removes a row only if a start-up parameter created that row and
      its URL is still the one it was created with, and the parameter now has another value;
      every other row stays as it is.  No failing read changes that. */
  lemma RestartDropsOnlyItsOwn(ops: seq<Op>, url: string, loadOk: bool, dropOk: bool, p: Proxy)
    requires p in Run(FRESH, ops).store.table
    ensures var w := Run(FRESH, ops);
            p in Start(w.store, url, loadOk, dropOk).table ||
            (p.id in w.created && p.url == w.created[p.id] == w.store.seededUrl != url)
  {
    var w := Run(FRESH, ops);
    RunKeepsInv(FRESH, ops);
    hide Run, Step;
    var s := w.store;
    var list := FirstList(s, loadOk);
    if StillListed(s, list) && p.id == s.seededId.value {
      var i :| 0 <= i < |list| && list[i].id == s.seededId.value && list[i].url == s.seededUrl;
      var j :| 0 <= j < |s.table| && s.table[j] == p;
      assert list == s.table && i == j;
    } else {
      assert p in DropListed(s, list).table;
    }
  }

  predicate RestartsUse(ops: seq<Op>, url: string) {
    forall i :: 0 <= i < |ops| && ops[i].Restart? ==> ops[i].url == url
  }

  function WithoutRestarts(ops: seq<Op>): seq<Op>
    decreases |ops|
  {
    if ops == [] then []
    else if ops[0].Restart? then WithoutRestarts(ops[1..])
    else [ops[0]] + WithoutRestarts(ops[1..])
  }

  /** While the parameter does not change, the panel alone decides: the restarts in between
      cannot be seen in the result. */
  lemma {:induction false} UnchangedValueIsInvisible(w: World, ops: seq<Op>)
    requires RestartsUse(ops, w.store.seededUrl)
    ensures Run(w, ops) == Run(w, WithoutRestarts(ops))
    decreases |ops|
  {
    if ops != [] {
      assert RestartsUse(ops[1..], w.store.seededUrl) by {
        assert forall i :: 0 <= i < |ops| - 1 ==> ops[1..][i] == ops[i + 1];
      }
      UnchangedValueIsInvisible(Step(w, ops[0]), ops[1..]);
      if !ops[0].Restart? {
        assert ([ops[0]] + WithoutRestarts(ops[1..]))[1..] == WithoutRestarts(ops[1..]);
      }
    }
  }

  // ---------------------------------------------------------------- health does not matter

  /** A row without what requests and resets change in it. */
  function Face(p: Proxy): Proxy {
    p.(failCount := 0, lastUsed := 0, lastError := "")
  }

  function Faces(table: seq<Proxy>): (r: seq<Proxy>)
    ensures |r| == |table|
    ensures forall i :: 0 <= i < |table| ==> r[i] == Face(table[i])
  {
    seq(|table|, i requires 0 <= i < |table| => Face(table[i]))
  }

  function FaceStore(s: Store): Store {
    s.(table := Faces(s.table))
  }

  lemma FacesKeepUrls(table: seq<Proxy>, url: string)
    ensures HasUrl(Faces(table), url) <==> HasUrl(table, url)
  {
    if i :| 0 <= i < |table| && table[i].url == url {
      assert Faces(table)[i].url == url;
    }
    if i :| 0 <= i < |table| && Faces(table)[i].url == url {
      assert table[i].url == url;
    }
  }

  lemma FacesOfTail(table: seq<Proxy>)
    requires table != []
    ensures Faces(table)[1..] == Faces(table[1..])
  {
  }

  lemma FacesOfCons(p: Proxy, rest: seq<Proxy>)
    ensures Faces([p] + rest) == [Face(p)] + Faces(rest)
  {
  }

  lemma {:induction false} FacesOfDelete(table: seq<Proxy>, id: nat)
    ensures Faces(DeleteRow(table, id)) == DeleteRow(Faces(table), id)
    decreases |table|
  {
    if table == [] {
      assert Faces(DeleteRow(table, id)) == [];
    } else {
      FacesOfDelete(table[1..], id);
      FacesOfTail(table);
      var rest := DeleteRow(table[1..], id);
      FacesOfCons(table[0], rest);
      assert [] + rest == rest && [] + Faces(rest) == Faces(rest);
      assert Faces(table)[0] == Face(table[0]);
      hide Faces;
    }
  }

  lemma FacesKeepListed(s: Store)
    ensures StillSeeded(FaceStore(s)) <==> StillSeeded(s)
  {
    var faces := Faces(s.table);
    if StillSeeded(s) {
      var i :| 0 <= i < |s.table| && s.table[i].id == s.seededId.value && s.table[i].url == s.seededUrl;
      assert faces[i].id == s.seededId.value && faces[i].url == s.seededUrl;
    }
    if StillSeeded(FaceStore(s)) {
      var i :| 0 <= i < |faces| && faces[i].id == s.seededId.value && faces[i].url == s.seededUrl;
      assert s.table[i].id == s.seededId.value && s.table[i].url == s.seededUrl;
    }
  }

  lemma FacesOfDrop(s: Store)
    ensures FaceStore(DropSeeded(s)) == DropSeeded(FaceStore(s))
  {
    FacesKeepListed(s);
    if s.seededId.Some? {
      FacesOfDelete(s.table, s.seededId.value);
    }
    hide StillListed;
  }

  /** `syncSeededProxy` sees nothing of a row's health and leaves it alone. */
  lemma SyncIgnoresHealth(s: Store, url: string)
    ensures FaceStore(SyncSeeded(s, url)) == SyncSeeded(FaceStore(s), url)
  {
    FacesOfDrop(s);
    ListIsDropped(s);
    ListIsDropped(FaceStore(s));
    FacesKeepUrls(DropSeeded(s).table, url);
    var table, row := DropSeeded(s).table, Created(s.nextId, SEED_NAME, url, 1);
    assert Faces(table + [row]) == Faces(table) + [row];
    hide AcceptedUrl, HasUrl, StillListed, ListAfterDrop;
  }

  lemma ListIsDropped(s: Store)
    ensures ListAfterDrop(s, s.table, true) == DropSeeded(s).table
    ensures DropSeeded(s) == s.(table := DropSeeded(s).table)
  {
  }

  /** Starts, requests and resets: everything but the panel's changes of the rows. */
  predicate NoEdits(ops: seq<Op>) {
    forall i :: 0 <= i < |ops| ==> ops[i].Restart? || ops[i].Served? || ops[i].PanelReset?
  }

  lemma HealthStepIsHidden(w: World, op: Op)
    requires op.Served? || op.PanelReset?
    ensures FaceStore(Step(w, op).store) == FaceStore(w.store)
  {
    assert Faces(Step(w, op).store.table) == Faces(w.store.table);
  }

  // ---------------------------------------------------------------- the pool follows the parameter

  /** Up to their health, the rows are the user's, and behind them the row of the current value
      unless the user has that exit already or there is no value. */
  ghost predicate Follows(s: Store, base: seq<Proxy>, url: string) {
    Carries(FaceStore(s), Faces(base), url)
  }

  ghost predicate Carries(s: Store, base: seq<Proxy>, url: string) {
    && s.seededUrl == url
    && Keyed(s.table, s.nextId)
    && if url == "" || HasUrl(base, url) then s.table == base && s.seededId.None?
       else && s.seededId.Some?
            && s.table == base + [Created(s.seededId.value, SEED_NAME, url, 1)]
  }

  lemma {:induction false} DeleteLast(base: seq<Proxy>, last: Proxy, nextId: nat)
    requires Keyed(base + [last], nextId)
    ensures DeleteRow(base + [last], last.id) == base
    decreases |base|
  {
    var all := base + [last];
    if base != [] {
      assert all[0].id < all[|base|].id;
      assert all[1..] == base[1..] + [last];
      KeyedTail(all, nextId);
      DeleteLast(base[1..], last, nextId);
    } else {
      assert all[1..] == [];
    }
  }

  lemma KeyedPrefix(base: seq<Proxy>, last: Proxy, nextId: nat)
    requires Keyed(base + [last], nextId)
    ensures Keyed(base, nextId)
  {
    assert forall i :: 0 <= i < |base| ==> base[i] == (base + [last])[i];
  }

  lemma DropRestoresBase(s: Store, base: seq<Proxy>, url: string)
    requires Carries(s, base, url)
    ensures DropSeeded(s) == s.(table := base) && Keyed(base, s.nextId)
  {
    if !(url == "" || HasUrl(base, url)) {
      var row := Created(s.seededId.value, SEED_NAME, url, 1);
      assert s.table[|base|] == row;
      DeleteLast(base, row, s.nextId);
      KeyedPrefix(base, row, s.nextId);
    }
  }

  lemma SyncCarries(s: Store, base: seq<Proxy>, prev: string, url: string)
    requires Carries(s, base, prev)
    requires url == "" || AcceptedUrl(url)
    ensures Carries(SyncSeeded(s, url), base, url)
  {
    if url != prev {
      DropRestoresBase(s, base, prev);
      ListIsDropped(s);
      hide AcceptedUrl, DropListed, ListAfterDrop;
      InsertKeepsKeyed(base, s.nextId, Created(s.nextId, SEED_NAME, url, 1));
    }
  }

  lemma StartIsSync(s: Store, base: seq<Proxy>, prev: string, url: string, dropOk: bool)
    requires Follows(s, base, prev)
    ensures Start(s, url, true, dropOk) == SyncSeeded(s, url)
  {
    assert forall i :: 0 <= i < |s.table| ==> Faces(s.table)[i].id == s.table[i].id;
    ReadingAgainIsIdle(s, dropOk, url);
  }

  /** One start from such a pool, exactly: with an accepted or empty value the pool follows it
      if the list could be loaded, or the value is the old one, or nothing was to be dropped and
      the user has no row with the new value (then the missing list does no harm). */
  lemma FollowsExactly(s: Store, base: seq<Proxy>, prev: string, url: string, loadOk: bool, dropOk: bool)
    requires Follows(s, base, prev)
    requires url == "" || AcceptedUrl(url)
    ensures Follows(Start(s, url, loadOk, dropOk), base, url) <==>
            loadOk || url == prev || (s.seededId.None? && (url == "" || !HasUrl(base, url)))
  {
    if loadOk || url == prev {
      StartIsSync(s, base, prev, url, dropOk);
      SyncIgnoresHealth(s, url);
      SyncCarries(FaceStore(s), Faces(base), prev, url);
      assert url == prev ==> Start(s, url, loadOk, dropOk) == s;
    } else {
      StartWithoutList(s, base, prev, url, dropOk);
    }
  }

  /** A start whose first load fails drops nothing and sees no row of the user's. */
  lemma StartWithoutList(s: Store, base: seq<Proxy>, prev: string, url: string, dropOk: bool)
    requires Follows(s, base, prev) && url != prev && (url == "" || AcceptedUrl(url))
    ensures Follows(Start(s, url, false, dropOk), base, url) <==>
            s.seededId.None? && (url == "" || !HasUrl(base, url))
  {
    var next := Start(s, url, false, dropOk);
    var row := Created(s.nextId, SEED_NAME, url, 1);
    assert !StillListed(s, []) && !HasUrl([], url);
    assert next == if url == "" then s.(seededUrl := "", seededId := None)
                   else Insert(s, SEED_NAME, url, 1).(seededUrl := url, seededId := Some(s.nextId));
    FacesKeepUrls(base, url);
    assert |Faces(s.table)| == if s.seededId.None? then |base| else |base| + 1;
    hide AcceptedUrl, HasUrl, SyncListed;
    if url != "" {
      assert Faces(s.table + [row]) == Faces(s.table) + [row];
      InsertKeepsKeyed(Faces(s.table), s.nextId, row);
      assert |Faces(next.table)| == |Faces(s.table)| + 1;
    }
  }

  function LastUrl(prev: string, ops: seq<Op>): string
    decreases |ops|
  {
    if ops == [] then prev else LastUrl(if ops[0].Restart? then ops[0].url else prev, ops[1..])
  }

  /** Over any run of starts with accepted or empty values and working loads, with requests and
      resets in between, the pool follows the last value: no row piles up, and none of the user's
      is touched. */
  lemma {:induction false} RestartsFollowLastValue(w: World, base: seq<Proxy>, prev: string, ops: seq<Op>)
    requires Follows(w.store, base, prev) && NoEdits(ops)
    requires forall i :: 0 <= i < |ops| && ops[i].Restart? ==> ops[i].loadOk && (ops[i].url == "" || AcceptedUrl(ops[i].url))
    ensures Follows(Run(w, ops).store, base, LastUrl(prev, ops))
    decreases |ops|
  {
    hide Carries, AcceptedUrl, SyncListed;
    if ops != [] {
      var op := ops[0];
      if op.Restart? {
        FollowsExactly(w.store, base, prev, op.url, true, op.dropOk);
      } else {
        HealthStepIsHidden(w, op);
      }
      hide Follows, Step;
      RestartsFollowLastValue(Step(w, op), base, if op.Restart? then op.url else prev, ops[1..]);
    }
  }

  /** A fresh pool with rows of the user's own follows the empty value. */
  lemma UntouchedPoolFollows(base: seq<Proxy>, nextId: nat)
    requires Keyed(base, nextId)
    ensures Follows(Store(base, nextId, "", None), base, "")
  {
  }

  // ---------------------------------------------------------------- rejected values

  /** The exit that kv says was seeded is in the pool. */
  predicate SeedPresent(s: Store) {
    s.seededUrl == "" || HasUrl(s.table, s.seededUrl)
  }

  /** Another row than the remembered one has the remembered URL. */
  predicate HeldByOther(s: Store) {
    exists i :: 0 <= i < |s.table| && s.table[i].url == s.seededUrl && s.seededId != Some(s.table[i].id)
  }

  /** For every pool, however it was edited: one start keeps the remembered exit in the pool
      unless the new value is another one, refused, and in no row that is left, while the row of
      the old value is still as it was created and the only one with its URL.  Then that row is
      dropped, and kv goes on naming it. */
  lemma SeedLostExactly(s: Store, url: string)
    requires SeedPresent(s)
    ensures SeedPresent(SyncSeeded(s, url)) <==>
            || url == s.seededUrl || url == "" || AcceptedUrl(url)
            || HasUrl(DropSeeded(s).table, url) || !StillSeeded(s) || HeldByOther(s)
  {
    ListIsDropped(s);
    var left, next := DropSeeded(s).table, SyncSeeded(s, url);
    hide AcceptedUrl;
    if url != s.seededUrl && url != "" && !HasUrl(left, url) && AcceptedUrl(url) {
      assert next.table[|left|].url == url;
    }
    if StillSeeded(s) {
      HeldExactly(s);
    }
  }

  const SEEDED_STORE := Store([Created(1, SEED_NAME, "http://a", 1)], 2, "http://a", Some(1))

  /** A pool with nothing but the seeded exit, and a value without a scheme: the exit goes, and kv
      goes on naming it. */
  lemma SchemelessValueLosesSeed()
    ensures SeedPresent(SEEDED_STORE) && !SeedPresent(SyncSeeded(SEEDED_STORE, "1.2.3.4:80"))
    ensures SyncSeeded(SEEDED_STORE, "1.2.3.4:80") == SEEDED_STORE.(table := [])
  {
    var s, url := SEEDED_STORE, "1.2.3.4:80";
    assert s.table[0].url == "http://a" && s.table[1..] == [];
    assert DeleteRow(s.table, 1) == [];
    var low := seq(|url|, i requires 0 <= i < |url| => LowerChar(url[i]));
    assert low[0] == '1' && !AcceptedUrl(url);
  }

  lemma HeldExactly(s: Store)
    requires StillSeeded(s)
    ensures HasUrl(DropSeeded(s).table, s.seededUrl) <==> HeldByOther(s)
  {
    var left := DropSeeded(s).table;
    if i :| 0 <= i < |left| && left[i].url == s.seededUrl {
      assert left[i] in left;
      var j :| 0 <= j < |s.table| && s.table[j] == left[i];
      assert s.table[j].url == s.seededUrl && s.seededId != Some(s.table[j].id);
    }
    if i :| 0 <= i < |s.table| && s.table[i].url == s.seededUrl && s.seededId != Some(s.table[i].id) {
      assert s.table[i] in left;
      var j :| 0 <= j < |left| && left[j] == s.table[i];
      assert left[j].url == s.seededUrl;
    }
  }

  /** With a failed first load nothing is dropped, so nothing is lost. */
  lemma NoListLosesNothing(s: Store, url: string, dropOk: bool)
    requires SeedPresent(s)
    ensures SeedPresent(Start(s, url, false, dropOk))
  {
    var next := Start(s, url, false, dropOk);
    hide AcceptedUrl;
    if next.table != s.table {
      assert next.table[|s.table|].url == url;
    }
  }

  function RunRestarts(s: Store, urls: seq<string>): Store
    decreases |urls|
  {
    if urls == [] then s else RunRestarts(SyncSeeded(s, urls[0]), urls[1..])
  }

  /** Going back to the old value does not bring a lost row back, nor does any further refused
      value: kv still names it, so these starts change nothing at all. */
  lemma {:induction false} LostSeedStaysLost(s: Store, bad: string, urls: seq<string>)
    requires SeedPresent(s) && !SeedPresent(SyncSeeded(s, bad))
    requires forall i :: 0 <= i < |urls| ==>
               urls[i] == s.seededUrl ||
               (urls[i] != "" && !AcceptedUrl(urls[i]) && !HasUrl(SyncSeeded(s, bad).table, urls[i]))
    ensures RunRestarts(SyncSeeded(s, bad), urls) == SyncSeeded(s, bad)
    ensures SyncSeeded(s, bad) == DropSeeded(s)
    decreases |urls|
  {
    SeedLostExactly(s, bad);
    ListIsDropped(s);
    var lost := SyncSeeded(s, bad);
    assert lost == DropSeeded(s);
    if urls != [] {
      LostIsNotListed(lost);
      ListIsDropped(lost);
      hide SyncListed, AcceptedUrl, StillListed;
      RefusedStartIsIdle(lost, urls[0]);
      LostSeedStaysLost(s, bad, urls[1..]);
    }
  }

  lemma LostIsNotListed(s: Store)
    requires !SeedPresent(s)
    ensures !StillSeeded(s)
  {
  }

  lemma RefusedStartIsIdle(s: Store, url: string)
    requires !StillSeeded(s)
    requires url == s.seededUrl || (url != "" && !AcceptedUrl(url) && !HasUrl(s.table, url))
    ensures SyncSeeded(s, url) == s
  {
    hide StillListed, AcceptedUrl, HasUrl;
  }
}
