/** The proxy pool (internal/app/proxy.go) and the choice of an exit for a request
    (`acquireSlot` in internal/app/gemini.go): a table of proxies, the cache the request path
    reads, one limiter slot per exit, and the round-robin cursor. */
module ProxyPool {
  import opened RateLimit
  import opened Wrappers

  datatype Proxy = Proxy(id: nat, name: string, url: string, enabled: bool, weight: int,
                         failCount: nat, lastUsed: int, lastError: string)

  /** Slot 0 is the host's own address; proxies have ids from 1. */
  const DIRECT: nat := 0
  const FAIL_THRESHOLD: nat := 5

  /** `proxyUsable` */
  predicate Usable(p: Proxy, now: int, cooldownMin: int) {
    p.enabled &&
    (p.failCount < FAIL_THRESHOLD || (cooldownMin > 0 && now - p.lastUsed >= cooldownMin * 60))
  }

  lemma UsableMeans(p: Proxy, now: int, cooldownMin: int)
    ensures Usable(p, now, cooldownMin) <==>
            p.enabled && (p.failCount < 5 || (cooldownMin > 0 && now - p.lastUsed >= 60 * cooldownMin))
  {
  }

  // ---------------------------------------------------------------- the table

  /** `id` is an auto-increment primary key: distinct, increasing in table order, never reused. */
  ghost predicate Keyed(table: seq<Proxy>, nextId: nat) {
    && DIRECT < nextId
    && (forall i :: 0 <= i < |table| ==> DIRECT < table[i].id < nextId)
    && (forall i, j :: 0 <= i < j < |table| ==> table[i].id < table[j].id)
  }

  /** `UPDATE ... WHERE id=?` */
  function UpdateRow(table: seq<Proxy>, id: nat, f: Proxy -> Proxy): (r: seq<Proxy>)
    ensures |r| == |table|
    ensures forall i :: 0 <= i < |table| ==> r[i] == if table[i].id == id then f(table[i]) else table[i]
  {
    seq(|table|, i requires 0 <= i < |table| => if table[i].id == id then f(table[i]) else table[i])
  }

  /** `DELETE ... WHERE id=?` */
  function DeleteRow(table: seq<Proxy>, id: nat): (r: seq<Proxy>)
    ensures forall p :: p in r <==> p in table && p.id != id
  {
    if table == [] then []
    else (if table[0].id == id then [] else [table[0]]) + DeleteRow(table[1..], id)
  }

  lemma KeyedTail(table: seq<Proxy>, nextId: nat)
    requires table != [] && Keyed(table, nextId)
    ensures Keyed(table[1..], nextId)
    ensures forall p :: p in table[1..] ==> table[0].id < p.id
  {
    assert forall i :: 0 <= i < |table| - 1 ==> table[1..][i] == table[i + 1];
  }

  lemma KeyedCons(p: Proxy, rest: seq<Proxy>, nextId: nat)
    requires Keyed(rest, nextId) && DIRECT < p.id < nextId && forall q :: q in rest ==> p.id < q.id
    ensures Keyed([p] + rest, nextId)
  {
    var table := [p] + rest;
    forall j | 0 < j < |table| ensures p.id < table[j].id < nextId && table[j] == rest[j - 1] {
      assert table[j] in rest;
    }
    forall i, j | 0 <= i < j < |table| ensures table[i].id < table[j].id {
      if i > 0 {
        assert rest[i - 1].id < rest[j - 1].id;
      }
    }
  }

  lemma {:induction false} DeleteKeepsKeyed(table: seq<Proxy>, nextId: nat, id: nat)
    requires Keyed(table, nextId)
    ensures Keyed(DeleteRow(table, id), nextId)
    decreases |table|
  {
    if table != [] {
      assert DIRECT < table[0].id < nextId;
      KeyedTail(table, nextId);
      hide Keyed;
      DeleteKeepsKeyed(table[1..], nextId, id);
      var rest := DeleteRow(table[1..], id);
      assert [] + rest == rest;
      KeyedCons(table[0], rest, nextId);
    }
  }

  lemma InsertKeepsKeyed(table: seq<Proxy>, nextId: nat, p: Proxy)
    requires Keyed(table, nextId) && p.id == nextId
    ensures Keyed(table + [p], nextId + 1)
  {
  }

  function Created(id: nat, name: string, url: string, weight: int): Proxy {
    Proxy(id, name, url, true, if weight <= 0 then 1 else weight, 0, 0, "")
  }

  /** `strings.ToLower` as far as its result can be an ASCII letter: besides A to Z, the Kelvin sign
      becomes k and the dotted capital I becomes i. */
  function LowerChar(c: char): char {
    if 'A' <= c <= 'Z' then c - 'A' + 'a'
    else if c == '\U{212A}' then 'k'
    else if c == '\U{0130}' then 'i'
    else c
  }

  /** `validateProxyURL`: one of the known schemes, in any letter case. */
  predicate AcceptedUrl(url: string) {
    var low := seq(|url|, i requires 0 <= i < |url| => LowerChar(url[i]));
    "http://" <= low || "https://" <= low || "socks5://" <= low || "socks5h://" <= low
  }

  /** `c` is this small letter or sign, in any letter case. */
  ghost predicate Same(c: char, small: char) {
    || c == small
    || ('a' <= small <= 'z' && c as int == small as int - 32)
    || (small == 'k' && c == '\U{212A}') || (small == 'i' && c == '\U{0130}')
  }

  ghost predicate BeginsWith(url: string, small: string) {
    |small| <= |url| && forall i :: 0 <= i < |small| ==> Same(url[i], small[i])
  }

  lemma LowerMeans(c: char, small: char)
    requires !('A' <= small <= 'Z') && small != '\U{212A}' && small != '\U{0130}'
    ensures LowerChar(c) == small <==> Same(c, small)
  {
  }

  lemma PrefixMeans(url: string, low: string, small: string)
    requires |low| == |url| && forall i :: 0 <= i < |url| ==> low[i] == LowerChar(url[i])
    requires forall i :: 0 <= i < |small| ==> !('A' <= small[i] <= 'Z') && small[i] != '\U{212A}' && small[i] != '\U{0130}'
    ensures small <= low <==> BeginsWith(url, small)
  {
    forall i | 0 <= i < |small| && i < |url| ensures low[i] == small[i] <==> Same(url[i], small[i]) {
      LowerMeans(url[i], small[i]);
    }
    hide LowerChar, Same;
    if BeginsWith(url, small) {
      assert low[..|small|] == small;
    }
  }

  /** Exactly which URLs are accepted. */
  lemma AcceptedMeans(url: string)
    ensures AcceptedUrl(url) <==> || BeginsWith(url, "http://") || BeginsWith(url, "https://")
                                  || BeginsWith(url, "socks5://") || BeginsWith(url, "socks5h://")
  {
    var low := seq(|url|, i requires 0 <= i < |url| => LowerChar(url[i]));
    PrefixMeans(url, low, "http://");
    PrefixMeans(url, low, "https://");
    PrefixMeans(url, low, "socks5://");
    PrefixMeans(url, low, "socks5h://");
    hide LowerChar, BeginsWith;
  }

  /** The optional changes of `proxyUpdate`; an empty string or None leaves a column alone. */
  datatype Change = Change(name: string, url: string, enabled: Option<bool>, weight: Option<int>)

  const NO_CHANGE := Change("", "", None, None)

  function Changed(p: Proxy, c: Change): Proxy {
    p.(name := if c.name != "" then c.name else p.name,
       url := if c.url != "" then c.url else p.url,
       enabled := if c.enabled.Some? then c.enabled.value else p.enabled,
       weight := if c.weight.Some? then c.weight.value else p.weight)
  }

  function Failed(p: Proxy, now: int, err: string): Proxy {
    p.(failCount := p.failCount + 1, lastUsed := now, lastError := err)
  }

  function Succeeded(p: Proxy, now: int): Proxy {
    p.(failCount := 0, lastUsed := now, lastError := "")
  }

  function Reset(p: Proxy): Proxy {
    p.(failCount := 0, lastError := "")
  }

  function Recorded(p: Proxy, success: bool, err: string, now: int): Proxy {
    if success then Succeeded(p, now) else Failed(p, now, err)
  }

  /** What a result makes of a row. */
  ghost predicate Records(p: Proxy, success: bool, err: string, now: int, q: Proxy) {
    q == if success then p.(failCount := 0, lastUsed := now, lastError := "")
         else p.(failCount := p.failCount + 1, lastUsed := now, lastError := err)
  }

  // ---------------------------------------------------------------- seeding from --proxy

  /** The table and the two kv entries that remember what the start-up parameter created. */
  datatype Store = Store(table: seq<Proxy>, nextId: nat, seededUrl: string, seededId: Option<nat>)

  const SEED_NAME := "启动参数"

  predicate HasUrl(table: seq<Proxy>, url: string) {
    exists i :: 0 <= i < |table| && table[i].url == url
  }

  /** The list in memory has the remembered row, with the URL it was created with. */
  predicate StillListed(s: Store, list: seq<Proxy>) {
    && s.seededId.Some? && s.seededUrl != ""
    && exists i :: 0 <= i < |list| && list[i].id == s.seededId.value && list[i].url == s.seededUrl
  }

  /** `dropSeededProxy`, which looks into the list and deletes from the table. */
  function DropListed(s: Store, list: seq<Proxy>): Store {
    if StillListed(s, list) then s.(table := DeleteRow(s.table, s.seededId.value)) else s
  }

  /** The list after that: read again if a row was deleted and reading works. */
  function ListAfterDrop(s: Store, list: seq<Proxy>, readOk: bool): seq<Proxy> {
    if StillListed(s, list) && readOk then DropListed(s, list).table else list
  }

  /** `proxyCreate` */
  function Insert(s: Store, name: string, url: string, weight: int): Store {
    s.(table := s.table + [Created(s.nextId, name, url, weight)], nextId := s.nextId + 1)
  }

  /** `syncSeededProxy`, for the trimmed value of the parameter and the list at that moment. */
  function SyncListed(s: Store, list: seq<Proxy>, readOk: bool, url: string): Store {
    if url == s.seededUrl then s
    else
      var dropped := DropListed(s, list);
      if url == "" then dropped.(seededUrl := "", seededId := None)
      else if HasUrl(ListAfterDrop(s, list, readOk), url) then dropped.(seededUrl := url, seededId := None)
      else if !AcceptedUrl(url) then dropped
      else Insert(dropped, SEED_NAME, url, 1).(seededUrl := url, seededId := Some(s.nextId))
  }

  /** What a start does, case by case: nothing for an unchanged value; else the remembered row
      goes if the list shows it with its old URL, and the new URL is forgotten, only remembered,
      entered, or refused. */
  ghost predicate SyncOutcome(s: Store, list: seq<Proxy>, readOk: bool, url: string, after: Store) {
    var gone := && s.seededId.Some? && s.seededUrl != ""
                && exists i :: 0 <= i < |list| && list[i].id == s.seededId.value && list[i].url == s.seededUrl;
    var kept := if gone then DeleteRow(s.table, s.seededId.value) else s.table;
    var seen := if gone && readOk then kept else list;
    Entered(s, kept, seen, url, after)
  }

  /** `kept` is what the drop leaves, `seen` the list at that moment. */
  ghost predicate Entered(s: Store, kept: seq<Proxy>, seen: seq<Proxy>, url: string, after: Store) {
    if url == s.seededUrl then after == s
    else if url == "" then after == Store(kept, s.nextId, "", None)
    else if exists i :: 0 <= i < |seen| && seen[i].url == url then after == Store(kept, s.nextId, url, None)
    else if || BeginsWith(url, "http://") || BeginsWith(url, "https://")
            || BeginsWith(url, "socks5://") || BeginsWith(url, "socks5h://") then
      after == Store(kept + [Proxy(s.nextId, "启动参数", url, true, 1, 0, 0, "")], s.nextId + 1, url, Some(s.nextId))
    else after == s.(table := kept)
  }

  lemma SyncMeans(s: Store, list: seq<Proxy>, readOk: bool, url: string)
    ensures SyncOutcome(s, list, readOk, url, SyncListed(s, list, readOk, url))
  {
    hide AcceptedUrl, BeginsWith, DeleteRow;
    var gone := StillListed(s, list);
    var kept := if gone then DeleteRow(s.table, s.seededId.value) else s.table;
    var seen := if gone && readOk then kept else list;
    assert ListAfterDrop(s, list, readOk) == seen && DropListed(s, list).table == kept;
    EntryMeans(s, list, readOk, url, kept, seen);
  }

  lemma EntryMeans(s: Store, list: seq<Proxy>, readOk: bool, url: string, kept: seq<Proxy>, seen: seq<Proxy>)
    requires ListAfterDrop(s, list, readOk) == seen && DropListed(s, list).table == kept
    ensures Entered(s, kept, seen, url, SyncListed(s, list, readOk, url))
  {
    hide AcceptedUrl, BeginsWith, ListAfterDrop;
    AcceptedMeans(url);
    assert SEED_NAME == "启动参数";
  }

  /** The same when the list is the table. */
  predicate StillSeeded(s: Store) {
    StillListed(s, s.table)
  }

  function DropSeeded(s: Store): Store {
    DropListed(s, s.table)
  }

  function SyncSeeded(s: Store, url: string): Store {
    SyncListed(s, s.table, true, url)
  }

  /** With a list that is the table it does not matter whether it can be read again: the row
      dropped does not have the new URL. */
  lemma ReadingAgainIsIdle(s: Store, readOk: bool, url: string)
    requires forall p, q :: p in s.table && q in s.table && p.id == q.id ==> p == q
    ensures SyncListed(s, s.table, readOk, url) == SyncSeeded(s, url)
  {
    if url != s.seededUrl && StillSeeded(s) {
      var after := DropSeeded(s).table;
      var k :| 0 <= k < |s.table| && s.table[k].id == s.seededId.value && s.table[k].url == s.seededUrl;
      forall i | 0 <= i < |s.table| && s.table[i].url == url ensures s.table[i] in after {
        assert s.table[i] in s.table && s.table[k] in s.table;
      }
      forall i | 0 <= i < |after| ensures after[i] in s.table {
        assert after[i] in after;
      }
      assert HasUrl(after, url) <==> HasUrl(s.table, url);
    }
  }

  // ---------------------------------------------------------------- the breaker

  /** The outcome of one request through a proxy. */
  datatype Outcome = Outcome(success: bool, err: string, at: int)

  function AfterOutcomes(p: Proxy, outcomes: seq<Outcome>): Proxy
    decreases |outcomes|
  {
    if outcomes == [] then p
    else
      var o := outcomes[|outcomes| - 1];
      Recorded(AfterOutcomes(p, outcomes[..|outcomes| - 1]), o.success, o.err, o.at)
  }

  /** The last `n` outcomes are failures, and the one before them, if any, is not. */
  predicate FailureStreak(outcomes: seq<Outcome>, n: nat) {
    && n <= |outcomes|
    && (forall i :: |outcomes| - n <= i < |outcomes| ==> !outcomes[i].success)
    && (n < |outcomes| ==> outcomes[|outcomes| - n - 1].success)
  }

  /** The counter is the length of the current failure streak (on top of what the row started
      with, as long as nothing has succeeded), and the attempt that counts for the cooldown is
      the last one. */
  lemma {:induction false} BreakerMatchesHistory(p: Proxy, outcomes: seq<Outcome>, n: nat)
    requires FailureStreak(outcomes, n)
    ensures var q := AfterOutcomes(p, outcomes);
            && q.failCount == n + (if n == |outcomes| then p.failCount else 0)
            && q.lastUsed == (if outcomes == [] then p.lastUsed else outcomes[|outcomes| - 1].at)
            && q.enabled == p.enabled && q.id == p.id && q.url == p.url
    decreases |outcomes|
  {
    if outcomes != [] {
      var front := outcomes[..|outcomes| - 1];
      if n > 0 {
        assert FailureStreak(front, n - 1);
        BreakerMatchesHistory(p, front, n - 1);
      } else {
        var m := StreakExists(front);
        BreakerMatchesHistory(p, front, m);
      }
    }
  }

  lemma {:induction false} StreakExists(outcomes: seq<Outcome>) returns (n: nat)
    ensures FailureStreak(outcomes, n)
    decreases |outcomes|
  {
    if outcomes == [] || outcomes[|outcomes| - 1].success {
      n := 0;
    } else {
      n := StreakExists(outcomes[..|outcomes| - 1]);
      n := n + 1;
    }
  }

  /** A proxy that starts healthy is unusable exactly when the panel disabled it, or its last
      five outcomes were all failures and the cooldown since the last one has not passed (or
      cooling down is switched off). */
  lemma UnusableExactly(p: Proxy, outcomes: seq<Outcome>, now: int, cooldownMin: int)
    requires p.failCount == 0
    ensures !Usable(AfterOutcomes(p, outcomes), now, cooldownMin) <==>
            || !p.enabled
            || (&& |outcomes| >= 5
                && (forall i :: |outcomes| - 5 <= i < |outcomes| ==> !outcomes[i].success)
                && (cooldownMin <= 0 || now - outcomes[|outcomes| - 1].at < cooldownMin * 60))
  {
    var n := StreakExists(outcomes);
    BreakerMatchesHistory(p, outcomes, n);
    if n < FAIL_THRESHOLD && |outcomes| >= FAIL_THRESHOLD {
      assert outcomes[|outcomes| - n - 1].success;
    }
  }

  // ---------------------------------------------------------------- choosing an exit

  function SlotOf(slots: map<nat, Slot>, id: nat): Slot {
    if id in slots then slots[id] else EMPTY_SLOT
  }

  predicate HasRoom(slots: map<nat, Slot>, id: nat, now: int, lim: Limits) {
    VerdictOf(SlotOf(slots, id), now, lim) == Granted
  }

  function UsablePool(cache: seq<Proxy>, now: int, cooldownMin: int): (pool: seq<Proxy>)
    ensures forall p :: p in pool <==> p in cache && Usable(p, now, cooldownMin)
  {
    if cache == [] then []
    else (if Usable(cache[0], now, cooldownMin) then [cache[0]] else []) + UsablePool(cache[1..], now, cooldownMin)
  }

  /** Everything a pick depends on. */
  datatype View = View(pool: seq<Proxy>, slots: map<nat, Slot>, cursor: nat, now: int, lim: Limits)

  predicate Preferred(v: View, prefer: nat, p: Proxy) {
    prefer > 0 && p in v.pool && p.id == prefer && HasRoom(v.slots, prefer, v.now, v.lim)
  }

  /** `k` steps from the cursor, the round robin meets this proxy. */
  function AtTurn(v: View, k: nat): Proxy
    requires v.pool != []
  {
    v.pool[(v.cursor + k) % |v.pool|]
  }

  /** Nobody before turn `k` has room, and whoever is at turn `k` has. */
  predicate FirstWithRoom(v: View, k: nat)
    requires v.pool != []
  {
    && HasRoom(v.slots, AtTurn(v, k).id, v.now, v.lim)
    && forall i :: 0 <= i < k ==> !HasRoom(v.slots, AtTurn(v, i).id, v.now, v.lim)
  }

  /** The rule: the preferred exit if it is usable and has room, else the first one with room
      in round-robin order, else none. */
  ghost predicate PickedByRule(v: View, prefer: nat, r: Option<Proxy>) {
    if exists p :: Preferred(v, prefer, p) then
      r.Some? && Preferred(v, prefer, r.value)
    else if r.Some? then
      && v.pool != []
      && exists k :: 0 <= k < |v.pool| && r.value == AtTurn(v, k) && FirstWithRoom(v, k)
    else
      forall k :: 0 <= k < |v.pool| ==> !HasRoom(v.slots, AtTurn(v, k).id, v.now, v.lim)
  }

  /** A whole turn of the round robin meets everybody. */
  lemma EverybodyHasATurn(v: View, i: nat) returns (k: nat)
    requires i < |v.pool|
    ensures k < |v.pool| && AtTurn(v, k) == v.pool[i]
  {
    var n := |v.pool|;
    var c := v.cursor % n;
    k := if i >= c then i - c else i - c + n;
    assert (v.cursor + k) % n == (c + k) % n by {
      ModPlus(v.cursor, k, n);
    }
    if i >= c {
      ModSmall(i, n);
    } else {
      ModPlus(n, i, n);
      ModSmall(i, n);
    }
  }

  lemma ModSmall(a: nat, n: nat)
    requires a < n
    ensures a % n == a
  {
  }

  lemma ModPlus(a: nat, b: nat, n: nat)
    requires n > 0
    ensures (a + b) % n == (a % n + b) % n
  {
    var q, r := a / n, a % n;
    ModMultiple(r + b, q, n);
    assert a + b == (r + b) + q * n;
  }

  lemma {:induction false} ModMultiple(x: nat, q: nat, n: nat)
    requires n > 0
    ensures (x + q * n) % n == x % n
    decreases q
  {
    if q > 0 {
      ModMultiple(x, q - 1, n);
      assert x + q * n == (x + (q - 1) * n) + n;
      ModOnce(x + (q - 1) * n, n);
    }
  }

  lemma {:induction false} MulAtLeast(n: nat, k: nat)
    requires k >= 1
    ensures n * k >= n
    decreases k
  {
    if k > 1 {
      MulAtLeast(n, k - 1);
      assert n * k == n * (k - 1) + n;
    }
  }

  lemma ModOnce(y: nat, n: nat)
    requires n > 0
    ensures (y + n) % n == y % n
  {
    var d := (y + n) / n - y / n - 1;
    assert n * d == y % n - (y + n) % n by {
      assert y == n * (y / n) + y % n && y + n == n * ((y + n) / n) + (y + n) % n;
      assert n * d == n * ((y + n) / n) - n * (y / n) - n;
    }
    if d >= 1 {
      MulAtLeast(n, d);
    } else if d <= -1 {
      assert n * d == -(n * -d);
      MulAtLeast(n, -d);
    }
  }

  /** Work conservation: a pick fails only if every usable proxy is full. */
  lemma PickFailsOnlyWhenFull(v: View, prefer: nat)
    requires PickedByRule(v, prefer, None)
    ensures forall p :: p in v.pool ==> !HasRoom(v.slots, p.id, v.now, v.lim)
  {
    forall p | p in v.pool ensures !HasRoom(v.slots, p.id, v.now, v.lim) {
      var i :| 0 <= i < |v.pool| && v.pool[i] == p;
      var k := EverybodyHasATurn(v, i);
      assert !HasRoom(v.slots, AtTurn(v, k).id, v.now, v.lim);
    }
  }

  /** Stickiness: the pick is the preferred exit if and only if that is usable and has room; the
      round robin never comes to it otherwise. */
  lemma PreferredExactly(v: View, prefer: nat, r: Option<Proxy>)
    requires prefer > 0 && PickedByRule(v, prefer, r)
    ensures (r.Some? && r.value.id == prefer) <==> exists p :: Preferred(v, prefer, p)
    ensures (exists p :: Preferred(v, prefer, p)) <==> r.Some? && Preferred(v, prefer, r.value)
  {
    if !(exists p :: Preferred(v, prefer, p)) && r.Some? {
      var k :| 0 <= k < |v.pool| && r.value == AtTurn(v, k) && FirstWithRoom(v, k);
      assert r.value in v.pool;
      assert !Preferred(v, prefer, r.value);
    }
  }

  /** The list has this proxy, and it may be used. */
  ghost predicate CanUse(cache: seq<Proxy>, id: nat, now: int, cooldownMin: int) {
    exists p :: p in cache && Usable(p, now, cooldownMin) && p.id == id
  }

  lemma PreferredIsPicked(v: View, prefer: nat, r: Option<Proxy>, cache: seq<Proxy>, cooldownMin: int)
    requires PickedByRule(v, prefer, r) && v.pool == UsablePool(cache, v.now, cooldownMin)
    requires prefer > 0 && HasRoom(v.slots, prefer, v.now, v.lim) && CanUse(cache, prefer, v.now, cooldownMin)
    ensures r.Some? && r.value.id == prefer
  {
    var p :| p in cache && Usable(p, v.now, cooldownMin) && p.id == prefer;
    assert Preferred(v, prefer, p);
  }

  /** Where the cursor is after a pick: it moves exactly if the round robin was used. */
  function NextCursor(v: View, prefer: nat, r: Option<Proxy>): nat {
    v.cursor + if v.pool == [] || (r.Some? && Preferred(v, prefer, r.value)) then 0 else 1
  }

  predicate RoomEverywhere(v: View) {
    forall i :: 0 <= i < |v.pool| ==> HasRoom(v.slots, v.pool[i].id, v.now, v.lim)
  }

  predicate DistinctPool(pool: seq<Proxy>) {
    forall a, b :: 0 <= a < b < |pool| ==> pool[a] != pool[b]
  }

  /** Within one turn two places are two proxies. */
  lemma TurnsDiffer(v: View, i: nat, j: nat)
    requires i < j < |v.pool| && DistinctPool(v.pool)
    ensures AtTurn(v, i) != AtTurn(v, j)
  {
    StepsDiffer(v.cursor, i, j, |v.pool|);
  }

  lemma StepsDiffer(cursor: nat, i: nat, j: nat, n: nat)
    requires i < j < n
    ensures (cursor + i) % n != (cursor + j) % n
  {
    var c := cursor % n;
    ModPlus(cursor, i, n);
    ModPlus(cursor, j, n);
    TurnIndex(c, i, n);
    TurnIndex(c, j, n);
  }

  /** With room everywhere and nobody preferred, the proxy at the cursor is picked. */
  lemma PickAtCursor(v: View, r: Option<Proxy>)
    requires v.pool != [] && RoomEverywhere(v) && PickedByRule(v, 0, r)
    ensures r == Some(AtTurn(v, 0)) && NextCursor(v, 0, r) == v.cursor + 1
  {
    var n := |v.pool|;
    assert HasRoom(v.slots, AtTurn(v, 0).id, v.now, v.lim);
    hide HasRoom;
    assert forall p :: !Preferred(v, 0, p);
    if r.Some? {
      var k :| 0 <= k < n && r.value == AtTurn(v, k) && FirstWithRoom(v, k);
      assert k == 0;
    }
  }

  /** A run of picks without preference: whatever else happens to the slots in between, as long
      as the pool stays and everybody has room before each pick. */
  ghost predicate PlainPicks(views: seq<View>, picks: seq<Option<Proxy>>, pool: seq<Proxy>) {
    && |views| == |picks|
    && (forall k :: 0 <= k < |views| ==>
          views[k].pool == pool && RoomEverywhere(views[k]) && PickedByRule(views[k], 0, picks[k]))
    && forall k :: 0 <= k < |views| - 1 ==> views[k + 1].cursor == NextCursor(views[k], 0, picks[k])
  }

  lemma {:induction false} CursorOfPick(views: seq<View>, picks: seq<Option<Proxy>>, pool: seq<Proxy>, i: nat, d: nat)
    requires PlainPicks(views, picks, pool) && pool != [] && i + d < |views|
    ensures views[i + d].cursor == views[i].cursor + d
    ensures picks[i + d] == Some(AtTurn(views[i], d))
    decreases d
  {
    hide PlainPicks, AtTurn, PickedByRule, RoomEverywhere;
    PlainStep(views, picks, pool, i);
    PlainStep(views, picks, pool, i + d);
    if d > 0 {
      CursorOfPick(views, picks, pool, i, d - 1);
      PlainStep(views, picks, pool, i + (d - 1));
    }
    SameTurn(views[i], views[i + d], d);
  }

  /** One pick of such a run: the proxy at the cursor, which then moves by one. */
  lemma PlainStep(views: seq<View>, picks: seq<Option<Proxy>>, pool: seq<Proxy>, k: nat)
    requires PlainPicks(views, picks, pool) && pool != [] && k < |views|
    ensures |picks| == |views| && views[k].pool == pool
    ensures picks[k] == Some(AtTurn(views[k], 0))
    ensures k + 1 < |views| ==> views[k + 1].cursor == views[k].cursor + 1
  {
    hide AtTurn, PickedByRule, RoomEverywhere;
    PickAtCursor(views[k], picks[k]);
  }

  lemma SameTurn(a: View, b: View, d: nat)
    requires a.pool == b.pool != [] && b.cursor == a.cursor + d
    ensures AtTurn(b, 0) == AtTurn(a, d)
  {
    assert b.cursor + 0 == a.cursor + d;
  }

  predicate TwoProxies(a: Option<Proxy>, b: Option<Proxy>) {
    a.Some? && b.Some? && a != b
  }

  lemma TwoPicksDiffer(views: seq<View>, picks: seq<Option<Proxy>>, pool: seq<Proxy>, i: nat, j: nat)
    requires PlainPicks(views, picks, pool) && DistinctPool(pool) && pool != []
    requires i < j < |picks| && j - i < |pool|
    ensures TwoProxies(picks[i], picks[j])
  {
    PlainPool(views, picks, pool, i);
    CursorOfPick(views, picks, pool, i, 0);
    CursorOfPick(views, picks, pool, i, j - i);
    hide PlainPicks;
    TurnsDiffer(views[i], 0, j - i);
  }

  /** The picks from `i` on come to `p` within `n`. */
  predicate Meets(picks: seq<Option<Proxy>>, i: nat, n: nat, p: Proxy) {
    i + n <= |picks| && Some(p) in picks[i..i + n]
  }

  lemma EverybodyIsMet(views: seq<View>, picks: seq<Option<Proxy>>, pool: seq<Proxy>, i: nat, p: Proxy)
    requires PlainPicks(views, picks, pool) && i + |pool| <= |picks| && p in pool
    ensures Meets(picks, i, |pool|, p)
  {
    PlainPool(views, picks, pool, i);
    hide PlainPicks, AtTurn;
    var m :| 0 <= m < |pool| && pool[m] == p;
    var k := EverybodyHasATurn(views[i], m);
    CursorOfPick(views, picks, pool, i, k);
    assert picks[i..i + |pool|][k] == picks[i + k];
  }

  /** Consecutive picks visit the whole pool before any proxy is picked again, over any run:
      picks less than a pool apart differ, and any |pool| consecutive ones meet everybody. */
  lemma RoundRobinSpreads(views: seq<View>, picks: seq<Option<Proxy>>, pool: seq<Proxy>)
    requires PlainPicks(views, picks, pool) && DistinctPool(pool) && pool != []
    ensures forall i: nat, j: nat :: i < j < |picks| && j - i < |pool| ==> TwoProxies(picks[i], picks[j])
    ensures forall i: nat, p :: i + |pool| <= |picks| && p in pool ==> Meets(picks, i, |pool|, p)
  {
    forall i: nat, j: nat | i < j < |picks| && j - i < |pool| ensures TwoProxies(picks[i], picks[j]) {
      TwoPicksDiffer(views, picks, pool, i, j);
    }
    forall i: nat, p | i + |pool| <= |picks| && p in pool ensures Meets(picks, i, |pool|, p) {
      EverybodyIsMet(views, picks, pool, i, p);
    }
  }

  lemma PlainPool(views: seq<View>, picks: seq<Option<Proxy>>, pool: seq<Proxy>, i: nat)
    requires PlainPicks(views, picks, pool) && i < |picks|
    ensures |views| == |picks| && views[i].pool == pool
  {
  }

  lemma TurnIndex(c: nat, i: nat, n: nat)
    requires c < n && i < n
    ensures (c + i) % n == if c + i < n then c + i else c + i - n
  {
    if c + i < n {
      ModSmall(c + i, n);
    } else {
      ModOnce(c + i - n, n);
      ModSmall(c + i - n, n);
    }
  }

  /** What a pick does to the limiter slots: at most the picked exit is charged, once; any other
      slot was at most asked, and refused. */
  ghost predicate OneLease(before: map<nat, Slot>, after: map<nat, Slot>, picked: Option<nat>, now: int, lim: Limits) {
    && (picked.Some? ==> HasRoom(before, picked.value, now, lim)
                         && SlotOf(after, picked.value) == AfterTry(SlotOf(before, picked.value), now, lim))
    && forall id: nat :: picked != Some(id) ==> Untouched(before, after, id, now, lim)
  }

  ghost predicate Untouched(before: map<nat, Slot>, after: map<nat, Slot>, id: nat, now: int, lim: Limits) {
    || SlotOf(after, id) == SlotOf(before, id)
    || (!HasRoom(before, id, now, lim) && SlotOf(after, id) == AfterTry(SlotOf(before, id), now, lim))
  }

  /** In numbers: exactly one lease more on the picked exit, and none on any other. */
  lemma OneLeaseCounts(before: map<nat, Slot>, after: map<nat, Slot>, picked: Option<nat>, now: int, lim: Limits, id: nat)
    requires OneLease(before, after, picked, now, lim)
    ensures SlotOf(after, id).inflight == SlotOf(before, id).inflight + if picked == Some(id) then 1 else 0
  {
    if picked != Some(id) {
      assert Untouched(before, after, id, now, lim);
    }
  }

  ghost predicate NoLease(before: map<nat, Slot>, after: map<nat, Slot>, now: int, lim: Limits) {
    forall id: nat :: Untouched(before, after, id, now, lim)
  }

  /** What `acquireSlot` returns: an exit, the host's own address, or the limit that was reached,
      of the pool (-1) or of the host's own slot (0). */
  datatype Acquired = Exit(proxy: Proxy) | Direct | Refused(reason: Verdict, proxyId: int)

  /** The rule of `acquireSlot`, which asks the list whether there are proxies. */
  ghost predicate AcquiredByRule(list: seq<Proxy>, v: View, prefer: nat, fallbackDirect: bool, r: Acquired) {
    if r.Exit? then
      list != [] && PickedByRule(v, prefer, Some(r.proxy))
    else
      && (list != [] ==> PickedByRule(v, prefer, None))
      && if list != [] && !fallbackDirect then r == Refused(Rph, -1)
         else if HasRoom(v.slots, DIRECT, v.now, v.lim) then r == Direct
         else r == Refused(VerdictOf(SlotOf(v.slots, DIRECT), v.now, v.lim), DIRECT)
  }

  /** Exactly when a request leaves from the host's own address. */
  lemma DirectExactly(list: seq<Proxy>, v: View, prefer: nat, fallbackDirect: bool, r: Acquired)
    requires AcquiredByRule(list, v, prefer, fallbackDirect, r)
    ensures r == Direct <==>
            && HasRoom(v.slots, DIRECT, v.now, v.lim)
            && (list == [] ||
                (fallbackDirect && forall p :: p in v.pool ==> !HasRoom(v.slots, p.id, v.now, v.lim)))
  {
    hide HasRoom;
    if list != [] {
      if !r.Exit? {
        PickFailsOnlyWhenFull(v, prefer);
      } else {
        PickedHasRoom(v, prefer, r.proxy);
      }
    }
  }

  lemma PickedHasRoom(v: View, prefer: nat, p: Proxy)
    requires PickedByRule(v, prefer, Some(p))
    ensures p in v.pool && HasRoom(v.slots, p.id, v.now, v.lim)
  {
  }

  // ---------------------------------------------------------------- the list and the table over time

  /** What can happen to table and list while the process lives: a reload that works or not, a
      change of the table followed by such a reload, and a request result. */
  datatype Event =
    | Reload(readOk: bool)
    | Edit(after: seq<Proxy>, readOk: bool)
    | Result(id: nat, outcome: Outcome)

  datatype Memory = Memory(table: seq<Proxy>, list: seq<Proxy>)

  function Happens(m: Memory, e: Event): Memory {
    match e
    case Reload(ok) => m.(list := if ok then m.table else m.list)
    case Edit(after, ok) => Memory(after, if ok then after else m.list)
    case Result(id, o) =>
      Memory(UpdateRow(m.table, id, p => Recorded(p, o.success, o.err, o.at)),
             UpdateRow(m.list, id, p => Recorded(p, o.success, o.err, o.at)))
  }

  function HappenAll(m: Memory, es: seq<Event>): Memory
    decreases |es|
  {
    if es == [] then m else Happens(HappenAll(m, es[..|es| - 1]), es[|es| - 1])
  }

  predicate Reloads(e: Event) {
    (e.Reload? || e.Edit?) && e.readOk
  }

  /** The last successful reload is the one at `k`, none of these events is one before it. */
  predicate LastReload(es: seq<Event>, k: nat) {
    k < |es| && Reloads(es[k]) && forall i :: k < i < |es| ==> !Reloads(es[i])
  }

  /** The table just after event `k`. */
  function TableAt(m: Memory, es: seq<Event>, k: nat): seq<Proxy>
    requires k < |es|
  {
    HappenAll(m, es[..k + 1]).table
  }

  /** The list is never shortened by a failing read: it is empty exactly if no reload has worked
      since the start, or the table was empty at the last one that did. */
  lemma {:induction false} ListEmptyExactly(m: Memory, es: seq<Event>)
    requires m.list == []
    ensures HappenAll(m, es).list == [] <==> forall k: nat :: LastReload(es, k) ==> TableAt(m, es, k) == []
    decreases |es|
  {
    if es != [] {
      var last := |es| - 1;
      var front := es[..last];
      ListEmptyExactly(m, front);
      assert es[..last + 1] == es;
      if Reloads(es[last]) {
        OnlyLastReload(es);
        assert TableAt(m, es, last) == HappenAll(m, es).table == HappenAll(m, es).list;
        assert LastReload(es, last);
      } else {
        SameLastReload(es);
        assert HappenAll(m, es).list == [] <==> HappenAll(m, front).list == [];
        hide LastReload;
        forall k: nat | LastReload(es, k) ensures LastReload(front, k) && TableAt(m, front, k) == TableAt(m, es, k) {
          assert front[..k + 1] == es[..k + 1];
        }
      }
    }
  }

  lemma OnlyLastReload(es: seq<Event>)
    requires es != [] && Reloads(es[|es| - 1])
    ensures forall k: nat :: LastReload(es, k) <==> k == |es| - 1
  {
  }

  lemma SameLastReload(es: seq<Event>)
    requires es != [] && !Reloads(es[|es| - 1])
    ensures forall k: nat :: LastReload(es, k) <==> LastReload(es[..|es| - 1], k)
    ensures forall k: nat :: LastReload(es, k) ==> k < |es| - 1
  {
    var front := es[..|es| - 1];
    forall k: nat ensures LastReload(es, k) <==> LastReload(front, k) {
      assert forall i :: 0 <= i < |front| ==> front[i] == es[i];
    }
  }

  /** From the last successful reload on, results leave the list equal to the table as long as
      the table is not edited; and a successful reload always restores that. */
  lemma {:induction false} ListIsTable(m: Memory, es: seq<Event>, k: nat)
    requires LastReload(es, k) && forall i :: k < i < |es| ==> !es[i].Edit?
    ensures HappenAll(m, es).list == HappenAll(m, es).table
    decreases |es|
  {
    var last := |es| - 1;
    if k < last {
      SameLastReload(es);
      assert forall i :: 0 <= i < last ==> es[..last][i] == es[i];
      ListIsTable(m, es[..last], k);
    }
  }

  /** A table with proxies, a first load that failed and room in the host's own slot: with the
      fallback switched off the request still leaves from the host's own address. */
  lemma FailedFirstLoadExposesHost(p: Proxy, now: int, lim: Limits, r: Acquired)
    requires lim.concurrent > 0 && lim.rpm > 0 && lim.rph > 0
    requires var list := HappenAll(Memory([p], []), [Reload(false)]).list;
             AcquiredByRule(list, View(UsablePool(list, now, 0), map[], 0, now, lim), 0, false, r)
    ensures HappenAll(Memory([p], []), [Reload(false)]).table == [p]
    ensures r == Direct
  {
    var es := [Reload(false)];
    assert es[..0] == [] && HappenAll(Memory([p], []), []) == Memory([p], []);
    assert HappenAll(Memory([p], []), es) == Memory([p], []);
    assert VerdictOf(EMPTY_SLOT, now, lim) == Granted;
  }

  // ---------------------------------------------------------------- leases over time

  /** A request that took a lease or none, one that gives its lease back, and a look at the usage
      of one exit. */
  datatype LeaseOp = Took(picked: Option<nat>, now: int) | Gave(id: nat) | Read(readId: nat, readAt: int)

  ghost predicate LeaseStep(before: map<nat, Slot>, op: LeaseOp, after: map<nat, Slot>, lim: Limits) {
    match op
    case Took(picked, now) => OneLease(before, after, picked, now, lim)
    case Gave(id) => after == before[id := AfterRelease(SlotOf(before, id))]
    case Read(id, now) => after == before[id := PruneSlot(SlotOf(before, id), now)]
  }

  function Taken(ops: seq<LeaseOp>, id: nat): nat {
    if ops == [] then 0
    else Taken(ops[..|ops| - 1], id) + if ops[|ops| - 1].Took? && ops[|ops| - 1].picked == Some(id) then 1 else 0
  }

  function Given(ops: seq<LeaseOp>, id: nat): nat {
    if ops == [] then 0
    else Given(ops[..|ops| - 1], id) + if ops[|ops| - 1] == Gave(id) then 1 else 0
  }

  /** A run of requests and releases, from empty slots; only leases that are out come back. */
  ghost predicate LeaseRun(states: seq<map<nat, Slot>>, ops: seq<LeaseOp>, lim: Limits) {
    && |states| == |ops| + 1 && states[0] == map[]
    && (forall k :: 0 <= k < |ops| ==> LeaseStep(states[k], ops[k], states[k + 1], lim))
    && forall k :: 0 <= k < |ops| && ops[k].Gave? ==> Given(ops[..k], ops[k].id) < Taken(ops[..k], ops[k].id)
  }

  // ---------------------------------------------------------------- windows over time

  /** When the leases of an exit were taken. */
  function GrantsOf(ops: seq<LeaseOp>, id: nat): (r: seq<int>)
    ensures |r| == Taken(ops, id)
  {
    if ops == [] then []
    else
      var last := ops[|ops| - 1];
      GrantsOf(ops[..|ops| - 1], id) + if last.Took? && last.picked == Some(id) then [last.now] else []
  }

  /** The clock behind these steps, when it showed `start` at first. */
  function ClockAfter(ops: seq<LeaseOp>, start: int): int {
    if ops == [] then start
    else
      match ops[|ops| - 1]
      case Took(_, now) => now
      case Gave(_) => ClockAfter(ops[..|ops| - 1], start)
      case Read(_, now) => now
  }

  /** The clock does not go back. */
  predicate Clocked(ops: seq<LeaseOp>, start: int) {
    ops == [] ||
    (Clocked(ops[..|ops| - 1], start) && ClockAfter(ops[..|ops| - 1], start) <= ClockAfter(ops, start))
  }

  /** `w` is the history of one exit's slot. */
  ghost predicate HistoryOf(w: World, slot: Slot, grants: seq<int>, released: nat, clock: int, lim: Limits) {
    && Inv(w) && Bounded(w, lim)
    && w.slot == slot && w.grants == grants && w.released == released && w.clock == clock
  }

  lemma ClockMoves(w: World, now: int)
    requires Inv(w) && w.clock <= now
    ensures Inv(w.(clock := now))
  {
  }

  lemma NothingTaken(clock: int, lim: Limits)
    ensures HistoryOf(World(EMPTY_SLOT, [], [], 0, clock), EMPTY_SLOT, [], 0, clock, lim)
  {
  }

  /** A request that asked, or passed by, this exit. */
  lemma TakeInHistory(w: World, before: map<nat, Slot>, after: map<nat, Slot>, picked: Option<nat>, now: int, lim: Limits,
                      id: nat) returns (next: World)
    requires HistoryOf(w, SlotOf(before, id), w.grants, w.released, w.clock, lim) && w.clock <= now
    requires OneLease(before, after, picked, now, lim)
    ensures HistoryOf(next, SlotOf(after, id), w.grants + (if picked == Some(id) then [now] else []), w.released, now, lim)
  {
    hide Inv, Bounded, VerdictOf, AfterTry;
    assert picked != Some(id) ==> Untouched(before, after, id, now, lim);
    assert w.grants + [] == w.grants;
    if picked != Some(id) && SlotOf(after, id) == SlotOf(before, id) {
      ClockMoves(w, now);
      next := w.(clock := now);
      SameBounds(w, next, lim);
    } else {
      next := Step(w, Try(now), lim);
      StepKeepsInv(w, Try(now), lim);
      StepKeepsBounds(w, Try(now), lim);
    }
  }

  lemma SameBounds(a: World, b: World, lim: Limits)
    requires Bounded(a, lim) && a.grants == b.grants && a.released == b.released
    ensures Bounded(b, lim)
  {
  }

  /** Every exit's slot has a history like that of a slot on its own, over any run. */
  lemma {:induction false} ExitHistory(states: seq<map<nat, Slot>>, ops: seq<LeaseOp>, lim: Limits, id: nat, start: int)
    returns (w: World)
    requires LeaseRun(states, ops, lim) && Clocked(ops, start)
    ensures |states| == |ops| + 1
    ensures HistoryOf(w, SlotOf(states[|ops|], id), GrantsOf(ops, id), Given(ops, id), ClockAfter(ops, start), lim)
    decreases |ops|
  {
    hide LeaseRun, OneLease, HistoryOf, AfterRelease, PruneSlot;
    RunLength(states, ops, lim);
    if ops == [] {
      NoSlotsYet(states, lim, id);
      w := World(EMPTY_SLOT, [], [], 0, start);
      NothingTaken(start, lim);
    } else {
      var front, last, before := ops[..|ops| - 1], ops[|ops| - 1], states[|ops| - 1];
      LeaseRunFront(states, ops, lim);
      w := ExitHistory(states[..|ops|], front, lim, id, start);
      assert states[..|ops|][|ops| - 1] == before;
      assert GrantsOf(front, id) + [] == GrantsOf(front, id);
      HistoryFields(w, SlotOf(before, id), GrantsOf(front, id), Given(front, id), ClockAfter(front, start), lim);
      match last
      case Took(picked, now) =>
        w := TakeInHistory(w, before, states[|ops|], picked, now, lim, id);
      case Gave(other) =>
        if other == id {
          w := StepInHistory(w, Release, lim);
        }
      case Read(other, now) =>
        if other == id {
          w := StepInHistory(w, Usage(now), lim);
        } else {
          w := PassInHistory(w, now, lim);
        }
    }
  }

  lemma HistoryFields(w: World, slot: Slot, grants: seq<int>, released: nat, clock: int, lim: Limits)
    requires HistoryOf(w, slot, grants, released, clock, lim)
    ensures w.slot == slot && w.grants == grants && w.released == released && w.clock == clock
  {
  }

  lemma StepInHistory(w: World, op: Op, lim: Limits) returns (next: World)
    requires HistoryOf(w, w.slot, w.grants, w.released, w.clock, lim) && Allowed(w, op) && !op.Try?
    ensures next == Step(w, op, lim)
    ensures HistoryOf(next, next.slot, next.grants, next.released, next.clock, lim)
  {
    hide Inv, Bounded;
    next := Step(w, op, lim);
    StepKeepsInv(w, op, lim);
    StepKeepsBounds(w, op, lim);
  }

  lemma PassInHistory(w: World, now: int, lim: Limits) returns (next: World)
    requires HistoryOf(w, w.slot, w.grants, w.released, w.clock, lim) && w.clock <= now
    ensures next == w.(clock := now) && HistoryOf(next, next.slot, next.grants, next.released, next.clock, lim)
  {
    hide Inv, Bounded;
    next := w.(clock := now);
    ClockMoves(w, now);
    SameBounds(w, next, lim);
  }

  lemma NoSlotsYet(states: seq<map<nat, Slot>>, lim: Limits, id: nat)
    requires LeaseRun(states, [], lim)
    ensures SlotOf(states[0], id) == EMPTY_SLOT
  {
  }

  /** Over any run of requests, releases and usage reads with a clock that does not go back, no
      closed window of 60 (3600) seconds holds more leases of any exit than its limit. */
  lemma WindowsHoldPerExit(states: seq<map<nat, Slot>>, ops: seq<LeaseOp>, lim: Limits, id: nat, start: int)
    requires LeaseRun(states, ops, lim) && Clocked(ops, start)
    ensures lim.rpm > 0 ==> forall t: int :: |LastMinute(GrantsOf(ops, id), t)| <= lim.rpm
    ensures lim.rph > 0 ==> forall t: int :: |LastHour(GrantsOf(ops, id), t)| <= lim.rph
  {
    var w := ExitHistory(states, ops, lim, id, start);
    var grants := GrantsOf(ops, id);
    hide LeaseRun, Clocked, GrantsOf, LastMinute, LastHour, InWindow;
    forall t: int
      ensures lim.rpm > 0 ==> |LastMinute(grants, t)| <= lim.rpm
      ensures lim.rph > 0 ==> |LastHour(grants, t)| <= lim.rph
    {
      WindowsAreCounted(grants, t);
      assert lim.rpm > 0 ==> InWindow(grants, MINUTE, t) <= lim.rpm;
      assert lim.rph > 0 ==> InWindow(grants, HOUR, t) <= lim.rph;
    }
  }

  lemma LeaseRunFront(states: seq<map<nat, Slot>>, ops: seq<LeaseOp>, lim: Limits)
    requires LeaseRun(states, ops, lim) && ops != []
    ensures LeaseRun(states[..|ops|], ops[..|ops| - 1], lim)
    ensures LeaseStep(states[|ops| - 1], ops[|ops| - 1], states[|ops|], lim)
    ensures var last := ops[|ops| - 1];
            last.Gave? ==> Given(ops[..|ops| - 1], last.id) < Taken(ops[..|ops| - 1], last.id)
  {
    hide LeaseStep, Given, Taken;
    var front := ops[..|ops| - 1];
    forall k | 0 <= k < |front| ensures LeaseStep(states[..|ops|][k], front[k], states[..|ops|][k + 1], lim) {
      assert LeaseStep(states[k], ops[k], states[k + 1], lim);
    }
    forall k | 0 <= k < |front| && front[k].Gave? ensures Given(front[..k], front[k].id) < Taken(front[..k], front[k].id) {
      assert front[..k] == ops[..k] && front[k] == ops[k];
    }
    var k := |ops| - 1;
    assert ops[k].Gave? ==> Given(ops[..k], ops[k].id) < Taken(ops[..k], ops[k].id);
  }

  /** Over any run every exit's `inflight` is the number of its leases taken and not given back,
      and it never exceeds the concurrency limit. */
  lemma {:induction false} LeasesAreAccountedFor(states: seq<map<nat, Slot>>, ops: seq<LeaseOp>, lim: Limits, id: nat)
    requires LeaseRun(states, ops, lim)
    ensures |states| == |ops| + 1
    ensures var s := SlotOf(states[|ops|], id);
            && s.inflight == Taken(ops, id) - Given(ops, id)
            && (lim.concurrent > 0 ==> s.inflight <= lim.concurrent)
    decreases |ops|
  {
    hide LeaseRun, OneLease;
    RunLength(states, ops, lim);
    if ops == [] {
      NoLeasesYet(states, lim, id);
    } else {
      var before, last := states[|ops| - 1], ops[|ops| - 1];
      LeaseRunFront(states, ops, lim);
      LeasesAreAccountedFor(states[..|ops|], ops[..|ops| - 1], lim, id);
      assert states[..|ops|][|ops| - 1] == before;
      if last.Took? {
        OneLeaseCounts(before, states[|ops|], last.picked, last.now, lim, id);
        LeaseHadRoom(before, states[|ops|], last.picked, last.now, lim);
      }
    }
  }

  lemma NoLeasesYet(states: seq<map<nat, Slot>>, lim: Limits, id: nat)
    requires LeaseRun(states, [], lim)
    ensures SlotOf(states[0], id).inflight == 0
  {
  }

  lemma RunLength(states: seq<map<nat, Slot>>, ops: seq<LeaseOp>, lim: Limits)
    requires LeaseRun(states, ops, lim)
    ensures |states| == |ops| + 1
  {
  }

  lemma LeaseHadRoom(before: map<nat, Slot>, after: map<nat, Slot>, picked: Option<nat>, now: int, lim: Limits)
    requires OneLease(before, after, picked, now, lim)
    ensures picked.Some? && lim.concurrent > 0 ==> SlotOf(before, picked.value).inflight < lim.concurrent
  {
  }

  // ---------------------------------------------------------------- the pool

  class Pool {
    var table: seq<Proxy>
    var nextId: nat
    var cache: seq<Proxy>
    var slots: map<nat, Slot>
    var cursor: nat
    var seededUrl: string
    var seededId: Option<nat>

    /** Table and list have the keys of one table; the list may lag behind. */
    ghost predicate Valid()
      reads this
    {
      Keyed(table, nextId) && Keyed(cache, nextId)
    }

    /** The in-memory list is the table. */
    ghost predicate Synced()
      reads this
    {
      Valid() && cache == table
    }

    function Stored(): Store
      reads this
    {
      Store(table, nextId, seededUrl, seededId)
    }

    /** A new process has an empty list, whatever the table holds. */
    constructor (stored: Store)
      requires Keyed(stored.table, stored.nextId)
      ensures Valid() && Stored() == stored && cache == [] && slots == map[] && cursor == 0
    {
      table, nextId, cache, slots, cursor := stored.table, stored.nextId, [], map[], 0;
      seededUrl, seededId := stored.seededUrl, stored.seededId;
    }

    /** `loadProxies`: a read that breaks off leaves the list as it was, never shortened; one that
        succeeds makes up for all that went before. */
    method LoadProxies(readOk: bool)
      requires Valid()
      modifies `cache
      ensures Valid() && (readOk ==> Synced())
      ensures cache == if readOk then table else old(cache)
    {
      if readOk {
        cache := table;
      }
    }

    /** `recordProxyResult`: one row of the table, and the same row of the list without reading
        the table again.  Id 0 is the direct exit and has no row. */
    method RecordResult(id: nat, success: bool, err: string, now: int)
      requires Valid()
      modifies `table, `cache
      ensures Valid()
      ensures id != DIRECT ==> && table == UpdateRow(old(table), id, p => Recorded(p, success, err, now))
                               && cache == UpdateRow(old(cache), id, p => Recorded(p, success, err, now))
      ensures id == DIRECT ==> table == old(table) && cache == old(cache)
      ensures |table| == |old(table)| && forall i :: 0 <= i < |table| ==>
                if id != 0 && old(table)[i].id == id then Records(old(table)[i], success, err, now, table[i])
                else table[i] == old(table)[i]
      ensures |cache| == |old(cache)| && forall i :: 0 <= i < |cache| ==>
                if id != 0 && old(cache)[i].id == id then Records(old(cache)[i], success, err, now, cache[i])
                else cache[i] == old(cache)[i]
    {
      if id == DIRECT {
        return;
      }
      ghost var was := cache;
      table := UpdateRow(table, id, p => Recorded(p, success, err, now));
      for i := 0 to |cache|
        invariant cache == was && forall j :: 0 <= j < i ==> was[j].id != id
      {
        if cache[i].id == id {
          cache := cache[i := Recorded(cache[i], success, err, now)];
          break;
        }
      }
      assert cache == UpdateRow(was, id, p => Recorded(p, success, err, now));
    }

    /** A new row, unless it is refused.  Afterwards the list is the table exactly if it could be
        read, or if it was before and nothing changed. */
    method ProxyCreate(name: string, url: string, weight: int, readOk: bool) returns (r: Option<nat>)
      requires Valid()
      modifies `table, `nextId, `cache
      ensures Valid()
      ensures r.Some? <==> name != "" && AcceptedUrl(url)
      ensures r.Some? ==> r.value == old(nextId) && Stored() == Insert(old(Stored()), name, url, weight)
      ensures r.None? ==> Stored() == old(Stored())
      ensures r.Some? <==> name != "" && (|| BeginsWith(url, "http://") || BeginsWith(url, "https://")
                                          || BeginsWith(url, "socks5://") || BeginsWith(url, "socks5h://"))
      ensures r.Some? ==> table == old(table) + [Proxy(old(nextId), name, url, true, if weight <= 0 then 1 else weight, 0, 0, "")]
      ensures cache == if r.Some? && readOk then table else old(cache)
      ensures old(Synced()) ==> (Synced() <==> readOk || table == old(table))
    {
      AcceptedMeans(url);
      hide BeginsWith;
      if name == "" || url == "" {
        assert |url| == 0 ==> !AcceptedUrl(url);
        return None;
      }
      if !AcceptedUrl(url) {
        return None;
      }
      InsertKeepsKeyed(table, nextId, Created(nextId, name, url, weight));
      assert Keyed(cache, nextId + 1);
      r := Some(nextId);
      table := table + [Created(nextId, name, url, weight)];
      nextId := nextId + 1;
      LoadProxies(readOk);
    }

    method ProxyUpdate(id: nat, c: Change, readOk: bool)
      requires Valid()
      modifies `table, `cache
      ensures Valid()
      ensures table == UpdateRow(old(table), id, p => Changed(p, c))
      ensures |table| == |old(table)| && forall i :: 0 <= i < |table| ==>
                var p, q := old(table)[i], table[i];
                if p.id != id then q == p
                else && q.name == (if c.name == "" then p.name else c.name) && q.url == (if c.url == "" then p.url else c.url)
                     && q.enabled == (if c.enabled == None then p.enabled else c.enabled.value)
                     && q.weight == (if c.weight == None then p.weight else c.weight.value)
                     && q.id == p.id && q.failCount == p.failCount && q.lastUsed == p.lastUsed && q.lastError == p.lastError
      ensures cache == if readOk && c != NO_CHANGE then table else old(cache)
      ensures old(Synced()) ==> (Synced() <==> readOk || table == old(table))
    {
      if c == NO_CHANGE {
        return;
      }
      table := UpdateRow(table, id, p => Changed(p, c));
      LoadProxies(readOk);
    }

    method ProxyDelete(id: nat, readOk: bool)
      requires Valid()
      modifies `table, `cache
      ensures Valid()
      ensures table == DeleteRow(old(table), id)
      ensures forall p :: p in table <==> p in old(table) && p.id != id
      ensures cache == if readOk then table else old(cache)
      ensures old(Synced()) ==> (Synced() <==> readOk || table == old(table))
    {
      DeleteKeepsKeyed(table, nextId, id);
      table := DeleteRow(table, id);
      LoadProxies(readOk);
    }

    method ProxyResetFailures(id: nat, readOk: bool)
      requires Valid()
      modifies `table, `cache
      ensures Valid()
      ensures table == UpdateRow(old(table), id, p => Reset(p))
      ensures |table| == |old(table)| && forall i :: 0 <= i < |table| ==>
                table[i] == if old(table)[i].id == id then old(table)[i].(failCount := 0, lastError := "") else old(table)[i]
      ensures cache == if readOk then table else old(cache)
      ensures old(Synced()) ==> (Synced() <==> readOk || table == old(table))
    {
      table := UpdateRow(table, id, p => Reset(p));
      LoadProxies(readOk);
    }

    method DropSeededProxy(readOk: bool)
      requires Valid()
      modifies `table, `cache
      ensures Valid()
      ensures Stored() == DropListed(old(Stored()), old(cache))
      ensures cache == ListAfterDrop(old(Stored()), old(cache), readOk)
    {
      if seededId == None || seededUrl == "" {
        return;
      }
      for i := 0 to |cache|
        invariant cache == old(cache) && table == old(table)
        invariant forall j :: 0 <= j < i ==> cache[j].id != seededId.value
      {
        if cache[i].id == seededId.value {
          if cache[i].url == seededUrl {
            ProxyDelete(seededId.value, readOk);
          }
          return;
        }
      }
    }

    method PoolHasProxyUrl(url: string) returns (r: bool)
      ensures r == HasUrl(cache, url)
    {
      for i := 0 to |cache|
        invariant forall j :: 0 <= j < i ==> cache[j].url != url
      {
        if cache[i].url == url {
          return true;
        }
      }
      return false;
    }

    method SyncSeededProxy(url: string, dropOk: bool, createOk: bool)
      requires Valid()
      modifies `table, `nextId, `cache, `seededUrl, `seededId
      ensures Valid()
      ensures Stored() == SyncListed(old(Stored()), old(cache), dropOk, url)
      ensures SyncOutcome(old(Stored()), old(cache), dropOk, url, Stored())
      ensures cache == if createOk && nextId > old(nextId) then table
                       else if url == old(seededUrl) then old(cache)
                       else ListAfterDrop(old(Stored()), old(cache), dropOk)
    {
      SyncMeans(Stored(), cache, dropOk, url);
      hide SyncOutcome, BeginsWith;
      hide Keyed, AcceptedUrl, StillListed;
      if url == seededUrl {
        return;
      }
      DropSeededProxy(dropOk);
      if url == "" {
        seededUrl, seededId := "", None;
        return;
      }
      var has := PoolHasProxyUrl(url);
      if has {
        seededUrl, seededId := url, None;
        return;
      }
      var id := ProxyCreate(SEED_NAME, url, 1, createOk);
      if id == None {
        return;
      }
      seededUrl, seededId := url, id;
    }

    ghost function ViewAt(now: int, cooldownMin: int, lim: Limits): View
      reads this
    {
      View(UsablePool(cache, now, cooldownMin), slots, cursor, now, lim)
    }

    /** `trySlotAcquire`, on the slot of one exit. */
    method TrySlot(id: nat, now: int, lim: Limits) returns (v: Verdict)
      modifies `slots
      ensures v == VerdictOf(SlotOf(old(slots), id), now, lim)
      ensures slots == old(slots)[id := AfterTry(SlotOf(old(slots), id), now, lim)]
    {
      var s := SlotOf(slots, id);
      v := VerdictOf(s, now, lim);
      slots := slots[id := AfterTry(s, now, lim)];
    }

    /** `releaseSlot` */
    method ReleaseSlot(id: nat)
      modifies `slots
      ensures forall lim :: LeaseStep(old(slots), Gave(id), slots, lim)
    {
      slots := slots[id := AfterRelease(SlotOf(slots, id))];
    }

    /** `slotUsage` of one exit. */
    method ReadSlot(id: nat, now: int) returns (conc: nat, rpm: nat, rph: nat)
      modifies `slots
      ensures forall lim :: LeaseStep(old(slots), Read(id, now), slots, lim)
      ensures var s := SlotOf(slots, id); conc == s.inflight && rpm == |s.minuteWin| && rph == |s.hourWin|
    {
      var s := PruneSlot(SlotOf(slots, id), now);
      slots := slots[id := s];
      return s.inflight, |s.minuteWin|, |s.hourWin|;
    }

    /** Ask one more slot, when no lease has been taken since `before`. */
    method TryFresh(ghost before: map<nat, Slot>, id: nat, now: int, lim: Limits) returns (v: Verdict)
      requires NoLease(before, slots, now, lim)
      modifies `slots
      ensures v == VerdictOf(SlotOf(before, id), now, lim)
      ensures OneLease(before, slots, if v == Granted then Some(id) else None, now, lim)
    {
      ghost var asked := slots;
      assert Untouched(before, slots, id, now, lim);
      TryAgain(before, slots, id, now, lim);
      hide VerdictOf, AfterTry;
      v := TrySlot(id, now, lim);
      forall other: nat | v == Granted ==> other != id ensures Untouched(before, slots, other, now, lim) {
        assert Untouched(before, asked, other, now, lim);
      }
    }

    /** The first part of a pick: only the preferred exit is asked. */
    method TryPreferred(pool: seq<Proxy>, prefer: nat, now: int, lim: Limits) returns (r: Option<Proxy>)
      modifies `slots
      ensures r.Some? ==> prefer > 0 && r.value in pool && r.value.id == prefer && HasRoom(old(slots), prefer, now, lim)
      ensures r.None? && prefer > 0 && HasRoom(old(slots), prefer, now, lim) ==>
                forall p :: p in pool ==> p.id != prefer
      ensures OneLease(old(slots), slots, if r.Some? then Some(prefer) else None, now, lim)
    {
      hide VerdictOf, AfterTry;
      assert NoLease(slots, slots, now, lim);
      if prefer > 0 {
        for i := 0 to |pool|
          invariant slots == old(slots)
          invariant forall j :: 0 <= j < i ==> pool[j].id != prefer
        {
          if pool[i].id == prefer {
            var verdict := TryFresh(slots, prefer, now, lim);
            return if verdict == Granted then Some(pool[i]) else None;
          }
        }
      }
      return None;
    }

    /** The second part: everybody in the pool is asked in turn. */
    method RoundRobin(ghost v: View, pool: seq<Proxy>, now: int, lim: Limits) returns (r: Option<Proxy>)
      requires pool != [] && v.pool == pool && v.cursor == cursor && v.now == now && v.lim == lim
      requires NoLease(v.slots, slots, now, lim)
      modifies `slots, `cursor
      ensures cursor == old(cursor) + 1
      ensures r.Some? ==> exists k :: 0 <= k < |pool| && r.value == AtTurn(v, k) && FirstWithRoom(v, k)
      ensures r.None? ==> forall k :: 0 <= k < |pool| ==> !HasRoom(v.slots, AtTurn(v, k).id, now, lim)
      ensures OneLease(v.slots, slots, if r.Some? then Some(r.value.id) else None, now, lim)
    {
      hide VerdictOf, AfterTry, Untouched;
      var start := cursor;
      cursor := cursor + 1;
      for k := 0 to |pool|
        invariant forall i :: 0 <= i < k ==> !HasRoom(v.slots, AtTurn(v, i).id, now, lim)
        invariant NoLease(v.slots, slots, now, lim)
        invariant cursor == start + 1
      {
        var p := pool[(start + k) % |pool|];
        assert p == AtTurn(v, k);
        var verdict := TryFresh(v.slots, p.id, now, lim);
        if verdict == Granted {
          assert FirstWithRoom(v, k);
          return Some(p);
        }
      }
      return None;
    }

    /** `pickProxyPreferring`.  An empty pool leaves the cursor alone, and so does a pick that
        the preference decides. */
    method PickPreferring(prefer: nat, now: int, cooldownMin: int, lim: Limits) returns (r: Option<Proxy>)
      modifies `slots, `cursor
      ensures PickedByRule(old(ViewAt(now, cooldownMin, lim)), prefer, r)
      ensures r.Some? ==> r.value in cache && Usable(r.value, now, cooldownMin)
      ensures OneLease(old(slots), slots, if r.Some? then Some(r.value.id) else None, now, lim)
      ensures cursor == NextCursor(old(ViewAt(now, cooldownMin, lim)), prefer, r)
    {
      hide VerdictOf, AfterTry, Usable;
      ghost var v := ViewAt(now, cooldownMin, lim);
      var pool := FilterUsable(cache, now, cooldownMin);
      if pool == [] {
        return None;
      }
      r := TryPreferred(pool, prefer, now, lim);
      if r.Some? {
        assert Preferred(v, prefer, r.value);
        return;
      }
      assert !exists p :: Preferred(v, prefer, p);
      r := RoundRobin(v, pool, now, lim);
    }

    /** `acquireSlot`: with proxies in the list the host's own address is used only if that
        fallback is switched on. */
    method AcquireSlot(prefer: nat, now: int, cooldownMin: int, lim: Limits, fallbackDirect: bool) returns (r: Acquired)
      modifies `slots, `cursor
      ensures AcquiredByRule(cache, old(ViewAt(now, cooldownMin, lim)), prefer, fallbackDirect, r)
      ensures r.Exit? ==> r.proxy in cache && Usable(r.proxy, now, cooldownMin)
      ensures r.Exit? ==> r.proxy.enabled && (r.proxy.failCount < 5 || (cooldownMin > 0 && now - r.proxy.lastUsed >= 60 * cooldownMin))
      ensures cache != [] && !r.Exit? ==>
                forall p :: p in cache && Usable(p, now, cooldownMin) ==> !HasRoom(old(slots), p.id, now, lim)
      ensures r == Direct <==> && HasRoom(old(slots), 0, now, lim)
                               && (cache == [] || (fallbackDirect && forall p :: p in cache && Usable(p, now, cooldownMin) ==>
                                                                      !HasRoom(old(slots), p.id, now, lim)))
      ensures r.Refused? ==> if cache != [] && !fallbackDirect then r == Refused(Rph, -1)
                             else r.proxyId == 0 && r.reason == VerdictOf(SlotOf(old(slots), 0), now, lim)
      ensures prefer > 0 && HasRoom(old(slots), prefer, now, lim) && CanUse(cache, prefer, now, cooldownMin) ==>
                r.Exit? && r.proxy.id == prefer
      ensures OneLease(old(slots), slots,
                       if r.Exit? then Some(r.proxy.id) else if r.Direct? then Some(DIRECT) else None, now, lim)
      ensures cursor == if cache == [] then old(cursor)
                        else NextCursor(old(ViewAt(now, cooldownMin, lim)), prefer, if r.Exit? then Some(r.proxy) else None)
    {
      hide VerdictOf, AfterTry, Usable, PickedByRule;
      if cache != [] {
        ghost var v := ViewAt(now, cooldownMin, lim);
        var p := PickPreferring(prefer, now, cooldownMin, lim);
        if prefer > 0 && HasRoom(v.slots, prefer, now, lim) && CanUse(cache, prefer, now, cooldownMin) {
          PreferredIsPicked(v, prefer, p, cache, cooldownMin);
        }
        if p.Some? {
          UsableMeans(p.value, now, cooldownMin);
          return Exit(p.value);
        }
        PickFailsOnlyWhenFull(v, prefer);
        if !fallbackDirect {
          return Refused(Rph, -1);
        }
      } else {
        assert NoLease(slots, slots, now, lim);
      }
      var verdict := TryFresh(old(slots), DIRECT, now, lim);
      return if verdict == Granted then Direct else Refused(verdict, DIRECT);
    }
  }

  /** Asking a slot that has only been asked before gives the answer of the first time. */
  lemma TryAgain(before: map<nat, Slot>, after: map<nat, Slot>, id: nat, now: int, lim: Limits)
    requires Untouched(before, after, id, now, lim)
    ensures VerdictOf(SlotOf(after, id), now, lim) == VerdictOf(SlotOf(before, id), now, lim)
    ensures AfterTry(SlotOf(after, id), now, lim) == AfterTry(SlotOf(before, id), now, lim)
  {
    if SlotOf(after, id) != SlotOf(before, id) {
      RefusalIsStable(SlotOf(before, id), now, lim);
    }
  }

  lemma UsablePoolStep(cache: seq<Proxy>, i: nat, now: int, cooldownMin: int)
    requires i < |cache|
    ensures var rest := UsablePool(cache[i + 1..], now, cooldownMin);
            UsablePool(cache[i..], now, cooldownMin) ==
            if Usable(cache[i], now, cooldownMin) then [cache[i]] + rest else rest
  {
    assert cache[i..][1..] == cache[i + 1..];
    var rest := UsablePool(cache[i + 1..], now, cooldownMin);
    assert [] + rest == rest;
  }

  lemma Regroup(a: seq<Proxy>, p: Proxy, b: seq<Proxy>)
    ensures a + ([p] + b) == (a + [p]) + b
  {
  }

  method FilterUsable(cache: seq<Proxy>, now: int, cooldownMin: int) returns (pool: seq<Proxy>)
    ensures pool == UsablePool(cache, now, cooldownMin)
  {
    pool := [];
    assert cache[0..] == cache && UsablePool(cache[|cache|..], now, cooldownMin) == [];
    hide Usable, UsablePool;
    for i := 0 to |cache|
      invariant UsablePool(cache, now, cooldownMin) == pool + UsablePool(cache[i..], now, cooldownMin)
    {
      UsablePoolStep(cache, i, now, cooldownMin);
      if Usable(cache[i], now, cooldownMin) {
        Regroup(pool, cache[i], UsablePool(cache[i + 1..], now, cooldownMin));
        pool := pool + [cache[i]];
      }
    }
  }
}
