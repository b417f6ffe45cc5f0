/** The account (cookie) pool (internal/app/cookie_pool.go): choosing the account for a request,
    keeping its health, and writing refreshed cookies back. */
module AccountPool {
  import opened GoStrings
  import opened CookieJar
  import opened Wrappers

  datatype Account = Account(id: nat, cookie: Text, enabled: bool, lastUsedAt: int, lastOkAt: int,
                             lastError: string, failCount: nat, proxyId: nat)

  ghost predicate DistinctIds(table: seq<Account>) {
    forall i, j :: 0 <= i < j < |table| ==> table[i].id != table[j].id
  }

  // ---------------------------------------------------------------- who is next

  /** `ORDER BY fail_count, last_used_at, id` */
  predicate Before(a: Account, b: Account) {
    || a.failCount < b.failCount
    || (a.failCount == b.failCount && a.lastUsedAt < b.lastUsedAt)
    || (a.failCount == b.failCount && a.lastUsedAt == b.lastUsedAt && a.id < b.id)
  }

  predicate Eligible(a: Account, skip: set<nat>) {
    a.enabled && a.id !in skip
  }

  /** The first row of that order that is not skipped. */
  ghost predicate IsNext(table: seq<Account>, skip: set<nat>, i: nat) {
    && i < |table| && Eligible(table[i], skip)
    && forall j :: 0 <= j < |table| && j != i && Eligible(table[j], skip) ==> Before(table[i], table[j])
  }

  function Next(table: seq<Account>, skip: set<nat>): (r: Option<nat>)
    ensures r.Some? ==> r.value < |table| && Eligible(table[r.value], skip)
    ensures r.None? <==> forall j :: 0 <= j < |table| ==> !Eligible(table[j], skip)
    decreases |table|
  {
    if table == [] then None
    else
      var last := |table| - 1;
      var before := Next(table[..last], skip);
      if Eligible(table[last], skip) && (before.None? || Before(table[last], table[before.value])) then Some(last)
      else
        assert before.None? ==> forall j :: 0 <= j < last ==> !Eligible(table[..last][j], skip);
        before
  }

  lemma {:induction false} NextIsFirst(table: seq<Account>, skip: set<nat>)
    requires DistinctIds(table) && Next(table, skip).Some?
    ensures IsNext(table, skip, Next(table, skip).value)
    decreases |table|
  {
    hide Eligible;
    var last := |table| - 1;
    var front := table[..last];
    if Next(front, skip).Some? {
      NextIsFirst(front, skip);
      var i := Next(front, skip).value;
      assert front[i] == table[i];
      assert table[i].id != table[last].id;
    }
    forall j | 0 <= j < |table| && j != Next(table, skip).value && Eligible(table[j], skip)
      ensures Before(table[Next(table, skip).value], table[j])
    {
      assert j < last ==> front[j] == table[j];
    }
  }

  lemma NextOfNone(skip: set<nat>)
    ensures Next([], skip) == None
  {
  }

  lemma NextOneMore(table: seq<Account>, skip: set<nat>, i: nat)
    requires i < |table|
    ensures var before := Next(table[..i], skip);
            Next(table[..i + 1], skip) ==
            if Eligible(table[i], skip) && (before.None? || Before(table[i], table[before.value])) then Some(i) else before
  {
    assert table[..i + 1][..i] == table[..i];
    assert table[..i + 1][i] == table[i];
  }

  lemma NextIsHealthiest(table: seq<Account>, skip: set<nat>)
    requires DistinctIds(table) && Next(table, skip).Some?
    ensures var r := table[Next(table, skip).value];
            forall b :: b in table && Eligible(b, skip) ==> r.failCount <= b.failCount
  {
    NextIsFirst(table, skip);
    hide Next, Eligible;
  }

  /** Every other enabled row that is not skipped has more failures, or as many and was used
      later, or as many and was used at the same time and has a higher id. */
  ghost predicate ComesFirst(table: seq<Account>, skip: set<nat>, a: Account) {
    forall b :: b in table && b.enabled && b.id !in skip && b.id != a.id ==>
      || a.failCount < b.failCount
      || (a.failCount == b.failCount && a.lastUsedAt < b.lastUsedAt)
      || (a.failCount == b.failCount && a.lastUsedAt == b.lastUsedAt && a.id < b.id)
  }

  lemma NextComesFirst(table: seq<Account>, skip: set<nat>)
    requires DistinctIds(table) && Next(table, skip).Some?
    ensures ComesFirst(table, skip, table[Next(table, skip).value])
  {
    NextIsFirst(table, skip);
    hide Next;
  }

  function Touched(table: seq<Account>, i: nat, now: int): seq<Account>
    requires i < |table|
  {
    table[i := table[i].(lastUsedAt := now)]
  }

  // ---------------------------------------------------------------- fair rotation

  /** The rows picked by requests at these times. */
  function Picks(table: seq<Account>, times: seq<int>): (r: seq<nat>)
    ensures |r| <= |times|
    decreases |times|
  {
    if times == [] then []
    else
      match Next(table, {})
      case None => []
      case Some(i) => [i] + Picks(Touched(table, i, times[0]), times[1..])
  }

  function AfterPicks(table: seq<Account>, times: seq<int>): (r: seq<Account>)
    ensures |r| == |table|
    decreases |times|
  {
    if times == [] then table
    else
      match Next(table, {})
      case None => table
      case Some(i) => AfterPicks(Touched(table, i, times[0]), times[1..])
  }

  predicate EqualHealth(table: seq<Account>) {
    forall i, j :: 0 <= i < |table| && 0 <= j < |table| && table[i].enabled && table[j].enabled ==>
                     table[i].failCount == table[j].failCount
  }

  /** Enabled rows that have not been used since `t`. */
  function Waiting(table: seq<Account>, t: int): set<nat> {
    set i | 0 <= i < |table| && table[i].enabled && table[i].lastUsedAt < t
  }

  function Enabled(table: seq<Account>): set<nat> {
    set i | 0 <= i < |table| && table[i].enabled
  }

  /** No enabled account has been used at or after `t`. */
  predicate UsedBefore(table: seq<Account>, t: int) {
    forall i :: 0 <= i < |table| && table[i].enabled ==> table[i].lastUsedAt < t
  }

  predicate NonDecreasing(times: seq<int>) {
    forall i, j :: 0 <= i < j < |times| ==> times[i] <= times[j]
  }

  ghost predicate AllDistinct(s: seq<nat>) {
    forall i, j :: 0 <= i < j < |s| ==> s[i] != s[j]
  }

  /** As long as somebody is waiting, one of the waiting is picked, and then waits no longer. */
  lemma WaitingServedFirst(table: seq<Account>, t: int, now: int)
    requires DistinctIds(table) && EqualHealth(table) && Waiting(table, t) != {} && t <= now
    ensures Next(table, {}).Some?
    ensures var i := Next(table, {}).value;
            && i in Waiting(table, t)
            && Waiting(Touched(table, i, now), t) == Waiting(table, t) - {i}
            && DistinctIds(Touched(table, i, now)) && EqualHealth(Touched(table, i, now))
  {
    var w :| w in Waiting(table, t);
    assert Eligible(table[w], {});
    NextIsFirst(table, {});
    var i := Next(table, {}).value;
    assert i == w || Before(table[i], table[w]);
  }

  lemma {:induction false} WaitingPicksDistinct(table: seq<Account>, t: int, times: seq<int>)
    requires DistinctIds(table) && EqualHealth(table)
    requires forall k :: 0 <= k < |times| ==> times[k] >= t
    requires |times| <= |Waiting(table, t)|
    ensures |Picks(table, times)| == |times|
    ensures forall k :: 0 <= k < |times| ==> Picks(table, times)[k] in Waiting(table, t)
    ensures AllDistinct(Picks(table, times))
    decreases |times|
  {
    hide Next, Waiting, EqualHealth, DistinctIds;
    if times != [] {
      WaitingServedFirst(table, t, times[0]);
      var i := Next(table, {}).value;
      WaitingPicksDistinct(Touched(table, i, times[0]), t, times[1..]);
      assert forall k :: 1 <= k < |times| ==> Picks(table, times)[k] == Picks(Touched(table, i, times[0]), times[1..])[k - 1];
    }
  }

  /** With equally healthy accounts, none used since before the first pick, n picks over n
      enabled accounts go to n different accounts. */
  lemma FirstRoundIsFair(table: seq<Account>, times: seq<int>)
    requires DistinctIds(table) && EqualHealth(table) && times != [] && NonDecreasing(times)
    requires UsedBefore(table, times[0])
    requires |times| <= |Enabled(table)|
    ensures |Picks(table, times)| == |times| && AllDistinct(Picks(table, times))
  {
    assert Waiting(table, times[0]) == Enabled(table);
    forall k | 0 <= k < |times| ensures times[k] >= times[0] {
    }
    hide EqualHealth, DistinctIds, Waiting, Enabled, NonDecreasing;
    WaitingPicksDistinct(table, times[0], times);
  }

  lemma {:induction false} PicksSplit(table: seq<Account>, times: seq<int>, k: nat)
    requires k <= |times| && |Picks(table, times)| == |times|
    ensures |Picks(AfterPicks(table, times[..k]), times[k..])| == |times| - k
    ensures Picks(table, times)[k..] == Picks(AfterPicks(table, times[..k]), times[k..])
    decreases k
  {
    hide Next;
    if k == 0 {
      assert times[0..] == times;
    } else {
      var i := Next(table, {}).value;
      var next := Touched(table, i, times[0]);
      PicksSplit(next, times[1..], k - 1);
      assert times[1..][..k - 1] == times[..k][1..];
      assert times[1..][k - 1..] == times[k..];
      assert Picks(table, times)[k..] == Picks(next, times[1..])[k - 1..];
    }
  }

  /** What holds after picks with an increasing clock: health and enabled rows as before, and
      every row last used before the next moment. */
  lemma {:induction false} RotationKeeps(table: seq<Account>, times: seq<int>, next: int)
    requires DistinctIds(table) && EqualHealth(table)
    requires UsedBefore(table, next)
    requires forall k :: 0 <= k < |times| ==> times[k] < next
    ensures var r := AfterPicks(table, times);
            DistinctIds(r) && EqualHealth(r) && Enabled(r) == Enabled(table) && UsedBefore(r, next)
    decreases |times|
  {
    if times != [] && Next(table, {}).Some? {
      var t := Touched(table, Next(table, {}).value, times[0]);
      assert Enabled(t) == Enabled(table);
      hide Next, Enabled;
      RotationKeeps(t, times[1..], next);
    }
  }

  lemma {:induction false} PicksNeverFail(table: seq<Account>, times: seq<int>)
    requires Enabled(table) != {}
    ensures |Picks(table, times)| == |times|
    decreases |times|
  {
    if times != [] {
      var e :| e in Enabled(table);
      assert Eligible(table[e], {});
      var i := Next(table, {}).value;
      assert Touched(table, i, times[0])[e].enabled;
      assert e in Enabled(Touched(table, i, times[0]));
      PicksNeverFail(Touched(table, i, times[0]), times[1..]);
    }
  }

  lemma WindowStart(table: seq<Account>, times: seq<int>, k: nat)
    requires DistinctIds(table) && EqualHealth(table) && NonDecreasing(times) && k < |times|
    requires k > 0 ==> times[k - 1] < times[k]
    requires UsedBefore(table, times[0])
    ensures var t := AfterPicks(table, times[..k]);
            DistinctIds(t) && EqualHealth(t) && Enabled(t) == Enabled(table) && UsedBefore(t, times[k])
  {
    forall m | 0 <= m < k ensures times[..k][m] < times[k] {
      assert m < k - 1 ==> times[m] <= times[k - 1];
    }
    assert UsedBefore(table, times[k]) by { assert k > 0 ==> times[0] <= times[k]; }
    hide DistinctIds, EqualHealth, Enabled, AfterPicks, NonDecreasing;
    RotationKeeps(table, times[..k], times[k]);
  }

  lemma WindowIsOrdered(times: seq<int>, k: nat, n: nat)
    requires NonDecreasing(times) && k + n <= |times|
    ensures NonDecreasing(times[k..k + n])
  {
    var w := times[k..k + n];
    forall i, j | 0 <= i < j < |w| ensures w[i] <= w[j] {
      assert w[i] == times[k + i] <= times[k + j] == w[j];
    }
  }

  lemma WindowOfPicks(table: seq<Account>, times: seq<int>, k: nat, n: nat)
    requires k + n <= |times| && |Picks(table, times)| == |times|
    ensures Picks(table, times)[k..k + n] == Picks(AfterPicks(table, times[..k]), times[k..k + n])
  {
    PicksSplit(table, times, k);
    hide Picks, AfterPicks;
    PicksPrefix(AfterPicks(table, times[..k]), times[k..], n);
    assert times[k..][..n] == times[k..k + n];
    assert Picks(table, times)[k..][..n] == Picks(table, times)[k..k + n];
  }

  /** With equally healthy accounts, every window of n consecutive picks over n enabled accounts
      goes to n different accounts, however long the run, if the window begins in a new second;
      within the window any number of picks may share one. */
  lemma EveryWindowIsFair(table: seq<Account>, times: seq<int>, k: nat, n: nat)
    requires DistinctIds(table) && EqualHealth(table) && NonDecreasing(times) && Enabled(table) != {}
    requires 0 < k < |times| ==> times[k - 1] < times[k]
    requires times != [] ==> UsedBefore(table, times[0])
    requires n <= |Enabled(table)| && k + n <= |times|
    ensures |Picks(table, times)| == |times|
    ensures AllDistinct(Picks(table, times)[k..k + n])
  {
    PicksNeverFail(table, times);
    if n > 0 {
      WindowStart(table, times, k);
      WindowIsOrdered(times, k, n);
      hide Picks, AfterPicks, Next, Enabled, DistinctIds, EqualHealth, NonDecreasing, AllDistinct, UsedBefore;
      WindowOfPicks(table, times, k, n);
      assert times[k..k + n][0] == times[k];
      FirstRoundIsFair(AfterPicks(table, times[..k]), times[k..k + n]);
    } else {
      assert Picks(table, times)[k..k + n] == [];
    }
  }

  lemma {:induction false} PicksPrefix(table: seq<Account>, times: seq<int>, n: nat)
    requires n <= |times| && |Picks(table, times)| == |times|
    ensures Picks(table, times[..n]) == Picks(table, times)[..n]
    decreases n
  {
    hide Next;
    if n > 0 {
      var next := Touched(table, Next(table, {}).value, times[0]);
      PicksPrefix(next, times[1..], n - 1);
      assert times[..n][1..] == times[1..][..n - 1];
      assert Picks(table, times)[..n] == [Next(table, {}).value] + Picks(next, times[1..])[..n - 1];
    }
  }

  /** The clock has whole seconds.  Once every account has been used within the current second,
      all further picks of that second go to the same account. */
  lemma SameSecondIsNotFair(table: seq<Account>, now: int, n: nat)
    requires forall i :: 0 <= i < |table| && table[i].enabled ==> table[i].lastUsedAt == now
    requires Next(table, {}).Some?
    ensures Picks(table, seq(n, _ => now)) == seq(n, _ => Next(table, {}).value)
    decreases n
  {
    if n > 0 {
      var i := Next(table, {}).value;
      assert Touched(table, i, now) == table;
      assert seq(n, _ => now)[1..] == seq(n - 1, _ => now);
      SameSecondIsNotFair(table, now, n - 1);
      assert seq(n, _ => i) == [i] + seq(n - 1, _ => i);
    }
  }

  // ---------------------------------------------------------------- exactly when it is fair

  /** The first `n` rows in the order of the table, each skipped once it was named. */
  function FirstRows(table: seq<Account>, skip: set<nat>, n: nat): (r: seq<nat>)
    ensures |r| <= n
    ensures forall k :: 0 <= k < |r| ==> r[k] < |table| && Eligible(table[r[k]], skip)
    decreases n
  {
    if n == 0 then []
    else
      match Next(table, skip)
      case None => []
      case Some(i) => [i] + FirstRows(table, skip + {table[i].id}, n - 1)
  }

  lemma NextIsOnly(table: seq<Account>, skip: set<nat>, i: nat)
    requires DistinctIds(table) && IsNext(table, skip, i)
    ensures Next(table, skip) == Some(i)
  {
    NextIsFirst(table, skip);
    BeforeIsOneWay(table[Next(table, skip).value], table[i]);
  }

  lemma BeforeIsOneWay(a: Account, b: Account)
    ensures !(Before(a, b) && Before(b, a))
  {
  }

  /** Rows that are skipped anyway may change. */
  lemma SameNext(a: seq<Account>, b: seq<Account>, skip: set<nat>)
    requires DistinctIds(a) && DistinctIds(b) && |a| == |b|
    requires forall i :: 0 <= i < |a| ==> a[i].id == b[i].id && (a[i].id !in skip ==> a[i] == b[i])
    ensures Next(a, skip) == Next(b, skip)
  {
    hide Next;
    if Next(a, skip).Some? {
      NextIsFirst(a, skip);
      var i := Next(a, skip).value;
      assert IsNext(b, skip, i);
      NextIsOnly(b, skip, i);
    } else {
      forall j | 0 <= j < |b| ensures !Eligible(b[j], skip) {
        assert !Eligible(a[j], skip);
      }
      assert Next(b, skip).None?;
    }
  }

  lemma {:induction false} SameFirstRows(a: seq<Account>, b: seq<Account>, skip: set<nat>, n: nat)
    requires DistinctIds(a) && DistinctIds(b) && |a| == |b|
    requires forall i :: 0 <= i < |a| ==> a[i].id == b[i].id && (a[i].id !in skip ==> a[i] == b[i])
    ensures FirstRows(a, skip, n) == FirstRows(b, skip, n)
    decreases n
  {
    hide DistinctIds, Next;
    SameNext(a, b, skip);
    if n > 0 && Next(a, skip).Some? {
      SameFirstRows(a, b, skip + {a[Next(a, skip).value].id}, n - 1);
    }
  }

  /** The picks name no row twice and none whose id is in `used`. */
  ghost predicate Fresh(table: seq<Account>, used: set<nat>, picks: seq<nat>) {
    && AllDistinct(picks)
    && forall k :: 0 <= k < |picks| ==> picks[k] < |table| && table[picks[k]].id !in used
  }

  /** Every row of `q` comes before the enabled rows in `used`, as they are now. */
  ghost predicate AheadOfUsed(table: seq<Account>, used: set<nat>, q: seq<nat>) {
    forall k, p :: 0 <= k < |q| && 0 <= p < |table| && q[k] < |table| && table[p].enabled && table[p].id in used ==>
      Before(table[q[k]], table[p])
  }

  /** Every row of `q` comes before those earlier in `q`, once these are stamped. */
  ghost predicate AheadOfStamped(table: seq<Account>, q: seq<nat>, times: seq<int>) {
    forall j, k :: 0 <= j < k < |q| && j < |times| && q[j] < |table| && q[k] < |table| ==>
      Before(table[q[k]], table[q[j]].(lastUsedAt := times[j]))
  }

  /** When the row picked first is used already, both sides fail. */
  lemma UsedFirst(table: seq<Account>, used: set<nat>, n: nat)
    requires DistinctIds(table) && n > 0 && Next(table, {}).Some? && table[Next(table, {}).value].id in used
    ensures var q := FirstRows(table, used, n);
            !(|q| == n && AheadOfUsed(table, used, q))
  {
    var i := Next(table, {}).value;
    var q := FirstRows(table, used, n);
    NextIsFirst(table, {});
    hide Next, DistinctIds;
    if |q| == n {
      assert Eligible(table[q[0]], used) && Eligible(table[q[0]], {});
      assert Before(table[i], table[q[0]]);
      BeforeIsOneWay(table[i], table[q[0]]);
    }
  }

  lemma UnusedFirst(table: seq<Account>, used: set<nat>)
    requires DistinctIds(table) && Next(table, {}).Some? && table[Next(table, {}).value].id !in used
    ensures Next(table, used) == Next(table, {})
  {
    var i := Next(table, {}).value;
    NextIsFirst(table, {});
    hide Next;
    assert IsNext(table, used, i) by {
      forall j | 0 <= j < |table| && j != i && Eligible(table[j], used) ensures Before(table[i], table[j]) {
        assert Eligible(table[j], {});
      }
    }
    NextIsOnly(table, used, i);
  }

  lemma StampMovesBack(table: seq<Account>, used: set<nat>, i: nat, q: seq<nat>, times: seq<int>)
    requires IsNext(table, {}, i) && table[i].id !in used && times != []
    requires Others(table, i, q)
    requires var next := Touched(table, i, times[0]);
             AheadOfUsed(next, used + {table[i].id}, q) && AheadOfStamped(next, q, times[1..])
    ensures AheadOfUsed(table, used, [i] + q) && AheadOfStamped(table, [i] + q, times)
  {
    var next, all, rest := Touched(table, i, times[0]), [i] + q, times[1..];
    forall k, p | 0 <= k < |all| && 0 <= p < |table| && table[p].enabled && table[p].id in used
      ensures Before(table[all[k]], table[p])
    {
      if k == 0 {
        assert Eligible(table[p], {});
      } else {
        assert all[k] == q[k - 1];
        assert Before(next[q[k - 1]], next[p]);
      }
    }
    forall j, k | 0 <= j < k < |all| && j < |times|
      ensures Before(table[all[k]], table[all[j]].(lastUsedAt := times[j]))
    {
      assert all[k] == q[k - 1];
      if j == 0 {
        assert Before(next[q[k - 1]], next[i]);
      } else {
        assert all[j] == q[j - 1] && rest[j - 1] == times[j];
        assert Before(next[q[k - 1]], next[q[j - 1]].(lastUsedAt := rest[j - 1]));
      }
    }
  }

  /** Rows of the table other than `i`. */
  ghost predicate Others(table: seq<Account>, i: nat, q: seq<nat>) {
    i < |table| && forall k :: 0 <= k < |q| ==> q[k] < |table| && q[k] != i
  }

  lemma StampMovesOn(table: seq<Account>, used: set<nat>, i: nat, q: seq<nat>, times: seq<int>)
    requires DistinctIds(table) && i < |table| && table[i].id !in used && times != []
    requires Others(table, i, q)
    requires AheadOfUsed(table, used, [i] + q) && AheadOfStamped(table, [i] + q, times)
    ensures var next := Touched(table, i, times[0]);
            AheadOfUsed(next, used + {table[i].id}, q) && AheadOfStamped(next, q, times[1..])
  {
    var next, all, rest := Touched(table, i, times[0]), [i] + q, times[1..];
    forall k, p | 0 <= k < |q| && 0 <= p < |next| && next[p].enabled && next[p].id in used + {table[i].id}
      ensures Before(next[q[k]], next[p])
    {
      assert all[k + 1] == q[k];
      if p == i {
        assert Before(table[all[k + 1]], table[all[0]].(lastUsedAt := times[0]));
      } else {
        assert Before(table[all[k + 1]], table[p]);
      }
    }
    forall j, k | 0 <= j < k < |q| && j < |rest|
      ensures Before(next[q[k]], next[q[j]].(lastUsedAt := rest[j]))
    {
      assert all[k + 1] == q[k] && all[j + 1] == q[j] && rest[j] == times[j + 1];
      assert Before(table[all[k + 1]], table[all[j + 1]].(lastUsedAt := times[j + 1]));
    }
  }

  /** One pick of an unused row, seen from both sides. */
  lemma OnePick(table: seq<Account>, used: set<nat>, i: nat, q: seq<nat>, times: seq<int>)
    requires DistinctIds(table) && IsNext(table, {}, i) && table[i].id !in used && times != []
    requires forall k :: 0 <= k < |q| ==> q[k] < |table| && Eligible(table[q[k]], used + {table[i].id})
    ensures var next := Touched(table, i, times[0]);
            AheadOfUsed(next, used + {table[i].id}, q) && AheadOfStamped(next, q, times[1..]) <==>
            AheadOfUsed(table, used, [i] + q) && AheadOfStamped(table, [i] + q, times)
  {
    var next := Touched(table, i, times[0]);
    assert Others(table, i, q);
    hide AheadOfUsed, AheadOfStamped, IsNext, DistinctIds, Touched, Others;
    if AheadOfUsed(next, used + {table[i].id}, q) && AheadOfStamped(next, q, times[1..]) {
      StampMovesBack(table, used, i, q, times);
    }
    if AheadOfUsed(table, used, [i] + q) && AheadOfStamped(table, [i] + q, times) {
      StampMovesOn(table, used, i, q, times);
    }
  }

  lemma FreshStep(table: seq<Account>, used: set<nat>, i: nat, now: int, picks: seq<nat>)
    requires DistinctIds(table) && i < |table| && table[i].id !in used
    ensures Fresh(table, used, [i] + picks) <==> Fresh(Touched(table, i, now), used + {table[i].id}, picks)
  {
    var all, next := [i] + picks, Touched(table, i, now);
    assert forall p :: 0 <= p < |table| ==> next[p].id == table[p].id;
    if Fresh(table, used, all) {
      forall k | 0 <= k < |picks| ensures picks[k] < |next| && next[picks[k]].id !in used + {table[i].id} {
        assert all[k + 1] == picks[k] && all[0] != all[k + 1];
      }
      forall j, k | 0 <= j < k < |picks| ensures picks[j] != picks[k] {
        assert all[j + 1] != all[k + 1];
      }
    }
    if Fresh(next, used + {table[i].id}, picks) {
      forall j, k | 0 <= j < k < |all| ensures all[j] != all[k] {
        assert all[k] == picks[k - 1];
        assert j > 0 ==> all[j] == picks[j - 1];
      }
      forall k | 0 <= k < |all| ensures all[k] < |table| && table[all[k]].id !in used {
        assert k > 0 ==> all[k] == picks[k - 1];
      }
    }
  }

  /** Both sides of `FreshExactly`. */
  ghost predicate BothFresh(table: seq<Account>, used: set<nat>, times: seq<int>) {
    var q := FirstRows(table, used, |times|);
    |Picks(table, times)| == |times| && Fresh(table, used, Picks(table, times)) <==>
    |q| == |times| && AheadOfUsed(table, used, q) && AheadOfStamped(table, q, times)
  }

  lemma FreshAfterOne(table: seq<Account>, used: set<nat>, i: nat, times: seq<int>)
    requires DistinctIds(table) && times != [] && Next(table, {}) == Some(i) && table[i].id !in used
    requires BothFresh(Touched(table, i, times[0]), used + {table[i].id}, times[1..])
    ensures BothFresh(table, used, times)
  {
    hide AheadOfUsed, AheadOfStamped, Fresh, Next, IsNext, DistinctIds, Touched, Eligible;
    UnusedFirst(table, used);
    NextIsFirst(table, {});
    var next, more := Touched(table, i, times[0]), used + {table[i].id};
    TouchedIds(table, i, times[0]);
    var q := FirstRows(table, more, |times| - 1);
    SameFirstRows(table, next, more, |times| - 1);
    FreshStep(table, used, i, times[0], Picks(next, times[1..]));
    OnePick(table, used, i, q, times);
    assert FirstRows(table, used, |times|) == [i] + q;
    assert Picks(table, times) == [i] + Picks(next, times[1..]);
    hide FirstRows, Picks;
  }

  lemma {:induction false} FreshExactly(table: seq<Account>, used: set<nat>, times: seq<int>)
    requires DistinctIds(table)
    ensures BothFresh(table, used, times)
    decreases |times|
  {
    hide AheadOfUsed, AheadOfStamped, Fresh, Next, IsNext;
    if times == [] {
      NothingToPick(table, used, times);
    } else if Next(table, {}).None? {
      assert forall j :: 0 <= j < |table| ==> !Eligible(table[j], {});
      assert Next(table, used).None?;
    } else {
      var i := Next(table, {}).value;
      if table[i].id in used {
        UsedFirst(table, used, |times|);
        FreshHasNoUsed(table, used, Picks(table, times));
      } else {
        TouchedIds(table, i, times[0]);
        hide BothFresh, DistinctIds, Touched;
        FreshExactly(Touched(table, i, times[0]), used + {table[i].id}, times[1..]);
        FreshAfterOne(table, used, i, times);
      }
    }
  }

  lemma NothingToPick(table: seq<Account>, used: set<nat>, times: seq<int>)
    ensures Fresh(table, used, []) && AheadOfUsed(table, used, []) && AheadOfStamped(table, [], times)
  {
  }

  lemma FreshHasNoUsed(table: seq<Account>, used: set<nat>, picks: seq<nat>)
    requires picks != [] && picks[0] < |table| && table[picks[0]].id in used
    ensures !Fresh(table, used, picks)
  {
  }

  lemma TouchedIds(table: seq<Account>, i: nat, now: int)
    requires i < |table| && DistinctIds(table)
    ensures DistinctIds(Touched(table, i, now)) && |Touched(table, i, now)| == |table|
    ensures forall p :: 0 <= p < |table| ==> Touched(table, i, now)[p].id == table[p].id
    ensures forall p :: 0 <= p < |table| && p != i ==> Touched(table, i, now)[p] == table[p]
  {
  }

  /** For every table and every clock: the picks go to different accounts if and only if there
      are enough enabled accounts and each of the first rows in the order of the table comes
      before those ahead of it once these carry their stamps.  Neither equal health nor an
      ordered clock is needed. */
  lemma FairExactly(table: seq<Account>, times: seq<int>)
    requires DistinctIds(table)
    ensures var q := FirstRows(table, {}, |times|);
            |Picks(table, times)| == |times| && AllDistinct(Picks(table, times)) <==>
            |q| == |times| && forall j, k :: 0 <= j < k < |q| ==> Before(table[q[k]], table[q[j]].(lastUsedAt := times[j]))
  {
    var q := FirstRows(table, {}, |times|);
    FreshExactly(table, {}, times);
    PicksInTable(table, times);
  }

  lemma {:induction false} PicksInTable(table: seq<Account>, times: seq<int>)
    ensures forall k :: 0 <= k < |Picks(table, times)| ==> Picks(table, times)[k] < |table|
    decreases |times|
  {
    if times != [] && Next(table, {}).Some? {
      PicksInTable(Touched(table, Next(table, {}).value, times[0]), times[1..]);
    }
  }

  // ---------------------------------------------------------------- health

  const MAX_AUTH_FAILURES: nat := 3
  const MAX_ERROR: nat := 200

  datatype Mark = Mark(status: int, err: string, at: int)

  predicate IsAuthFailure(m: Mark) {
    m.status == 401 || m.status == 403
  }

  function Truncate(s: string): string {
    if |s| <= MAX_ERROR then s else s[..MAX_ERROR]
  }

  /** `markCookieByStatus` on the row it is about. */
  function Marked(a: Account, m: Mark): Account {
    if m.status == 200 then a.(lastOkAt := m.at, failCount := 0, lastError := "")
    else if IsAuthFailure(m) then
      var b := a.(failCount := a.failCount + 1, lastError := Truncate(m.err));
      if b.enabled && b.failCount >= MAX_AUTH_FAILURES then b.(enabled := false) else b
    else if m.err != "" then a.(lastError := Truncate(m.err))
    else a
  }

  /** What a result makes of a row: a 200 clears the failures, a 401 or 403 adds one and from the
      third on disables the account, and no other status touches count or state. */
  ghost predicate Follows(a: Account, m: Mark, b: Account) {
    var text := if |m.err| <= 200 then m.err else m.err[..200];
    if m.status == 200 then b == a.(lastOkAt := m.at, failCount := 0, lastError := "")
    else if m.status == 401 || m.status == 403 then
      b == a.(failCount := a.failCount + 1, lastError := text, enabled := a.enabled && a.failCount + 1 < 3)
    else b == a.(lastError := if m.err == "" then a.lastError else text)
  }

  lemma MarksFollow(table: seq<Account>, id: nat, m: Mark)
    ensures var after := UpdateRow(table, id, a => Marked(a, m));
            forall i :: 0 <= i < |table| ==>
              if table[i].id == id then Follows(table[i], m, after[i]) else after[i] == table[i]
  {
  }

  function AfterMarks(a: Account, ms: seq<Mark>): Account
    decreases |ms|
  {
    if ms == [] then a else Marked(AfterMarks(a, ms[..|ms| - 1]), ms[|ms| - 1])
  }

  /** Authentication failures among the marks from `k` on. */
  function AuthFailuresFrom(ms: seq<Mark>, k: nat): (n: nat)
    requires k <= |ms|
    decreases |ms|
  {
    if k == |ms| then 0
    else AuthFailuresFrom(ms[..|ms| - 1], k) + if IsAuthFailure(ms[|ms| - 1]) then 1 else 0
  }

  predicate NoSuccessFrom(ms: seq<Mark>, k: nat) {
    forall i :: k <= i < |ms| ==> ms[i].status != 200
  }

  lemma {:induction false} CountsSince(a: Account, ms: seq<Mark>, k: nat)
    requires k <= |ms| && NoSuccessFrom(ms, k)
    ensures AfterMarks(a, ms).failCount == AfterMarks(a, ms[..k]).failCount + AuthFailuresFrom(ms, k)
    decreases |ms|
  {
    if k == |ms| {
      assert ms[..k] == ms;
    } else {
      var front := ms[..|ms| - 1];
      CountsSince(a, front, k);
      assert front[..k] == ms[..k];
    }
  }

  /** The positions of results 401 and 403 in a stretch. */
  ghost function Rejections(ms: seq<Mark>, k: nat, m: nat): set<int>
    requires m <= |ms|
  {
    set i | k <= i < m && (ms[i].status == 401 || ms[i].status == 403)
  }

  lemma {:induction false} FailuresAreRejections(ms: seq<Mark>, k: nat, m: nat)
    requires k <= m <= |ms|
    ensures AuthFailuresFrom(ms[..m], k) == |Rejections(ms, k, m)|
    decreases m
  {
    if k == m {
      assert Rejections(ms, k, m) == {};
    } else {
      var last := m - 1;
      FailuresAreRejections(ms, k, last);
      assert ms[..m][..last] == ms[..last];
      var before, after := Rejections(ms, k, last), Rejections(ms, k, m);
      var grown := if ms[last].status == 401 || ms[last].status == 403 then before + {last} else before;
      assert forall i :: i in grown <==> i in after;
      assert grown == after;
    }
  }

  /** The counter is the number of 401 and 403 results since the last 200, whatever else
      happened in between. */
  lemma FailCountIsStreak(a: Account, ms: seq<Mark>, k: nat)
    requires k <= |ms| && NoSuccessFrom(ms, k)
    requires if k == 0 then a.failCount == 0 else ms[k - 1].status == 200
    ensures AfterMarks(a, ms).failCount == AuthFailuresFrom(ms, k) == |Rejections(ms, k, |ms|)|
  {
    CountsSince(a, ms, k);
    FailuresAreRejections(ms, k, |ms|);
    assert ms[..|ms|] == ms;
    if k > 0 {
      assert ms[..k][|ms[..k]| - 1] == ms[k - 1];
    }
  }

  /** Somewhere, three authentication failures without a success between them. */
  ghost predicate DeadStretch(ms: seq<Mark>, k: nat, m: nat) {
    k <= m <= |ms| && NoSuccessFrom(ms[..m], k) && AuthFailuresFrom(ms[..m], k) >= MAX_AUTH_FAILURES
  }

  ghost predicate HasDeadStretch(ms: seq<Mark>) {
    exists k: nat, m: nat :: DeadStretch(ms, k, m)
  }

  lemma {:induction false} StreakStart(ms: seq<Mark>) returns (k: nat)
    ensures k <= |ms| && NoSuccessFrom(ms, k) && (k > 0 ==> ms[k - 1].status == 200)
    decreases |ms|
  {
    k := |ms|;
    if ms != [] && ms[|ms| - 1].status != 200 {
      k := StreakStart(ms[..|ms| - 1]);
    }
  }

  /** An account that starts enabled and healthy, and is not touched from the panel, is disabled
      exactly if its results contain three authentication failures with no success between
      them: no other result, however bad, ever counts. */
  lemma DisabledExactly(a: Account, ms: seq<Mark>)
    requires a.enabled && a.failCount == 0
    ensures !AfterMarks(a, ms).enabled <==>
            exists k: nat, m: nat :: && k <= m <= |ms| && (forall i :: k <= i < m ==> ms[i].status != 200)
                                     && |Rejections(ms, k, m)| >= 3
  {
    DisabledByStretch(a, ms);
    hide AfterMarks, Rejections, AuthFailuresFrom;
    forall k: nat, m: nat | k <= m <= |ms|
      ensures DeadStretch(ms, k, m) <==> (forall i :: k <= i < m ==> ms[i].status != 200) && |Rejections(ms, k, m)| >= 3
    {
      FailuresAreRejections(ms, k, m);
      assert forall i :: k <= i < m ==> ms[..m][i] == ms[i];
    }
    hide DeadStretch;
    if HasDeadStretch(ms) {
      var k: nat, m: nat :| DeadStretch(ms, k, m);
      StretchFits(ms, k, m);
    }
  }

  lemma StretchFits(ms: seq<Mark>, k: nat, m: nat)
    requires DeadStretch(ms, k, m)
    ensures k <= m <= |ms|
  {
  }

  lemma {:induction false} DisabledByStretch(a: Account, ms: seq<Mark>)
    requires a.enabled && a.failCount == 0
    ensures !AfterMarks(a, ms).enabled <==> HasDeadStretch(ms)
    decreases |ms|
  {
    if ms == [] {
    } else {
      var front := ms[..|ms| - 1];
      DisabledByStretch(a, front);
      hide AfterMarks, AuthFailuresFrom;
      if !AfterMarks(a, front).enabled {
        var k: nat, m: nat :| DeadStretch(front, k, m);
        StretchInLonger(ms, k, m);
        StaysDisabled(a, ms);
      } else {
        LastMarkDecides(a, ms);
      }
    }
  }

  lemma StretchInLonger(ms: seq<Mark>, k: nat, m: nat)
    requires ms != [] && m < |ms|
    ensures DeadStretch(ms[..|ms| - 1], k, m) == DeadStretch(ms, k, m)
  {
    assert ms[..|ms| - 1][..m] == ms[..m];
  }

  lemma StaysDisabled(a: Account, ms: seq<Mark>)
    requires ms != [] && !AfterMarks(a, ms[..|ms| - 1]).enabled
    ensures !AfterMarks(a, ms).enabled
  {
  }

  lemma DisablingNeedsStretch(a: Account, ms: seq<Mark>)
    requires a.failCount == 0 && ms != []
    requires AfterMarks(a, ms[..|ms| - 1]).enabled && !AfterMarks(a, ms).enabled
    ensures HasDeadStretch(ms)
  {
    hide AuthFailuresFrom;
    assert ms[..|ms|] == ms;
    var k := StreakStart(ms);
    FailCountIsStreak(a, ms, k);
    assert DeadStretch(ms, k, |ms|);
  }

  lemma LastIsFailure(ms: seq<Mark>, k: nat)
    requires ms != [] && !HasDeadStretch(ms[..|ms| - 1]) && DeadStretch(ms, k, |ms|)
    ensures IsAuthFailure(ms[|ms| - 1])
  {
    var front := ms[..|ms| - 1];
    assert ms[..|ms|] == ms && front[..|front|] == front;
    assert k < |ms|;
    assert NoSuccessFrom(front, k);
    assert !DeadStretch(front, k, |front|);
  }

  lemma StretchDisables(a: Account, ms: seq<Mark>, k: nat)
    requires a.failCount == 0 && ms != []
    requires AfterMarks(a, ms[..|ms| - 1]).enabled
    requires !HasDeadStretch(ms[..|ms| - 1])
    requires DeadStretch(ms, k, |ms|)
    ensures !AfterMarks(a, ms).enabled
  {
    assert ms[..|ms|] == ms;
    LastIsFailure(ms, k);
    CountsSince(a, ms, k);
    hide HasDeadStretch, AuthFailuresFrom, NoSuccessFrom;
  }

  lemma LastMarkDecides(a: Account, ms: seq<Mark>)
    requires a.failCount == 0 && ms != []
    requires AfterMarks(a, ms[..|ms| - 1]).enabled
    requires !HasDeadStretch(ms[..|ms| - 1])
    ensures !AfterMarks(a, ms).enabled <==> HasDeadStretch(ms)
  {
    hide AfterMarks, AuthFailuresFrom, NoSuccessFrom;
    if !AfterMarks(a, ms).enabled {
      DisablingNeedsStretch(a, ms);
    }
    if HasDeadStretch(ms) {
      var k: nat, m: nat :| DeadStretch(ms, k, m);
      if m < |ms| {
        StretchInLonger(ms, k, m);
        assert false;
      }
      StretchDisables(a, ms, k);
    }
  }

  // ---------------------------------------------------------------- the pool

  function UpdateRow(table: seq<Account>, id: nat, f: Account -> Account): (r: seq<Account>)
    ensures |r| == |table|
    ensures forall i :: 0 <= i < |table| ==> r[i] == if table[i].id == id then f(table[i]) else table[i]
  {
    seq(|table|, i requires 0 <= i < |table| => if table[i].id == id then f(table[i]) else table[i])
  }

  class Pool {
    var table: seq<Account>

    ghost predicate Valid()
      reads this
    {
      DistinctIds(table) && forall i :: 0 <= i < |table| ==> table[i].id > 0
    }

    constructor (accounts: seq<Account>)
      requires DistinctIds(accounts) && forall i :: 0 <= i < |accounts| ==> accounts[i].id > 0
      ensures Valid() && table == accounts
    {
      table := accounts;
    }

    /** `pickCookieAccountExcept`: the row handed out is the one read, before it is stamped. */
    method PickExcept(skip: set<nat>, now: int) returns (r: Option<Account>)
      requires Valid()
      modifies this
      ensures Valid()
      ensures r.None? ==> table == old(table) && forall a :: a in table ==> !Eligible(a, skip)
      ensures r.Some? ==> && Next(old(table), skip).Some?
                          && r.value == old(table)[Next(old(table), skip).value]
                          && table == Touched(old(table), Next(old(table), skip).value, now)
      ensures r.Some? ==> r.value in old(table) && Eligible(r.value, skip)
                          && forall b :: b in old(table) && Eligible(b, skip) ==> r.value.failCount <= b.failCount
      ensures r.None? <==> forall b :: b in old(table) && b.enabled ==> b.id in skip
      ensures r.Some? ==> r.value.enabled && r.value.id !in skip && ComesFirst(old(table), skip, r.value)
      ensures |table| == |old(table)| && forall i :: 0 <= i < |table| ==>
                table[i] == if r.Some? && old(table)[i].id == r.value.id then old(table)[i].(lastUsedAt := now) else old(table)[i]
    {
      hide Before, Next;
      var best: Option<nat> := None;
      NextOfNone(skip);
      assert table[..0] == [];
      for i := 0 to |table|
        invariant table == old(table)
        invariant best == Next(table[..i], skip)
      {
        NextOneMore(table, skip, i);
        if Eligible(table[i], skip) {
          if best.None? || Before(table[i], table[best.value]) {
            best := Some(i);
          }
        }
      }
      assert table[..|table|] == table;
      if best.None? {
        return None;
      }
      NextIsHealthiest(table, skip);
      NextComesFirst(table, skip);
      hide ComesFirst;
      r := Some(table[best.value]);
      table := table[best.value := table[best.value].(lastUsedAt := now)];
    }

    /** `markCookieByStatus` with `markAccountResult` and `autoDisableIfDead`. */
    method MarkByStatus(id: nat, m: Mark)
      requires Valid()
      modifies this
      ensures Valid()
      ensures table == UpdateRow(old(table), id, a => Marked(a, m))
      ensures |table| == |old(table)| && forall i :: 0 <= i < |table| ==>
                if old(table)[i].id == id then Follows(old(table)[i], m, table[i]) else table[i] == old(table)[i]
    {
      MarksFollow(table, id, m);
      hide Follows;
      if id == 0 {
        return;
      }
      if m.status == 200 {
        table := UpdateRow(table, id, (a: Account) => a.(lastOkAt := m.at, failCount := 0, lastError := ""));
      } else if IsAuthFailure(m) {
        table := UpdateRow(table, id, (a: Account) => a.(failCount := a.failCount + 1, lastError := Truncate(m.err)));
        AutoDisableIfDead(id);
      } else if m.err != "" {
        table := UpdateRow(table, id, (a: Account) => a.(lastError := Truncate(m.err)));
      }
    }

    method AutoDisableIfDead(id: nat)
      requires Valid()
      modifies this
      ensures Valid()
      ensures table == UpdateRow(old(table), id, a => Retired(a))
    {
      for i := 0 to |table|
        invariant table == old(table)
        invariant forall j :: 0 <= j < i ==> table[j].id != id
      {
        if table[i].id == id {
          if table[i].enabled && table[i].failCount >= MAX_AUTH_FAILURES {
            table := UpdateRow(table, id, (a: Account) => a.(enabled := false));
          }
          return;
        }
      }
    }

    /** `updateAccountCookie`: a refreshed cookie is written only if it is still the same
        account; the identity of no row ever changes. */
    method UpdateAccountCookie(id: nat, cookie: Text)
      requires Valid()
      modifies this
      ensures Valid() && |table| == |old(table)|
      ensures forall i :: 0 <= i < |table| ==> Identity(table[i].cookie) == Identity(old(table)[i].cookie)
      ensures forall i :: 0 <= i < |table| ==>
                table[i] == if old(table)[i].id == id && cookie != [] && Identity(old(table)[i].cookie) == Identity(cookie)
                            then old(table)[i].(cookie := cookie) else old(table)[i]
    {
      hide Identity, Pairs, LastValue, IsLastNamed, Ascii;
      if id == 0 || cookie == [] {
        return;
      }
      var got := CookieIdentity(cookie);
      for i := 0 to |table|
        invariant table == old(table)
        invariant forall j :: 0 <= j < i ==> table[j].id != id
      {
        if table[i].id == id {
          var want := CookieIdentity(table[i].cookie);
          if got == want {
            table := UpdateRow(table, id, (a: Account) => a.(cookie := cookie));
          }
          return;
        }
      }
    }

    /** Record the failure of the account tried last and pick another one. */
    method GiveUpOn(ghost start: seq<Account>, ghost failed: seq<nat>, tried: seq<nat>, ghost err: nat -> string, mark: Mark, now: int)
      returns (r: Option<Account>)
      requires Valid() && tried != [] && mark.status == 401 && mark.err == err(tried[|tried| - 1])
      requires failed == tried[..|tried| - 1] && tried[|tried| - 1] !in failed
      requires OnlyMarked(start, table, failed, err)
      modifies this
      ensures Valid() && OnlyMarked(start, table, tried, err)
      ensures r.Some? ==> r.value.id !in tried
      ensures r.None? ==> forall a :: a in table && a.enabled ==> a.id in tried
      ensures Picking(table, r) == Pick(MarkRow(old(table), tried[|tried| - 1], mark), tried, now)
    {
      hide OnlyMarked, Marked, Next, UpdateRow, Pick;
      var id := tried[|tried| - 1];
      OneMoreMarked(start, table, id, mark, failed, err);
      assert failed + [id] == tried;
      MarkByStatus(id, mark);
      assert table == MarkRow(old(table), id, mark);
      r := PickUntried(start, tried, err, now);
    }

    method PickUntried(ghost start: seq<Account>, tried: seq<nat>, ghost err: nat -> string, now: int) returns (r: Option<Account>)
      requires Valid() && OnlyMarked(start, table, tried, err)
      modifies this
      ensures Valid() && OnlyMarked(start, table, tried, err)
      ensures r.Some? ==> r.value.id !in tried
      ensures r.None? ==> forall a :: a in table && a.enabled ==> a.id in tried
      ensures Picking(table, r) == Pick(old(table), tried, now)
    {
      hide OnlyMarked, Next, Touched;
      ghost var marked := table;
      var skip := set id | id in tried;
      r := PickExcept(skip, now);
      if r.Some? {
        StampIsNoMark(start, marked, Next(marked, skip).value, now, tried, err);
      } else {
        assert forall a :: a in table ==> !Eligible(a, skip);
        NoneToPick(table, skip);
      }
    }

    /** The account loop of `streamGenerateWithFiles`: try accounts until one works, at most
        three of them.  `works` stands for everything upstream decides: the page token is
        there, at once or after rotating the session ticket.  Giving up means that three
        accounts failed or that no untried enabled one was left.  Each account tried is the first
        of the order among those not tried yet, at that moment. */
    method TryAccounts(works: nat -> bool, err: nat -> string, clock: seq<int>) returns (r: Option<Account>, tried: seq<nat>)
      requires Valid() && |clock| == 2 * MAX_TRIES + 1
      modifies this
      ensures Valid()
      ensures |tried| <= 3 && forall i, j :: 0 <= i < j < |tried| ==> tried[i] != tried[j]
      ensures r.Some? ==> && tried != [] && r.value.id == tried[|tried| - 1] && works(r.value.id)
                          && forall i :: 0 <= i < |tried| - 1 ==> !works(tried[i])
      ensures r.None? ==> && (forall i :: 0 <= i < |tried| ==> !works(tried[i]))
                          && (|tried| == 3 || forall a :: a in table && a.enabled ==> a.id in tried)
      ensures OnlyMarked(old(table), table, if r.Some? then tried[..|tried| - 1] else tried, err)
      ensures Tries(table, r, tried) == TryAll(old(table), works, err, clock)
    {
      hide OnlyMarked, Pick, MarkRow, TryFrom;
      tried := [];
      NothingMarked(table, err);
      r := PickUntried(table, [], err, clock[0]);
      while r.Some? && |tried| < MAX_TRIES
        invariant Valid()
        invariant |tried| <= MAX_TRIES && forall i, j :: 0 <= i < j < |tried| ==> tried[i] != tried[j]
        invariant forall i :: 0 <= i < |tried| ==> !works(tried[i])
        invariant r.Some? ==> r.value.id !in tried
        invariant r.None? ==> forall a :: a in table && a.enabled ==> a.id in tried
        invariant OnlyMarked(old(table), table, tried, err)
        invariant TryFrom(Picking(table, r), tried, works, err, clock) == TryAll(old(table), works, err, clock)
        decreases MAX_TRIES - |tried|
      {
        ghost var failed, picked := tried, Picking(table, r);
        TryOne(picked, failed, works, err, clock);
        tried := tried + [r.value.id];
        if works(r.value.id) {
          assert tried[..|tried| - 1] == failed;
          return;
        }
        r := GiveUpOn(old(table), failed, tried, err, Mark(401, err(r.value.id), clock[2 * |tried| - 1]), clock[2 * |tried|]);
      }
      TryNoMore(Picking(table, r), tried, works, err, clock);
      r := None;
    }
  }

  const MAX_TRIES: nat := 3

  /** The table and the account picked from it. */
  datatype Picking = Picking(table: seq<Account>, found: Option<Account>)

  datatype Tries = Tries(table: seq<Account>, found: Option<Account>, tried: seq<nat>)

  /** The first account of the order that was not tried, which is stamped. */
  function Pick(table: seq<Account>, tried: seq<nat>, now: int): Picking {
    match Next(table, set id | id in tried)
    case None => Picking(table, None)
    case Some(i) => Picking(Touched(table, i, now), Some(table[i]))
  }

  function MarkRow(table: seq<Account>, id: nat, m: Mark): seq<Account> {
    UpdateRow(table, id, a => Marked(a, m))
  }

  /** Trying on, with an account picked. */
  function TryFrom(p: Picking, tried: seq<nat>, works: nat -> bool, err: nat -> string, clock: seq<int>): Tries
    requires |tried| <= MAX_TRIES && |clock| == 2 * MAX_TRIES + 1
    decreases MAX_TRIES - |tried|
  {
    if p.found.None? || |tried| == MAX_TRIES then Tries(p.table, None, tried)
    else
      var id := p.found.value.id;
      var all, n := tried + [id], |tried|;
      if works(id) then Tries(p.table, p.found, all)
      else
        var marked := MarkRow(p.table, id, Mark(401, err(id), clock[2 * n + 1]));
        TryFrom(Pick(marked, all, clock[2 * n + 2]), all, works, err, clock)
  }

  function TryAll(table: seq<Account>, works: nat -> bool, err: nat -> string, clock: seq<int>): Tries
    requires |clock| == 2 * MAX_TRIES + 1
  {
    TryFrom(Pick(table, [], clock[0]), [], works, err, clock)
  }

  lemma TryOne(p: Picking, tried: seq<nat>, works: nat -> bool, err: nat -> string, clock: seq<int>)
    requires |tried| < MAX_TRIES && |clock| == 2 * MAX_TRIES + 1 && p.found.Some?
    ensures var id, n := p.found.value.id, |tried|;
            TryFrom(p, tried, works, err, clock) ==
            if works(id) then Tries(p.table, p.found, tried + [id])
            else TryFrom(Pick(MarkRow(p.table, id, Mark(401, err(id), clock[2 * n + 1])), tried + [id], clock[2 * n + 2]),
                         tried + [id], works, err, clock)
  {
    hide Pick, MarkRow;
  }

  lemma TryNoMore(p: Picking, tried: seq<nat>, works: nat -> bool, err: nat -> string, clock: seq<int>)
    requires |tried| <= MAX_TRIES && |clock| == 2 * MAX_TRIES + 1 && (p.found.None? || |tried| == MAX_TRIES)
    ensures TryFrom(p, tried, works, err, clock) == Tries(p.table, None, tried)
  {
  }

  lemma NoneToPick(table: seq<Account>, skip: set<nat>)
    requires forall a :: a in table ==> !Eligible(a, skip)
    ensures Next(table, skip) == None
  {
    hide Eligible;
  }

  /** Apart from the time of last use, the rows in `failed` got one authentication failure each,
      and no other row changed. */
  ghost predicate OnlyMarked(before: seq<Account>, after: seq<Account>, failed: seq<nat>, err: nat -> string) {
    && |after| == |before|
    && forall i :: 0 <= i < |before| ==>
         after[i].(lastUsedAt := 0) ==
         (if before[i].id in failed then Marked(before[i], Mark(401, err(before[i].id), 0)) else before[i]).(lastUsedAt := 0)
  }

  lemma NothingMarked(table: seq<Account>, err: nat -> string)
    ensures OnlyMarked(table, table, [], err)
  {
  }

  lemma StampIsNoMark(before: seq<Account>, table: seq<Account>, i: nat, now: int, failed: seq<nat>, err: nat -> string)
    requires i < |table| && OnlyMarked(before, table, failed, err)
    ensures OnlyMarked(before, Touched(table, i, now), failed, err)
  {
  }

  lemma OneMoreMarked(before: seq<Account>, table: seq<Account>, id: nat, m: Mark, failed: seq<nat>, err: nat -> string)
    requires OnlyMarked(before, table, failed, err) && m.status == 401 && m.err == err(id) && id !in failed
    ensures OnlyMarked(before, UpdateRow(table, id, a => Marked(a, m)), failed + [id], err)
  {
    forall i | 0 <= i < |before| ensures table[i].id == before[i].id {
      assert table[i].(lastUsedAt := 0).id == before[i].id;
    }
    var after := UpdateRow(table, id, a => Marked(a, m));
    forall i | 0 <= i < |before|
      ensures after[i].(lastUsedAt := 0) ==
              (if before[i].id in failed + [id] then Marked(before[i], Mark(401, err(before[i].id), 0)) else before[i]).(lastUsedAt := 0)
    {
      if before[i].id == id {
        MarkIgnoresUse(table[i], before[i], m);
      }
    }
  }

  lemma MarkIgnoresUse(a: Account, b: Account, m: Mark)
    requires a.(lastUsedAt := 0) == b.(lastUsedAt := 0) && m.status == 401
    ensures Marked(a, m).(lastUsedAt := 0) == Marked(b, Mark(401, m.err, 0)).(lastUsedAt := 0)
  {
    assert a == b.(lastUsedAt := a.lastUsedAt);
  }

  function Retired(a: Account): Account {
    if a.enabled && a.failCount >= MAX_AUTH_FAILURES then a.(enabled := false) else a
  }
}
