/** The canonical order of captured cookies (internal/app/browser_cdp.go): the parts come out of
    a map in random order and must always give the same string. */
module CookieOrder {
  import opened GoStrings
  import opened CookieJar

  // ---------------------------------------------------------------- the order of strings

  /** `a <= b` for Go strings: bytewise, lexicographically. */
  predicate Le(a: Text, b: Text)
    decreases |a|
  {
    a == [] || (b != [] && (a[0] < b[0] || (a[0] == b[0] && Le(a[1..], b[1..]))))
  }

  predicate Less(a: Text, b: Text) {
    !Le(b, a)
  }

  lemma {:induction false} LeTotal(a: Text, b: Text)
    ensures Le(a, b) || Le(b, a)
    decreases |a|
  {
    if a != [] && b != [] && a[0] == b[0] {
      LeTotal(a[1..], b[1..]);
    }
  }

  lemma {:induction false} LeAntisymmetric(a: Text, b: Text)
    requires Le(a, b) && Le(b, a)
    ensures a == b
    decreases |a|
  {
    if a != [] && b != [] {
      LeAntisymmetric(a[1..], b[1..]);
      assert a == [a[0]] + a[1..] && b == [b[0]] + b[1..];
    }
  }

  lemma {:induction false} LeTransitive(a: Text, b: Text, c: Text)
    requires Le(a, b) && Le(b, c)
    ensures Le(a, c)
    decreases |a|
  {
    if a != [] && a[0] == b[0] == c[0] {
      LeTransitive(a[1..], b[1..], c[1..]);
    }
  }

  ghost predicate Sorted(s: seq<Text>) {
    forall i, j :: 0 <= i < j < |s| ==> Le(s[i], s[j])
  }

  lemma SameSmallest(a: seq<Text>, b: seq<Text>)
    requires Sorted(a) && Sorted(b) && a != [] && b != []
    requires a[0] in b && b[0] in a
    ensures a[0] == b[0]
  {
    hide Le;
    var i :| 0 <= i < |b| && b[i] == a[0];
    var j :| 0 <= j < |a| && a[j] == b[0];
    if i != 0 && j != 0 {
      LeAntisymmetric(a[0], b[0]);
    }
  }

  lemma SameElements(a: seq<Text>, b: seq<Text>, x: Text)
    requires multiset(a) == multiset(b) && x in a
    ensures x in b
  {
    assert x in multiset(a);
  }

  /** There is only one way to sort. */
  lemma {:induction false} SortedIsUnique(a: seq<Text>, b: seq<Text>)
    requires Sorted(a) && Sorted(b) && multiset(a) == multiset(b)
    ensures a == b
    decreases |a|
  {
    assert |a| == |multiset(a)| == |multiset(b)| == |b|;
    if a != [] {
      SameElements(a, b, a[0]);
      SameElements(b, a, b[0]);
      SameSmallest(a, b);
      assert Sorted(a[1..]) && Sorted(b[1..]);
      hide Sorted;
      assert a == [a[0]] + a[1..] && b == [b[0]] + b[1..];
      assert multiset(a[1..]) == multiset(a) - multiset{a[0]};
      assert multiset(b[1..]) == multiset(b) - multiset{b[0]};
      SortedIsUnique(a[1..], b[1..]);
    }
  }

  // ---------------------------------------------------------------- insertion sort, in place

  ghost predicate SortedExcept(s: seq<Text>, n: nat, j: nat)
    requires n <= |s|
  {
    forall p, q :: 0 <= p < q < n && q != j ==> Le(s[p], s[q])
  }

  /** Moving the smaller of two neighbours down keeps everything else in order. */
  lemma SwapDown(s: seq<Text>, t: seq<Text>, n: nat, j: nat)
    requires 0 < j < n <= |s| && SortedExcept(s, n, j)
    requires Less(s[j], s[j - 1])
    requires t == s[j := s[j - 1]][j - 1 := s[j]]
    ensures SortedExcept(t, n, j - 1)
    ensures multiset(t) == multiset(s)
  {
    hide Le;
    LeTotal(s[j], s[j - 1]);
    forall p, q | 0 <= p < q < n && q != j - 1 ensures Le(t[p], t[q]) {
    }
  }

  lemma InPlace(s: seq<Text>, n: nat, j: nat)
    requires j < n <= |s| && SortedExcept(s, n, j)
    requires j == 0 || !Less(s[j], s[j - 1])
    ensures Sorted(s[..n])
  {
    hide Le;
    forall p, q | 0 <= p < q < n ensures Le(s[p], s[q]) {
      if q == j && p < j - 1 {
        LeTransitive(s[p], s[j - 1], s[j]);
      }
    }
  }

  /** `sortStrings` */
  method SortStrings(a: array<Text>)
    modifies a
    ensures Sorted(a[..])
    ensures multiset(a[..]) == multiset(old(a[..]))
  {
    hide Le;
    if a.Length == 0 {
      return;
    }
    var i := 1;
    while i < a.Length
      invariant 1 <= i <= a.Length
      invariant Sorted(a[..][..i])
      invariant multiset(a[..]) == multiset(old(a[..]))
    {
      var j := i;
      assert a[..][..i] == a[..i];
      assert SortedExcept(a[..], i + 1, i);
      hide Sorted, SortedExcept;
      while j > 0 && Less(a[j], a[j - 1])
        invariant 0 <= j <= i
        invariant SortedExcept(a[..], i + 1, j)
        invariant multiset(a[..]) == multiset(old(a[..]))
      {
        ghost var before := a[..];
        a[j], a[j - 1] := a[j - 1], a[j];
        SwapDown(before, a[..], i + 1, j);
        j := j - 1;
      }
      InPlace(a[..], i + 1, j);
      i := i + 1;
    }
    assert a[..][..a.Length] == a[..];
  }

  // ---------------------------------------------------------------- the canonical string

  /** The names that come first, in this order. */
  const KEY_ORDER: seq<Text> := [
    Ascii("SID"), Ascii("HSID"), Ascii("SSID"), Ascii("APISID"), Ascii("SAPISID"), Ascii("__Secure-1PSID"),
    Ascii("__Secure-1PSIDTS"), Ascii("__Secure-1PAPISID"), Ascii("__Secure-1PSIDCC")]

  lemma KeysAreDistinct()
    ensures forall i, j :: 0 <= i < j < |KEY_ORDER| ==> KEY_ORDER[i] != KEY_ORDER[j]
  {
    assert KEY_ORDER[1][0] != KEY_ORDER[2][0];
    assert KEY_ORDER[6][14] != KEY_ORDER[8][14];
    forall i, j | 0 <= i < j < |KEY_ORDER| ensures KEY_ORDER[i] != KEY_ORDER[j] {
      assert (i == 1 && j == 2) || (i == 6 && j == 8) || |KEY_ORDER[i]| != |KEY_ORDER[j]|;
    }
  }

  predicate IsKey(name: Text) {
    name in KEY_ORDER
  }

  function NameOf(part: Text): Text {
    var i := Index(part, [EQUALS]);
    if i > 0 then part[..i] else part
  }

  ghost predicate DistinctNames(parts: seq<Text>) {
    forall i, j :: 0 <= i < j < |parts| ==> NameOf(parts[i]) != NameOf(parts[j])
  }

  function Keyed(parts: seq<Text>): (m: map<Text, Text>)
    ensures forall k :: k in m ==> IsKey(k) && NameOf(m[k]) == k && m[k] in parts
    decreases |parts|
  {
    if parts == [] then map[]
    else
      var last := parts[|parts| - 1];
      var before := Keyed(parts[..|parts| - 1]);
      if IsKey(NameOf(last)) then before[NameOf(last) := last] else before
  }

  function Rest(parts: seq<Text>): seq<Text>
    decreases |parts|
  {
    if parts == [] then []
    else
      var last := parts[|parts| - 1];
      Rest(parts[..|parts| - 1]) + if IsKey(NameOf(last)) then [] else [last]
  }

  function InKeyOrder(keys: seq<Text>, keyed: map<Text, Text>): seq<Text> {
    if keys == [] then []
    else (if keys[0] in keyed then [keyed[keys[0]]] else []) + InKeyOrder(keys[1..], keyed)
  }

  /** What the parts of the result have to be: the key items in key order, then the other parts
      sorted. */
  ghost predicate IsCanonical(parts: seq<Text>, out: seq<Text>) {
    exists tail :: && out == InKeyOrder(KEY_ORDER, Keyed(parts)) + tail
                   && Sorted(tail) && multiset(tail) == multiset(Rest(parts))
  }

  lemma {:induction false} RestCounts(parts: seq<Text>, x: Text)
    ensures multiset(Rest(parts))[x] == if IsKey(NameOf(x)) then 0 else multiset(parts)[x]
    decreases |parts|
  {
    hide NameOf;
    if parts != [] {
      var front, last := parts[..|parts| - 1], parts[|parts| - 1];
      RestCounts(front, x);
      assert parts == front + [last];
    }
  }

  /** With distinct names the key items are the parts that bear these names. */
  lemma {:induction false} KeyedIsLookup(parts: seq<Text>, x: Text)
    requires DistinctNames(parts) && IsKey(NameOf(x))
    ensures x in parts <==> NameOf(x) in Keyed(parts) && Keyed(parts)[NameOf(x)] == x
    decreases |parts|
  {
    hide NameOf;
    if parts != [] {
      var front, last := parts[..|parts| - 1], parts[|parts| - 1];
      KeyedIsLookup(front, x);
      assert parts == front + [last];
    }
  }

  /** Two capture orders of the same cookies have the same key items. */
  lemma KeyedIgnoresOrder(a: seq<Text>, b: seq<Text>)
    requires DistinctNames(a) && DistinctNames(b) && multiset(a) == multiset(b)
    ensures Keyed(a) == Keyed(b)
  {
    hide NameOf;
    forall k ensures k in Keyed(a) <==> k in Keyed(b) {
      if k in Keyed(a) {
        assert Keyed(a)[k] in multiset(a);
        KeyedIsLookup(b, Keyed(a)[k]);
      }
      if k in Keyed(b) {
        assert Keyed(b)[k] in multiset(b);
        KeyedIsLookup(a, Keyed(b)[k]);
      }
    }
    forall k | k in Keyed(a) ensures Keyed(a)[k] == Keyed(b)[k] {
      assert Keyed(a)[k] in multiset(a);
      KeyedIsLookup(b, Keyed(a)[k]);
    }
  }

  /** For cookies with distinct names, the order in which they were captured cannot be seen in
      the result. */
  lemma CanonicalIgnoresOrder(a: seq<Text>, b: seq<Text>, outA: seq<Text>, outB: seq<Text>)
    requires DistinctNames(a) && DistinctNames(b) && multiset(a) == multiset(b)
    requires IsCanonical(a, outA) && IsCanonical(b, outB)
    ensures outA == outB
  {
    KeyedIgnoresOrder(a, b);
    forall x ensures multiset(Rest(a))[x] == multiset(Rest(b))[x] {
      RestCounts(a, x);
      RestCounts(b, x);
    }
    hide Sorted, NameOf;
    var tailA :| && outA == InKeyOrder(KEY_ORDER, Keyed(a)) + tailA
                 && Sorted(tailA) && multiset(tailA) == multiset(Rest(a));
    var tailB :| && outB == InKeyOrder(KEY_ORDER, Keyed(b)) + tailB
                 && Sorted(tailB) && multiset(tailB) == multiset(Rest(b));
    SortedIsUnique(tailA, tailB);
  }

  lemma {:induction false} InKeyOrderCounts(keys: seq<Text>, keyed: map<Text, Text>, x: Text)
    requires forall i, j :: 0 <= i < j < |keys| ==> keys[i] != keys[j]
    requires forall k :: k in keyed ==> NameOf(keyed[k]) == k
    ensures multiset(InKeyOrder(keys, keyed))[x] ==
            if NameOf(x) in keys && NameOf(x) in keyed && keyed[NameOf(x)] == x then 1 else 0
    decreases |keys|
  {
    hide NameOf;
    if keys != [] {
      InKeyOrderCounts(keys[1..], keyed, x);
      assert keys == [keys[0]] + keys[1..];
      assert keys[0] !in keys[1..];
    }
  }

  lemma {:induction false} DistinctCountsOnce(parts: seq<Text>, x: Text)
    requires DistinctNames(parts)
    ensures multiset(parts)[x] == if x in parts then 1 else 0
    decreases |parts|
  {
    hide NameOf;
    if parts != [] {
      var front, last := parts[..|parts| - 1], parts[|parts| - 1];
      DistinctCountsOnce(front, x);
      assert parts == front + [last];
    }
  }

  /** No cookie is lost or doubled. */
  lemma CanonicalIsPermutation(parts: seq<Text>, out: seq<Text>)
    requires DistinctNames(parts) && IsCanonical(parts, out)
    ensures multiset(out) == multiset(parts)
  {
    KeysAreDistinct();
    hide Sorted, NameOf;
    var keys := InKeyOrder(KEY_ORDER, Keyed(parts));
    var tail :| out == keys + tail && Sorted(tail) && multiset(tail) == multiset(Rest(parts));
    assert multiset(out) == multiset(keys) + multiset(tail);
    forall x ensures multiset(out)[x] == multiset(parts)[x] {
      InKeyOrderCounts(KEY_ORDER, Keyed(parts), x);
      RestCounts(parts, x);
      if IsKey(NameOf(x)) {
        KeyedIsLookup(parts, x);
        DistinctCountsOnce(parts, x);
      }
    }
  }

  // ---------------------------------------------------------------- the same without a table

  /** The names that have a place of their own. */
  const PLACES: seq<string> := ["SID", "HSID", "SSID", "APISID", "SAPISID", "__Secure-1PSID", "__Secure-1PSIDTS",
                                "__Secure-1PAPISID", "__Secure-1PSIDCC"]

  ghost predicate Spelled(t: Text, key: string) {
    |t| == |key| && forall i :: 0 <= i < |key| ==> t[i] == key[i] as int
  }

  /** The name, alone or in front of an equals sign. */
  ghost predicate Bears(part: Text, name: string) {
    |name| <= |part| && Spelled(part[..|name|], name) && (|part| == |name| || part[|name|] == 61)
  }

  /** The place of a cookie: nine names have one each, all others share the last. */
  ghost function Place(part: Text): (k: nat)
    ensures k <= 9
  {
    if exists k: nat :: k < 9 && Bears(part, PLACES[k]) then
      var k: nat :| k < 9 && Bears(part, PLACES[k]);
      k
    else 9
  }

  /** `a` is `b`, or its beginning, or smaller at the first byte in which they differ. */
  ghost predicate BytesLe(a: Text, b: Text) {
    a <= b || exists k :: 0 <= k < |a| && k < |b| && a[..k] == b[..k] && a[k] < b[k]
  }

  lemma {:induction false} LeMeans(a: Text, b: Text)
    ensures Le(a, b) <==> BytesLe(a, b)
    decreases |a|
  {
    if a != [] && b != [] && a[0] == b[0] {
      LeMeans(a[1..], b[1..]);
      assert a == [a[0]] + a[1..] && b == [b[0]] + b[1..];
      if k :| 0 <= k < |a[1..]| && k < |b[1..]| && a[1..][..k] == b[1..][..k] && a[1..][k] < b[1..][k] {
        assert a[..k + 1] == [a[0]] + a[1..][..k] && b[..k + 1] == [b[0]] + b[1..][..k];
        assert a[k + 1] < b[k + 1];
      }
      if k :| 0 <= k < |a| && k < |b| && a[..k] == b[..k] && a[k] < b[k] {
        assert a[1..][..k - 1] == a[..k][1..] && b[1..][..k - 1] == b[..k][1..];
        assert a[1..][k - 1] < b[1..][k - 1];
      }
    } else if a != [] && b != [] {
      if a[0] < b[0] {
        assert a[..0] == b[..0];
      }
      if k :| 0 <= k < |a| && k < |b| && a[..k] == b[..k] && a[k] < b[k] {
        assert k > 0 ==> a[..k][0] == b[..k][0];
      }
    }
  }

  lemma NameMeans(part: Text, key: Text, name: string)
    requires key != [] && Spelled(key, name) && EQUALS !in key
    ensures NameOf(part) == key <==> Bears(part, name)
  {
    IndexByte(part, EQUALS);
    var i := Index(part, [EQUALS]);
    hide Index;
    if Bears(part, name) {
      assert part[..|name|] == key;
      if |part| > |name| {
        assert part == key + [EQUALS] + part[|key| + 1..];
        IndexByteIs(key, EQUALS, part[|key| + 1..]);
      } else {
        assert part == key;
      }
    }
    if NameOf(part) == key {
      assert part[..|key|] == key;
    }
  }

  lemma KeyIsSpelled(k: nat)
    requires k < 9
    ensures |KEY_ORDER| == |PLACES| == 9
    ensures KEY_ORDER[k] != [] && Spelled(KEY_ORDER[k], PLACES[k]) && EQUALS !in KEY_ORDER[k]
  {
    if k < 5 {
    } else if k < 7 {
    } else {
    }
  }

  lemma PlaceMeans(part: Text, k: nat)
    requires k < 9
    ensures |KEY_ORDER| == 9
    ensures Place(part) == k <==> NameOf(part) == KEY_ORDER[k]
  {
    hide NameOf, Bears, Spelled;
    KeysAreDistinct();
    forall n: nat | n < 9 ensures |KEY_ORDER| == 9 && (NameOf(part) == KEY_ORDER[n] <==> Bears(part, PLACES[n])) {
      KeyIsSpelled(n);
      NameMeans(part, KEY_ORDER[n], PLACES[n]);
    }
  }

  lemma PlacesMean(part: Text)
    ensures |KEY_ORDER| == 9
    ensures Place(part) < 9 <==> IsKey(NameOf(part))
    ensures Place(part) < 9 ==> NameOf(part) == KEY_ORDER[Place(part)]
  {
    if Place(part) < 9 {
      PlaceMeans(part, Place(part));
    }
    if k :| 0 <= k < |KEY_ORDER| && KEY_ORDER[k] == NameOf(part) {
      PlaceMeans(part, k);
    }
  }

  /** These items bear the names at these ascending places of the list. */
  ghost predicate Follow(out: seq<Text>, keys: seq<Text>, at: seq<nat>) {
    && |at| == |out|
    && (forall i :: 0 <= i < |at| ==> at[i] < |keys| && NameOf(out[i]) == keys[at[i]])
    && forall i, j :: 0 <= i < j < |at| ==> at[i] < at[j]
  }

  lemma FollowLater(out: seq<Text>, keys: seq<Text>, at: seq<nat>) returns (later: seq<nat>)
    requires keys != [] && Follow(out, keys[1..], at)
    ensures Follow(out, keys, later) && forall i :: 0 <= i < |later| ==> later[i] > 0
  {
    hide NameOf;
    later := seq(|at|, i requires 0 <= i < |at| => at[i] + 1);
    assert forall k :: 1 <= k < |keys| ==> keys[k] == keys[1..][k - 1];
  }

  lemma FollowFirst(x: Text, out: seq<Text>, keys: seq<Text>, at: seq<nat>)
    requires Follow(out, keys, at) && keys != [] && NameOf(x) == keys[0] && forall i :: 0 <= i < |at| ==> at[i] > 0
    ensures Follow([x] + out, keys, [0] + at)
  {
    hide NameOf;
  }

  /** The picked items do. */
  lemma {:induction false} ItemsFollowKeys(keys: seq<Text>, keyed: map<Text, Text>) returns (at: seq<nat>)
    requires forall k :: k in keyed ==> NameOf(keyed[k]) == k
    ensures Follow(InKeyOrder(keys, keyed), keys, at)
    decreases |keys|
  {
    at := [];
    if keys != [] {
      hide NameOf, Follow;
      var rest := InKeyOrder(keys[1..], keyed);
      at := ItemsFollowKeys(keys[1..], keyed);
      at := FollowLater(rest, keys, at);
      if keys[0] in keyed {
        FollowFirst(keyed[keys[0]], rest, keys, at);
        at := [0] + at;
      } else {
        assert [] + rest == rest;
      }
    }
  }

  lemma KeyItemsAscend(keyed: map<Text, Text>)
    requires forall k :: k in keyed ==> NameOf(keyed[k]) == k
    ensures var out := InKeyOrder(KEY_ORDER, keyed);
            && (forall i :: 0 <= i < |out| ==> Place(out[i]) < 9)
            && forall i, j :: 0 <= i < j < |out| ==> Place(out[i]) < Place(out[j])
  {
    hide NameOf, Place, InKeyOrder;
    PlacesMean([]);
    var out := InKeyOrder(KEY_ORDER, keyed);
    var at := ItemsFollowKeys(KEY_ORDER, keyed);
    forall i | 0 <= i < |out| ensures Place(out[i]) == at[i] < 9 {
      PlaceMeans(out[i], at[i]);
    }
  }

  ghost predicate IsLastAt(parts: seq<Text>, x: Text, i: nat) {
    i < |parts| && parts[i] == x && forall j :: i < j < |parts| ==> NameOf(parts[j]) != NameOf(x)
  }

  lemma KeyedOneMore(parts: seq<Text>, k: Text)
    requires parts != [] && IsKey(k)
    ensures var last, front := parts[|parts| - 1], Keyed(parts[..|parts| - 1]);
            if NameOf(last) == k then k in Keyed(parts) && Keyed(parts)[k] == last
            else (k in Keyed(parts) <==> k in front) && (k in front ==> Keyed(parts)[k] == front[k])
  {
    hide NameOf, IsKey;
  }

  /** The last part with this name. */
  function LastNamed(parts: seq<Text>, k: Text): seq<Text>
    decreases |parts|
  {
    if parts == [] then []
    else if NameOf(parts[|parts| - 1]) == k then [parts[|parts| - 1]]
    else LastNamed(parts[..|parts| - 1], k)
  }

  lemma {:induction false} LastNamedIsLast(parts: seq<Text>, x: Text)
    ensures LastNamed(parts, NameOf(x)) == [x] <==> exists i: nat :: IsLastAt(parts, x, i)
    decreases |parts|
  {
    hide NameOf;
    if parts != [] {
      var n := |parts| - 1;
      var front := parts[..n];
      LastNamedIsLast(front, x);
      if NameOf(parts[n]) == NameOf(x) {
        assert IsLastAt(parts, x, n) <==> parts[n] == x;
      } else {
        forall i: nat ensures IsLastAt(parts, x, i) <==> IsLastAt(front, x, i) {
        }
      }
    }
  }

  /** Of several parts with a name that has a place of its own, the last one is kept. */
  lemma {:induction false} KeyedIsLast(parts: seq<Text>, k: Text)
    requires IsKey(k)
    ensures LastNamed(parts, k) == if k in Keyed(parts) then [Keyed(parts)[k]] else []
    decreases |parts|
  {
    if parts != [] {
      KeyedOneMore(parts, k);
      KeyedIsLast(parts[..|parts| - 1], k);
      hide NameOf, Keyed, IsKey;
    }
  }

  /** The result, told by places: they ascend, cookies without one are in bytewise order and all
      there, and of the others exactly the last of each name is. */
  ghost predicate IsOrdered(parts: seq<Text>, out: seq<Text>) {
    && (forall i, j :: 0 <= i < j < |out| ==>
          Place(out[i]) < Place(out[j]) || (Place(out[i]) == Place(out[j]) == 9 && BytesLe(out[i], out[j])))
    && (forall x :: Place(x) == 9 ==> multiset(out)[x] == multiset(parts)[x])
    && (forall x :: Place(x) < 9 ==> (x in out <==> IsLastOfName(parts, x)))
  }

  ghost predicate IsLastOfName(parts: seq<Text>, x: Text) {
    exists i: nat :: i < |parts| && parts[i] == x && forall j :: i < j < |parts| ==> Place(parts[j]) != Place(x)
  }

  lemma LastOfNameMeans(parts: seq<Text>, x: Text)
    requires Place(x) < 9
    ensures IsKey(NameOf(x))
    ensures IsLastOfName(parts, x) <==> NameOf(x) in Keyed(parts) && Keyed(parts)[NameOf(x)] == x
  {
    hide NameOf, Place;
    PlacesMean(x);
    KeyedIsLast(parts, NameOf(x));
    LastNamedIsLast(parts, x);
    forall j | 0 <= j < |parts| ensures Place(parts[j]) == Place(x) <==> NameOf(parts[j]) == NameOf(x) {
      PlaceMeans(parts[j], Place(x));
    }
    if i: nat :| IsLastAt(parts, x, i) {
      assert parts[i] == x && forall j :: i < j < |parts| ==> Place(parts[j]) != Place(x);
    }
    if i: nat :| i < |parts| && parts[i] == x && forall j :: i < j < |parts| ==> Place(parts[j]) != Place(x) {
      assert IsLastAt(parts, x, i);
    }
  }

  lemma CanonicalIsOrdered(parts: seq<Text>, out: seq<Text>)
    requires IsCanonical(parts, out)
    ensures IsOrdered(parts, out)
  {
    var keys := InKeyOrder(KEY_ORDER, Keyed(parts));
    hide NameOf, Place, InKeyOrder, Keyed, Rest, BytesLe, IsLastOfName, Sorted;
    var tail :| out == keys + tail && Sorted(tail) && multiset(tail) == multiset(Rest(parts));
    PlacesAscend(parts, keys, tail);
    assert multiset(out) == multiset(keys) + multiset(tail);
    forall x
      ensures Place(x) == 9 ==> multiset(out)[x] == multiset(parts)[x]
      ensures Place(x) < 9 ==> (x in out <==> IsLastOfName(parts, x))
    {
      CountByPlace(parts, keys, tail, x);
      assert x in out <==> multiset(out)[x] > 0;
    }
  }

  lemma PlacesAscend(parts: seq<Text>, keys: seq<Text>, tail: seq<Text>)
    requires keys == InKeyOrder(KEY_ORDER, Keyed(parts)) && Sorted(tail) && multiset(tail) == multiset(Rest(parts))
    ensures var out := keys + tail;
            forall i, j :: 0 <= i < j < |out| ==>
              Place(out[i]) < Place(out[j]) || (Place(out[i]) == Place(out[j]) == 9 && BytesLe(out[i], out[j]))
  {
    hide NameOf, Place, InKeyOrder, Keyed, Rest, BytesLe, Le;
    KeyItemsAscend(Keyed(parts));
    forall k | 0 <= k < |tail| ensures Place(tail[k]) == 9 {
      RestCounts(parts, tail[k]);
      PlacesMean(tail[k]);
      assert multiset(tail)[tail[k]] > 0;
    }
    var out := keys + tail;
    forall i, j | 0 <= i < j < |out|
      ensures Place(out[i]) < Place(out[j]) || (Place(out[i]) == Place(out[j]) == 9 && BytesLe(out[i], out[j]))
    {
      if i >= |keys| {
        assert out[i] == tail[i - |keys|] && out[j] == tail[j - |keys|];
        LeMeans(out[i], out[j]);
      } else if j >= |keys| {
        assert out[i] == keys[i] && out[j] == tail[j - |keys|];
      } else {
        assert out[i] == keys[i] && out[j] == keys[j];
      }
    }
  }

  lemma CountByPlace(parts: seq<Text>, keys: seq<Text>, tail: seq<Text>, x: Text)
    requires keys == InKeyOrder(KEY_ORDER, Keyed(parts)) && multiset(tail) == multiset(Rest(parts))
    ensures var n := multiset(keys)[x] + multiset(tail)[x];
            if Place(x) == 9 then n == multiset(parts)[x] else (n > 0 <==> IsLastOfName(parts, x))
  {
    KeysAreDistinct();
    InKeyOrderCounts(KEY_ORDER, Keyed(parts), x);
    RestCounts(parts, x);
    PlacesMean(x);
    if Place(x) < 9 {
      LastOfNameMeans(parts, x);
    }
  }

  method Classify(parts: seq<Text>) returns (keyed: map<Text, Text>, rest: seq<Text>)
    ensures keyed == Keyed(parts) && rest == Rest(parts)
  {
    keyed, rest := map[], [];
    hide NameOf;
    for i := 0 to |parts|
      invariant keyed == Keyed(parts[..i]) && rest == Rest(parts[..i])
    {
      var p := parts[i];
      assert parts[..i + 1][..i] == parts[..i];
      if IsKey(NameOf(p)) {
        keyed := keyed[NameOf(p) := p];
      } else {
        rest := rest + [p];
      }
    }
    assert parts[..|parts|] == parts;
  }

  method PickInOrder(keys: seq<Text>, keyed: map<Text, Text>) returns (out: seq<Text>)
    ensures out == InKeyOrder(keys, keyed)
  {
    out := [];
    assert keys[0..] == keys;
    for k := 0 to |keys|
      invariant out + InKeyOrder(keys[k..], keyed) == InKeyOrder(keys, keyed)
    {
      var rest := InKeyOrder(keys[k + 1..], keyed);
      assert keys[k..][1..] == keys[k + 1..];
      if keys[k] in keyed {
        assert out + ([keyed[keys[k]]] + rest) == (out + [keyed[keys[k]]]) + rest;
        out := out + [keyed[keys[k]]];
      }
    }
    assert out + [] == out;
  }

  /** `orderCookieString`, with the parts it joins. */
  method OrderCookieString(parts: seq<Text>) returns (r: Text, out: seq<Text>)
    ensures IsCanonical(parts, out) && IsOrdered(parts, out)
    ensures r == Join(out)
  {
    var keyed, rest := Classify(parts);
    hide Keyed, Rest, Sorted, Join, InKeyOrder, IsOrdered;
    var a := new Text[|rest|](i requires 0 <= i < |rest| => rest[i]);
    assert a[..] == rest;
    SortStrings(a);
    out := PickInOrder(KEY_ORDER, keyed);
    out := out + a[..];
    CanonicalIsOrdered(parts, out);
    return Join(out), out;
  }
}
