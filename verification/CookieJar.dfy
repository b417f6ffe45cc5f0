/** Cookie strings in the `cookie-string` form of section 4.2.1 of RFC 6265, and the merging of
    Set-Cookie headers into them (internal/app/cookie_pool.go). */
module CookieJar {
  import opened GoStrings
  import opened Utf8
  import opened Wrappers

  const SEMICOLON: byte := 59
  const EQUALS: byte := 61
  const SPACE: byte := 32

  datatype Pair = Pair(name: Text, value: Text)

  // ---------------------------------------------------------------- parsing

  /** `strings.Split(s, ";")` */
  function Split(s: Text): (parts: seq<Text>)
    ensures parts != []
    decreases |s|
  {
    var i := Index(s, [SEMICOLON]);
    if i < 0 then [s] else [s[..i]] + Split(s[i + 1..])
  }

  /** One part, trimmed and cut at its first '=', which must not come first. */
  function ParsePart(part: Text): Option<Pair> {
    var p := TrimSpace(part);
    var i := Index(p, [EQUALS]);
    if i > 0 then Some(Pair(p[..i], p[i + 1..])) else None
  }

  function ParseParts(parts: seq<Text>): seq<Pair> {
    if parts == [] then []
    else
      match ParsePart(parts[0])
      case None => ParseParts(parts[1..])
      case Some(p) => [p] + ParseParts(parts[1..])
  }

  /** `splitCookiePairs` */
  function Pairs(cookie: Text): seq<Pair> {
    ParseParts(Split(cookie))
  }

  /** The first value under a name, as `cookieValue` reads it. */
  function Lookup(ps: seq<Pair>, name: Text): Option<Text> {
    if ps == [] then None
    else if ps[0].name == name then Some(ps[0].value)
    else Lookup(ps[1..], name)
  }

  // ---------------------------------------------------------------- rendering

  function RenderPair(p: Pair): Text {
    p.name + [EQUALS] + p.value
  }

  /** `strings.Join(parts, "; ")` */
  function Join(parts: seq<Text>): Text {
    if parts == [] then []
    else if |parts| == 1 then parts[0]
    else parts[0] + [SEMICOLON, SPACE] + Join(parts[1..])
  }

  function RenderAll(ps: seq<Pair>): (parts: seq<Text>)
    ensures |parts| == |ps|
    ensures forall i :: 0 <= i < |ps| ==> parts[i] == RenderPair(ps[i])
  {
    seq(|ps|, i requires 0 <= i < |ps| => RenderPair(ps[i]))
  }

  /** Nothing that would be read differently after rendering. */
  ghost predicate CleanPair(p: Pair) {
    && p.name != [] && EQUALS !in p.name
    && SEMICOLON !in p.name && SEMICOLON !in p.value
    && LeadingSpace(RenderPair(p)) == 0 && TrailingSpace(RenderPair(p)) == 0
  }

  ghost predicate AllClean(ps: seq<Pair>) {
    forall i :: 0 <= i < |ps| ==> CleanPair(ps[i])
  }

  // ---------------------------------------------------------------- single bytes

  lemma OccursByte(s: Text, b: byte, i: int)
    ensures OccursAt(s, [b], i) <==> 0 <= i < |s| && s[i] == b
  {
    if 0 <= i < |s| {
      assert s[i..i + 1] == [s[i]];
    }
  }

  lemma IndexByte(s: Text, b: byte)
    ensures var i := Index(s, [b]);
            && (i < 0 <==> b !in s)
            && (i >= 0 ==> i < |s| && s[i] == b && b !in s[..i])
  {
    IndexFinds(s, [b]);
    hide Index;
    forall k ensures OccursAt(s, [b], k) <==> 0 <= k < |s| && s[k] == b {
      OccursByte(s, b, k);
    }
    hide OccursAt;
    var i := Index(s, [b]);
    if i < 0 {
      forall k | 0 <= k < |s| ensures s[k] != b {
        assert !OccursAt(s, [b], k);
      }
    } else {
      forall k | 0 <= k < i ensures s[..i][k] != b {
        assert !OccursAt(s, [b], k);
      }
    }
  }

  /** The first occurrence of a byte, recognised from its surroundings. */
  lemma IndexByteIs(p: Text, b: byte, rest: Text)
    requires b !in p
    ensures Index(p + [b] + rest, [b]) == |p|
  {
    var s := p + [b] + rest;
    forall k | 0 <= k < |p| ensures !OccursAt(s, [b], k) {
      OccursByte(s, b, k);
      assert s[k] == p[k];
    }
    OccursByte(s, b, |p|);
    IndexIs(s, [b], |p|);
  }

  // ---------------------------------------------------------------- round trip

  lemma TrimmedEnds(s: Text)
    ensures LeadingSpace(TrimSpace(s)) == 0 && TrailingSpace(TrimSpace(s)) == 0
    ensures forall b :: b in TrimSpace(s) ==> b in s
  {
    var l, r := TrimLeft(s), TrimSpace(s);
    TrimLeftLeavesSuffix(s);
    TrimRightLeavesPrefix(l);
    hide TrimLeft, TrimRight, TrailingSpace, LeadingSpace;
    assert r == l[..|r|];
    if r != [] {
      TrimRightKeepsStart(l, |r|);
    } else {
      LeadingSpaceOfNothing();
    }
  }

  lemma LeadingSpaceOfNothing()
    ensures LeadingSpace([]) == 0
  {
  }

  /** Cutting at the end uncovers no leading white space. */
  lemma TrimRightKeepsStart(l: Text, n: nat)
    requires n <= |l| && LeadingSpace(l) == 0
    ensures LeadingSpace(l[..n]) == 0
  {
    var p := l[..n];
    assert forall k :: 0 <= k < n ==> p[k] == l[k];
  }

  /** What parsing yields survives another round of rendering and parsing. */
  lemma ParsedPartIsClean(part: Text)
    requires SEMICOLON !in part && ParsePart(part).Some?
    ensures CleanPair(ParsePart(part).value)
  {
    TrimmedEnds(part);
    hide TrimSpace, LeadingSpace, TrailingSpace;
    var p := TrimSpace(part);
    IndexByte(p, EQUALS);
    hide Index;
    var i := Index(p, [EQUALS]);
    assert p == p[..i] + [EQUALS] + p[i + 1..];
    assert forall b :: b in p ==> b in part;
  }

  lemma {:induction false} SplitPartsPlain(s: Text, k: nat)
    requires k < |Split(s)|
    ensures SEMICOLON !in Split(s)[k]
    decreases |s|
  {
    IndexByte(s, SEMICOLON);
    hide Index;
    if k > 0 {
      SplitPartsPlain(s[Index(s, [SEMICOLON]) + 1..], k - 1);
    }
  }

  lemma {:induction false} ParsedPartsAreClean(parts: seq<Text>)
    requires forall k :: 0 <= k < |parts| ==> SEMICOLON !in parts[k]
    ensures AllClean(ParseParts(parts))
    decreases |parts|
  {
    hide ParsePart, CleanPair;
    if parts != [] {
      ParsedPartsAreClean(parts[1..]);
      if ParsePart(parts[0]).Some? {
        ParsedPartIsClean(parts[0]);
      }
    }
  }

  lemma PairsAreClean(cookie: Text)
    ensures AllClean(Pairs(cookie))
  {
    forall k | 0 <= k < |Split(cookie)| ensures SEMICOLON !in Split(cookie)[k] {
      SplitPartsPlain(cookie, k);
    }
    ParsedPartsAreClean(Split(cookie));
  }

  lemma RenderedPairParses(p: Pair)
    requires CleanPair(p)
    ensures ParsePart(RenderPair(p)) == Some(p)
    ensures ParsePart([SPACE] + RenderPair(p)) == Some(p)
  {
    var t := RenderPair(p);
    TrimSpaceFixed(t);
    assert LeadingSpace([SPACE] + t) == 1 && ([SPACE] + t)[1..] == t;
    assert TrimLeft([SPACE] + t) == TrimLeft(t) == t;
    hide TrimLeft, TrimRight, LeadingSpace, TrailingSpace;
    IndexByteIs(p.name, EQUALS, p.value);
    hide Index;
    assert t[..|p.name|] == p.name && t[|p.name| + 1..] == p.value;
  }

  lemma RenderHasNoSemicolon(p: Pair)
    requires CleanPair(p)
    ensures SEMICOLON !in RenderPair(p)
  {
  }

  /** Splitting a joined string: the first part as it was, the rest behind one space. */
  lemma SplitOfJoin(first: Text, rest: Text)
    requires SEMICOLON !in first
    ensures Split(first + [SEMICOLON, SPACE] + rest) == [first] + Split([SPACE] + rest)
  {
    var s := first + [SEMICOLON, SPACE] + rest;
    assert s == first + [SEMICOLON] + ([SPACE] + rest);
    IndexByteIs(first, SEMICOLON, [SPACE] + rest);
    hide Index;
    assert s[|first| + 1..] == [SPACE] + rest;
    assert s[..|first|] == first;
  }

  lemma SplitPlain(s: Text)
    requires SEMICOLON !in s
    ensures Split(s) == [s]
  {
    IndexByte(s, SEMICOLON);
  }

  lemma {:induction false} RenderedParse(ps: seq<Pair>, pad: Text)
    requires AllClean(ps) && ps != [] && (pad == [] || pad == [SPACE])
    ensures ParseParts(Split(pad + Join(RenderAll(ps)))) == ps
    decreases |ps|
  {
    hide CleanPair, ParsePart, Split, RenderPair;
    var t, parts := RenderPair(ps[0]), RenderAll(ps);
    assert CleanPair(ps[0]);
    RenderedPairParses(ps[0]);
    assert [] + t == t;
    RenderHasNoSemicolon(ps[0]);
    assert SEMICOLON !in pad + t;
    if |ps| == 1 {
      assert Join(parts) == t;
      SplitPlain(pad + t);
      assert ps == [ps[0]];
    } else {
      var rest := Join(parts[1..]);
      assert parts[1..] == RenderAll(ps[1..]);
      assert pad + Join(parts) == (pad + t) + [SEMICOLON, SPACE] + rest;
      SplitOfJoin(pad + t, rest);
      RenderedParse(ps[1..], [SPACE]);
      assert ([pad + t] + Split([SPACE] + rest))[1..] == Split([SPACE] + rest);
      assert ps == [ps[0]] + ps[1..];
    }
  }

  /** Parsing a rendered list of clean pairs gives the list back. */
  lemma RenderRoundTrip(ps: seq<Pair>)
    requires AllClean(ps)
    ensures Pairs(Join(RenderAll(ps))) == ps
  {
    if ps == [] {
      assert RenderAll(ps) == [];
      SplitPlain([]);
      assert ParsePart([]) == None;
    } else {
      RenderedParse(ps, []);
      assert [] + Join(RenderAll(ps)) == Join(RenderAll(ps));
    }
  }

  // ---------------------------------------------------------------- Set-Cookie

  /** "expires=thu, 01 jan 1970" */
  const EPOCH_EXPIRY: Text := [101, 120, 112, 105, 114, 101, 115, 61, 116, 104, 117, 44, 32, 48, 49, 32, 106, 97, 110, 32, 49, 57, 55, 48]

  /** `strings.ToLower`, as far as the text searched for can show it: besides A to Z, only U+0130
      becomes one of its letters, the i. */
  function Lower(s: Text): Text {
    if s == [] then []
    else if |s| >= 2 && s[0] == 0xC4 && s[1] == 0xB0 then [105] + Lower(s[2..])
    else [if 65 <= s[0] <= 90 then s[0] + 32 else s[0]] + Lower(s[1..])
  }

  /** `s` begins with `m`, a text in small letters, in any letter case. */
  predicate Spells(s: Text, m: Text)
    decreases |m|
  {
    m == [] ||
    (s != [] && (s[0] == m[0] || (97 <= m[0] <= 122 && s[0] == m[0] - 32)) && Spells(s[1..], m[1..])) ||
    (|s| >= 2 && m[0] == 105 && s[0] == 0xC4 && s[1] == 0xB0 && Spells(s[2..], m[1..]))
  }

  predicate SmallAscii(m: Text) {
    forall k :: 0 <= k < |m| ==> m[k] < 128 && !(65 <= m[k] <= 90)
  }

  lemma {:induction false} SpellsIsPrefix(s: Text, m: Text)
    requires SmallAscii(m)
    ensures Spells(s, m) <==> m <= Lower(s)
    decreases |m|
  {
    if m != [] && s != [] {
      var n := if |s| >= 2 && s[0] == 0xC4 && s[1] == 0xB0 then 2 else 1;
      assert SmallAscii(m[1..]);
      SpellsIsPrefix(s[n..], m[1..]);
      assert Lower(s)[1..] == Lower(s[n..]);
      assert m == [m[0]] + m[1..];
      assert Lower(s) == [Lower(s)[0]] + Lower(s[n..]);
      assert m <= Lower(s) <==> m[0] == Lower(s)[0] && m[1..] <= Lower(s[n..]);
    }
  }

  ghost predicate Somewhere(s: Text, m: Text) {
    exists k :: 0 <= k <= |s| && Spells(s[k..], m)
  }

  lemma NoSmallStart(s: Text, m: Text)
    requires SmallAscii(m) && m != [] && s != [] && s[0] == 0xB0
    ensures !Spells(s, m)
  {
  }

  /** Here, or behind the first `n` bytes. */
  lemma SomewhereLater(s: Text, m: Text, n: nat)
    requires m != [] && 1 <= n <= |s| && n <= 2 && (n == 2 ==> !Spells(s[1..], m))
    ensures Somewhere(s, m) <==> Spells(s, m) || Somewhere(s[n..], m)
  {
    hide Spells;
    assert s[0..] == s;
    if k :| 0 <= k <= |s| && Spells(s[k..], m) {
      if k >= n {
        assert s[n..][k - n..] == s[k..];
      }
    }
    if k :| 0 <= k <= |s[n..]| && Spells(s[n..][k..], m) {
      assert s[n..][k..] == s[n + k..];
    }
  }

  lemma NothingSpelled(m: Text)
    requires m != []
    ensures !Somewhere([], m) && Index([], m) < 0
  {
    IndexFinds([], m);
  }

  lemma {:induction false} LowerFinds(s: Text, m: Text)
    requires SmallAscii(m) && m != []
    ensures Index(Lower(s), m) >= 0 <==> Somewhere(s, m)
    decreases |s|
  {
    hide Index, Spells, SmallAscii, Somewhere;
    if s == [] {
      NothingSpelled(m);
    } else {
      var n := if |s| >= 2 && s[0] == 0xC4 && s[1] == 0xB0 then 2 else 1;
      var low, rest := Lower(s), Lower(s[n..]);
      LowerFinds(s[n..], m);
      assert low == [low[0]] + rest;
      if n == 2 {
        NoSmallStart(s[1..], m);
      }
      hide Lower;
      SpellsIsPrefix(s, m);
      OccursBehind(low[0], rest, m);
      SomewhereLater(s, m, n);
    }
  }

  lemma OccursBehind(b: byte, rest: Text, m: Text)
    requires m != []
    ensures Index([b] + rest, m) >= 0 <==> m <= [b] + rest || Index(rest, m) >= 0
  {
    var s := [b] + rest;
    IndexFinds(s, m);
    IndexFinds(rest, m);
    hide Index;
    if m <= s {
      assert OccursAt(s, m, 0);
    }
    if Index(rest, m) >= 0 {
      OccursInSuffix([b], rest, m, Index(rest, m));
    }
    if Index(s, m) > 0 {
      OccursInSuffix([b], rest, m, Index(s, m) - 1);
    }
  }

  /** Somewhere in the header, in any letter case: "expires=thu, 01 jan 1970". */
  ghost predicate SaysEpoch(header: Text) {
    Somewhere(header, Ascii("expires=thu, 01 jan 1970"))
  }

  /** An empty value with an expiry in 1970: a request to delete, not a value. */
  predicate IsDeletion(header: Text, value: Text) {
    value == [] && Index(Lower(header), EPOCH_EXPIRY) >= 0
  }

  /** The update one Set-Cookie header stands for, if any. */
  function UpdateOf(header: Text): Option<Pair> {
    match ParsePart(Split(header)[0])
    case None => None
    case Some(p) => if IsDeletion(header, p.value) then None else Some(p)
  }

  lemma EpochExpiryIs()
    ensures EPOCH_EXPIRY == Ascii("expires=thu, 01 jan 1970") && SmallAscii(EPOCH_EXPIRY)
  {
  }

  lemma DeletionMeans(header: Text, value: Text)
    ensures IsDeletion(header, value) <==> value == [] && SaysEpoch(header)
  {
    EpochExpiryIs();
    LowerFinds(header, EPOCH_EXPIRY);
    hide Lower, Index, Somewhere;
  }

  function Updates(headers: seq<Text>): map<Text, Text>
    decreases |headers|
  {
    if headers == [] then map[]
    else
      var before := Updates(headers[..|headers| - 1]);
      match UpdateOf(headers[|headers| - 1])
      case None => before
      case Some(p) => before[p.name := p.value]
  }

  lemma OneMoreHeader(headers: seq<Text>, name: Text)
    requires headers != []
    ensures var last, before := UpdateOf(headers[|headers| - 1]), Updates(headers[..|headers| - 1]);
            if last.Some? && last.value.name == name
            then name in Updates(headers) && Updates(headers)[name] == last.value.value
            else (name in Updates(headers) <==> name in before)
                 && (name in before ==> Updates(headers)[name] == before[name])
  {
    hide UpdateOf;
  }

  /** A name's update is the last effective header for it. */
  lemma {:induction false} UpdatesAreLast(headers: seq<Text>, name: Text)
    ensures name in Updates(headers) <==>
            exists i :: 0 <= i < |headers| && UpdateOf(headers[i]).Some? && UpdateOf(headers[i]).value.name == name
    ensures name in Updates(headers) ==>
            exists i :: && 0 <= i < |headers| && UpdateOf(headers[i]) == Some(Pair(name, Updates(headers)[name]))
                        && forall j :: i < j < |headers| && UpdateOf(headers[j]).Some? ==>
                                         UpdateOf(headers[j]).value.name != name
    decreases |headers|
  {
    hide UpdateOf;
    if headers != [] {
      var last := |headers| - 1;
      var front := headers[..last];
      UpdatesAreLast(front, name);
      OneMoreHeader(headers, name);
      hide Updates;
      assert forall i :: 0 <= i < last ==> front[i] == headers[i];
      if UpdateOf(headers[last]).Some? && UpdateOf(headers[last]).value.name == name {
        assert UpdateOf(headers[last]) == Some(Pair(name, Updates(headers)[name]));
      } else if name in Updates(front) {
        var i :| && 0 <= i < |front| && UpdateOf(front[i]) == Some(Pair(name, Updates(front)[name]))
                 && forall j :: i < j < |front| && UpdateOf(front[j]).Some? ==> UpdateOf(front[j]).value.name != name;
        assert UpdateOf(headers[i]) == Some(Pair(name, Updates(headers)[name]));
      }
    }
  }

  lemma {:induction false} UpdatesCompose(a: seq<Text>, b: seq<Text>)
    ensures Updates(a + b) == Updates(a) + Updates(b)
    decreases |b|
  {
    hide UpdateOf;
    if b == [] {
      assert a + b == a;
    } else {
      var last := |b| - 1;
      assert (a + b)[..|a + b| - 1] == a + b[..last];
      UpdatesCompose(a, b[..last]);
    }
  }

  ghost predicate CleanUpdates(u: map<Text, Text>) {
    forall n :: n in u ==> CleanPair(Pair(n, u[n]))
  }

  lemma {:induction false} UpdatesAreClean(headers: seq<Text>)
    ensures CleanUpdates(Updates(headers))
    decreases |headers|
  {
    if headers != [] {
      UpdatesAreClean(headers[..|headers| - 1]);
      var h := headers[|headers| - 1];
      SplitPartsPlain(h, 0);
      hide CleanPair, ParsePart, IsDeletion, Split;
      if ParsePart(Split(h)[0]).Some? {
        ParsedPartIsClean(Split(h)[0]);
      }
    }
  }

  // ---------------------------------------------------------------- merging

  function Names(ps: seq<Pair>): set<Text> {
    set i | 0 <= i < |ps| :: ps[i].name
  }

  /** Every pair in its place, with the new value if there is one. */
  function Refreshed(ps: seq<Pair>, u: map<Text, Text>): (r: seq<Pair>)
    ensures |r| == |ps|
    ensures forall i :: 0 <= i < |ps| ==> r[i] == if ps[i].name in u then Pair(ps[i].name, u[ps[i].name]) else ps[i]
  {
    seq(|ps|, i requires 0 <= i < |ps| => if ps[i].name in u then Pair(ps[i].name, u[ps[i].name]) else ps[i])
  }

  /** Each of the names once, in some order. */
  ghost predicate Lists(order: seq<Text>, names: set<Text>) {
    && (forall n :: n in order <==> n in names)
    && forall i, j :: 0 <= i < j < |order| ==> order[i] != order[j]
  }

  /** `order` lists the names that are new: the order in which the runtime happens to iterate
      over the map. */
  ghost predicate IsOrderOfNew(order: seq<Text>, ps: seq<Pair>, u: map<Text, Text>) {
    Lists(order, u.Keys - Names(ps))
  }

  function Added(order: seq<Text>, u: map<Text, Text>): (r: seq<Pair>)
    requires forall n :: n in order ==> n in u
    ensures |r| == |order|
    ensures forall i :: 0 <= i < |order| ==> r[i] == Pair(order[i], u[order[i]])
  {
    seq(|order|, i requires 0 <= i < |order| => Pair(order[i], u[order[i]]))
  }

  /** What `mergeSetCookie` may return: the order of the new names is the map's affair. */
  ghost predicate IsMerge(cookie: Text, headers: seq<Text>, r: Text) {
    var u, ps := Updates(headers), Pairs(cookie);
    if u == map[] then r == cookie
    else exists order :: IsOrderOfNew(order, ps, u) && r == Join(RenderAll(Refreshed(ps, u) + Added(order, u)))
  }

  /** Re-parsing a merged string gives the old pairs in their order with refreshed values, then
      each new name once; a string without effective update is not touched at all. */
  lemma MergedPairs(cookie: Text, headers: seq<Text>, r: Text)
    ensures var u, ps := Updates(headers), Pairs(cookie);
            IsMerge(cookie, headers, r) ==>
              && (u == map[] ==> r == cookie)
              && exists order :: IsOrderOfNew(order, ps, u) && Pairs(r) == Refreshed(ps, u) + Added(order, u)
  {
    var u, ps := Updates(headers), Pairs(cookie);
    PairsAreClean(cookie);
    UpdatesAreClean(headers);
    hide Pairs, Updates, CleanPair, Join;
    if u == map[] {
      assert IsOrderOfNew([], ps, u);
      assert Refreshed(ps, u) + Added([], u) == ps;
    } else if IsMerge(cookie, headers, r) {
      var order :| IsOrderOfNew(order, ps, u) && r == Join(RenderAll(Refreshed(ps, u) + Added(order, u)));
      var merged := Refreshed(ps, u) + Added(order, u);
      assert AllClean(merged) by {
        forall i | 0 <= i < |merged| ensures CleanPair(merged[i]) {
          if i >= |ps| {
            assert order[i - |ps|] in order;
          }
        }
      }
      RenderRoundTrip(merged);
    }
  }

  lemma FirstOrLaterName(ps: seq<Pair>, name: Text)
    requires ps != []
    ensures name in Names(ps) <==> name == ps[0].name || name in Names(ps[1..])
  {
    if name in Names(ps) {
      var i :| 0 <= i < |ps| && ps[i].name == name;
      assert i > 0 ==> ps[1..][i - 1].name == name;
    }
    if name in Names(ps[1..]) {
      var i :| 0 <= i < |ps[1..]| && ps[1..][i].name == name;
      assert ps[i + 1].name == name;
    }
  }

  lemma {:induction false} LookupRefreshed(ps: seq<Pair>, u: map<Text, Text>, tail: seq<Pair>, name: Text)
    ensures name in Names(ps) <==> Lookup(ps, name).Some?
    ensures Lookup(Refreshed(ps, u) + tail, name) ==
            if name in Names(ps) then Some(if name in u then u[name] else Lookup(ps, name).value) else Lookup(tail, name)
    decreases |ps|
  {
    if ps == [] {
      assert Refreshed(ps, u) + tail == tail;
    } else {
      LookupRefreshed(ps[1..], u, tail, name);
      assert (Refreshed(ps, u) + tail)[1..] == Refreshed(ps[1..], u) + tail;
      FirstOrLaterName(ps, name);
      hide Names;
    }
  }

  lemma {:induction false} LookupAdded(order: seq<Text>, u: map<Text, Text>, name: Text)
    requires forall n :: n in order ==> n in u
    ensures Lookup(Added(order, u), name) == if name in order then Some(u[name]) else None
    decreases |order|
  {
    if order != [] {
      assert Added(order, u)[1..] == Added(order[1..], u);
      assert forall n :: n in order[1..] ==> n in order;
      LookupAdded(order[1..], u, name);
      assert name in order <==> name == order[0] || name in order[1..];
    } else {
      assert Added(order, u) == [];
    }
  }

  /** Every name has the value of its last update, or else its old one; no order of the new
      names makes a difference. */
  lemma MergedValue(cookie: Text, headers: seq<Text>, r: Text, name: Text)
    ensures var u := Updates(headers);
            IsMerge(cookie, headers, r) ==>
              Lookup(Pairs(r), name) == if name in u then Some(u[name]) else Lookup(Pairs(cookie), name)
  {
    MergedPairs(cookie, headers, r);
    hide Pairs, Updates, IsMerge;
    var u, ps := Updates(headers), Pairs(cookie);
    if IsMerge(cookie, headers, r) {
      var order :| IsOrderOfNew(order, ps, u) && Pairs(r) == Refreshed(ps, u) + Added(order, u);
      LookupRefreshed(ps, u, Added(order, u), name);
      LookupAdded(order, u, name);
    }
  }

  /** Merging in two steps agrees with merging at once, name by name. */
  lemma MergeComposes(cookie: Text, a: seq<Text>, b: seq<Text>, first: Text, second: Text, atOnce: Text, name: Text)
    ensures IsMerge(cookie, a, first) && IsMerge(first, b, second) && IsMerge(cookie, a + b, atOnce) ==>
              Lookup(Pairs(second), name) == Lookup(Pairs(atOnce), name)
  {
    hide IsMerge, Pairs, Updates;
    MergedValue(cookie, a, first, name);
    MergedValue(first, b, second, name);
    MergedValue(cookie, a + b, atOnce, name);
    UpdatesCompose(a, b);
  }

  // ---------------------------------------------------------------- which headers count

  /** The first part of the header is this pair, and it is no request to delete it. */
  ghost predicate Sets(header: Text, p: Pair) {
    ParsePart(Split(header)[0]) == Some(p) && (p.value != [] || !SaysEpoch(header))
  }

  /** The header is `name=value`, alone or in front of attributes. */
  ghost predicate IsHeaderOf(header: Text, p: Pair) {
    var t := p.name + [61] + p.value;
    CleanPair(p) && (header == t || exists attributes :: header == t + [59] + attributes)
  }

  ghost predicate NoneSets(headers: seq<Text>, from: nat, name: Text) {
    forall i, v :: from <= i < |headers| ==> !Sets(headers[i], Pair(name, v))
  }

  lemma UpdateMeans(header: Text, p: Pair)
    ensures UpdateOf(header) == Some(p) <==> Sets(header, p)
  {
    hide ParsePart, Split, IsDeletion, SaysEpoch;
    if ParsePart(Split(header)[0]).Some? {
      DeletionMeans(header, ParsePart(Split(header)[0]).value.value);
    }
  }

  lemma HeaderIsRead(header: Text, p: Pair)
    requires IsHeaderOf(header, p)
    ensures ParsePart(Split(header)[0]) == Some(p)
  {
    RenderedPairParses(p);
    RenderHasNoSemicolon(p);
    var t := RenderPair(p);
    hide CleanPair, ParsePart;
    if header == t {
      SplitPlain(t);
    } else {
      var rest :| header == t + [59] + rest;
      IndexByteIs(t, SEMICOLON, rest);
      assert header[..|t|] == t;
    }
  }

  /** The last header that sets a name decides, and no other header has a part in it. */
  lemma UpdatesMean(headers: seq<Text>, name: Text)
    ensures forall i, v :: 0 <= i < |headers| && Sets(headers[i], Pair(name, v)) && NoneSets(headers, i + 1, name) ==>
              name in Updates(headers) && Updates(headers)[name] == v
    ensures NoneSets(headers, 0, name) ==> name !in Updates(headers)
  {
    UpdatesAreLast(headers, name);
    hide Updates, UpdateOf, Sets;
    forall i, v | 0 <= i < |headers| ensures UpdateOf(headers[i]) == Some(Pair(name, v)) <==> Sets(headers[i], Pair(name, v)) {
      UpdateMeans(headers[i], Pair(name, v));
    }
    forall i, v | 0 <= i < |headers| && Sets(headers[i], Pair(name, v)) && NoneSets(headers, i + 1, name)
      ensures name in Updates(headers) && Updates(headers)[name] == v
    {
      assert UpdateOf(headers[i]) == Some(Pair(name, v));
      var k :| && 0 <= k < |headers| && UpdateOf(headers[k]) == Some(Pair(name, Updates(headers)[name]))
               && forall j :: k < j < |headers| && UpdateOf(headers[j]).Some? ==> UpdateOf(headers[j]).value.name != name;
      assert Sets(headers[k], Pair(name, Updates(headers)[name]));
    }
    if name in Updates(headers) {
      var k :| && 0 <= k < |headers| && UpdateOf(headers[k]) == Some(Pair(name, Updates(headers)[name]))
               && forall j :: k < j < |headers| && UpdateOf(headers[j]).Some? ==> UpdateOf(headers[j]).value.name != name;
      assert Sets(headers[k], Pair(name, Updates(headers)[name]));
    }
  }

  function Without(headers: seq<Text>, i: nat): seq<Text>
    requires i < |headers|
  {
    headers[..i] + headers[i + 1..]
  }

  /** A header that sets nothing might as well not be there. */
  lemma IdleHeader(headers: seq<Text>, i: nat)
    requires i < |headers| && UpdateOf(headers[i]).None?
    ensures Updates(Without(headers, i)) == Updates(headers)
  {
    hide UpdateOf;
    var a, h, b := headers[..i], headers[i], headers[i + 1..];
    assert headers == a + [h] + b;
    UpdatesCompose(a + [h], b);
    UpdatesCompose(a, b);
    assert (a + [h])[..|a|] == a;
  }

  /** How a merge follows the headers: the last one that sets a name decides its value, in
      particular every plain `name=value` that has a value or does not expire in 1970; a name
      that none sets keeps its value; and deletions are as good as absent. */
  ghost predicate FollowsHeaders(cookie: Text, headers: seq<Text>, r: Text) {
    && (forall i, p :: 0 <= i < |headers| && Sets(headers[i], p) && NoneSets(headers, i + 1, p.name) ==>
          Lookup(Pairs(r), p.name) == Some(p.value))
    && (forall i, p | 0 <= i < |headers| && IsHeaderOf(headers[i], p) && NoneSets(headers, i + 1, p.name) ::
          p.value != [] || !SaysEpoch(headers[i]) ==> Lookup(Pairs(r), p.name) == Some(p.value))
    && (forall name :: NoneSets(headers, 0, name) ==> Lookup(Pairs(r), name) == Lookup(Pairs(cookie), name))
    && (forall i, p :: 0 <= i < |headers| && IsHeaderOf(headers[i], p) && p.value == [] && SaysEpoch(headers[i]) ==>
          IsMerge(cookie, Without(headers, i), r))
  }

  lemma MergeFollows(cookie: Text, headers: seq<Text>, r: Text)
    requires IsMerge(cookie, headers, r)
    ensures FollowsHeaders(cookie, headers, r)
  {
    hide IsMerge, Pairs, Updates, Sets, IsHeaderOf, SaysEpoch, NoneSets, Lookup;
    forall i, p | 0 <= i < |headers| && Sets(headers[i], p) && NoneSets(headers, i + 1, p.name)
      ensures Lookup(Pairs(r), p.name) == Some(p.value)
    {
      UpdatesMean(headers, p.name);
      assert p == Pair(p.name, p.value);
      MergedValue(cookie, headers, r, p.name);
    }
    forall i, p | 0 <= i < |headers| && IsHeaderOf(headers[i], p) && (p.value != [] || !SaysEpoch(headers[i]))
      ensures Sets(headers[i], p)
    {
      HeaderSets(headers[i], p);
    }
    forall name | NoneSets(headers, 0, name) ensures Lookup(Pairs(r), name) == Lookup(Pairs(cookie), name) {
      UpdatesMean(headers, name);
      MergedValue(cookie, headers, r, name);
    }
    forall i, p | 0 <= i < |headers| && IsHeaderOf(headers[i], p) && p.value == [] && SaysEpoch(headers[i])
      ensures IsMerge(cookie, Without(headers, i), r)
    {
      DeletionIsIdle(headers[i], p);
      IdleHeader(headers, i);
      SameMerge(cookie, headers, Without(headers, i), r);
    }
  }

  lemma HeaderSets(header: Text, p: Pair)
    requires IsHeaderOf(header, p) && (p.value != [] || !SaysEpoch(header))
    ensures Sets(header, p)
  {
    HeaderIsRead(header, p);
  }

  lemma DeletionIsIdle(header: Text, p: Pair)
    requires IsHeaderOf(header, p) && p.value == [] && SaysEpoch(header)
    ensures UpdateOf(header).None?
  {
    HeaderIsRead(header, p);
    DeletionMeans(header, p.value);
  }

  lemma SameMerge(cookie: Text, a: seq<Text>, b: seq<Text>, r: Text)
    requires IsMerge(cookie, a, r) && Updates(a) == Updates(b)
    ensures IsMerge(cookie, b, r)
  {
    hide Updates, Pairs;
  }

  // ---------------------------------------------------------------- identity

  const SAPISID: Text := [83, 65, 80, 73, 83, 73, 68]
  /** "__Secure-1PSID" */
  const PSID: Text := [95, 95, 83, 101, 99, 117, 114, 101, 45, 49, 80, 83, 73, 68]
  const BAR: byte := 124

  /** The last value under a name, or nothing: `cookieIdentity` overwrites as it reads. */
  function LastValue(ps: seq<Pair>, name: Text): Text
    decreases |ps|
  {
    if ps == [] then []
    else if ps[|ps| - 1].name == name then ps[|ps| - 1].value
    else LastValue(ps[..|ps| - 1], name)
  }

  /** The value of the last pair with this name, or nothing if there is none. */
  ghost predicate IsLastNamed(ps: seq<Pair>, name: Text, v: Text) {
    || (v == [] && forall i :: 0 <= i < |ps| ==> ps[i].name != name)
    || exists i :: 0 <= i < |ps| && ps[i] == Pair(name, v) && forall j :: i < j < |ps| ==> ps[j].name != name
  }

  lemma {:induction false} LastValueIsLast(ps: seq<Pair>, name: Text)
    ensures IsLastNamed(ps, name, LastValue(ps, name))
    decreases |ps|
  {
    if ps != [] {
      var last := |ps| - 1;
      var v := LastValue(ps, name);
      if ps[last].name == name {
        assert ps[last] == Pair(name, v);
      } else {
        LastValueIsLast(ps[..last], name);
        if i :| 0 <= i < last && ps[..last][i] == Pair(name, v) && forall j :: i < j < last ==> ps[..last][j].name != name {
          assert ps[i] == Pair(name, v);
          assert forall j :: i < j < |ps| ==> j == last || ps[j] == ps[..last][j];
        } else {
          assert forall j :: 0 <= j < |ps| ==> j == last || ps[j] == ps[..last][j];
        }
      }
    }
  }

  lemma NamesAre()
    ensures SAPISID == Ascii("SAPISID") && PSID == Ascii("__Secure-1PSID") && [BAR] == Ascii("|")
  {
  }

  function IdentityOf(ps: seq<Pair>): Text {
    LastValue(ps, SAPISID) + [BAR] + LastValue(ps, PSID)
  }

  /** `cookieIdentity` */
  function Identity(cookie: Text): Text {
    IdentityOf(Pairs(cookie))
  }

  /** Two cookies with the same identity agree on both parts, unless a SAPISID contains the
      separator. */
  lemma IdentityIsFaithful(a: seq<Pair>, b: seq<Pair>)
    requires IdentityOf(a) == IdentityOf(b)
    requires BAR !in LastValue(a, SAPISID) && BAR !in LastValue(b, SAPISID)
    ensures LastValue(a, SAPISID) == LastValue(b, SAPISID)
    ensures LastValue(a, PSID) == LastValue(b, PSID)
  {
    hide LastValue;
    var sa, pa := LastValue(a, SAPISID), LastValue(a, PSID);
    var sb, pb := LastValue(b, SAPISID), LastValue(b, PSID);
    IndexByteIs(sa, BAR, pa);
    IndexByteIs(sb, BAR, pb);
    var t := sa + [BAR] + pa;
    assert t[..|sa|] == sa && t[|sa| + 1..] == pa;
    assert t[..|sb|] == sb && t[|sb| + 1..] == pb;
  }

  /** Two other parts with the same joined text exist exactly if a part contains the separator. */
  lemma JoinedPartsAreSharedExactly(s: Text, p: Text)
    ensures (exists s', p' :: (s' != s || p' != p) && s' + [BAR] + p' == s + [BAR] + p) <==> BAR in s || BAR in p
  {
    var t := s + [BAR] + p;
    if BAR in s {
      var k :| 0 <= k < |s| && s[k] == BAR;
      var s', p' := s[..k], s[k + 1..] + [BAR] + p;
      assert s == s' + [BAR] + s[k + 1..];
      assert s' + [BAR] + p' == t && |s'| != |s|;
    } else if BAR in p {
      var k :| 0 <= k < |p| && p[k] == BAR;
      var s', p' := s + [BAR] + p[..k], p[k + 1..];
      assert p == p[..k] + [BAR] + p';
      assert s' + [BAR] + p' == t && |s'| != |s|;
    } else {
      forall s', p' | s' + [BAR] + p' == t ensures s' == s && p' == p {
        OnlyBar(s, p, |s'|);
        assert s' == t[..|s|] == s && p' == t[|s| + 1..] == p;
      }
    }
  }

  lemma OnlyBar(s: Text, p: Text, k: nat)
    requires BAR !in s && BAR !in p && k < |s + [BAR] + p| && (s + [BAR] + p)[k] == BAR
    ensures k == |s|
  {
    var t := s + [BAR] + p;
    forall i | 0 <= i < |t| && i != |s| ensures t[i] != BAR {
      assert t[i] in s || t[i] in p;
    }
  }

  /** A value that a cookie string can hold: nothing of it is trimmed or cut off. */
  predicate Storable(v: Text) {
    SEMICOLON !in v && TrailingSpace([EQUALS] + v) == 0
  }

  /** An ASCII byte in front that is no white space has no part in it. */
  lemma TrailingBehindAscii(a: Text, b: Text, v: Text)
    requires a != [] && b != []
    requires a[|a| - 1] == EQUALS || a[|a| - 1] == BAR
    requires b[|b| - 1] == EQUALS || b[|b| - 1] == BAR
    requires TrailingSpace(a + v) == 0
    ensures TrailingSpace(b + v) == 0
  {
    var x, y := a + v, b + v;
    assert |v| == 0 ==> y[|y| - 1] == b[|b| - 1];
    assert |v| >= 1 ==> x[|x| - 1] == v[|v| - 1] == y[|y| - 1];
    assert |v| >= 2 ==> x[|x| - 2] == v[|v| - 2] == y[|y| - 2];
    assert |v| >= 3 ==> x[|x| - 3] == v[|v| - 3] == y[|y| - 3];
    assert |v| == 1 ==> y[|y| - 2] == b[|b| - 1];
    assert |v| == 2 ==> y[|y| - 3] == b[|b| - 1];
  }

  lemma NamedValueIsClean(name: Text, v: Text)
    requires name == SAPISID || name == PSID
    ensures CleanPair(Pair(name, v)) <==> Storable(v)
  {
    var t, head := name + [EQUALS] + v, name + [EQUALS];
    assert t == head + v;
    assert t[0] == name[0];
    if TrailingSpace(t) == 0 {
      TrailingBehindAscii(head, [EQUALS], v);
    }
    if Storable(v) {
      TrailingBehindAscii([EQUALS], head, v);
    }
  }

  lemma {:induction false} LastValueIsStorable(ps: seq<Pair>, name: Text)
    requires AllClean(ps) && (name == SAPISID || name == PSID)
    ensures Storable(LastValue(ps, name))
    decreases |ps|
  {
    if ps == [] {
      assert [EQUALS] + [] == [EQUALS];
    } else {
      var last := ps[|ps| - 1];
      if last.name == name {
        assert last == Pair(name, last.value);
        NamedValueIsClean(name, last.value);
      } else {
        hide CleanPair, Storable;
        LastValueIsStorable(ps[..|ps| - 1], name);
      }
    }
  }

  /** Behind any bar of the joined text there is a storable value. */
  lemma BehindBarIsStorable(s: Text, p: Text, k: nat)
    requires Storable(s) && Storable(p) && k < |s + [BAR] + p| && (s + [BAR] + p)[k] == BAR
    ensures Storable((s + [BAR] + p)[k + 1..])
  {
    var t := s + [BAR] + p;
    assert SEMICOLON !in t;
    var v := t[k + 1..];
    hide TrailingSpace;
    if k < |s| {
      var head := [EQUALS] + s[k + 1..] + [BAR];
      assert [EQUALS] + v == head + p;
      TrailingBehindAscii([EQUALS], head, p);
    } else {
      var n := k - |s|;
      assert v == p[n..];
      var head := [EQUALS] + p[..n];
      assert [EQUALS] + p == head + v;
      assert n > 0 ==> head[|head| - 1] == p[n - 1] == t[k];
      TrailingBehindAscii(head, [EQUALS], v);
    }
  }

  /** The joined text can be cut at another bar, and what is in front of it is not trimmed. */
  predicate CutsElsewhere(s: Text, p: Text, k: nat) {
    var t := s + [BAR] + p;
    k < |t| && k != |s| && t[k] == BAR && TrailingSpace([EQUALS] + t[..k]) == 0
  }

  function CookieOf(sapisid: Text, psid: Text): Text {
    Join(RenderAll([Pair(SAPISID, sapisid), Pair(PSID, psid)]))
  }

  lemma CookieOfParses(sapisid: Text, psid: Text)
    requires Storable(sapisid) && Storable(psid)
    ensures Pairs(CookieOf(sapisid, psid)) == [Pair(SAPISID, sapisid), Pair(PSID, psid)]
  {
    hide Pairs, Join, CleanPair, Storable, RenderAll;
    NamedValueIsClean(SAPISID, sapisid);
    NamedValueIsClean(PSID, psid);
    RenderRoundTrip([Pair(SAPISID, sapisid), Pair(PSID, psid)]);
  }

  /** Exactly which cookie strings share their identity with one of another account: those
      whose joined values can be cut at another bar.  (A cut is void only if it leaves white
      space at the end of the first value, which no cookie string can hold.) */
  lemma IdentityIsSharedExactly(a: Text)
    ensures var s, p := LastValue(Pairs(a), SAPISID), LastValue(Pairs(a), PSID);
            (exists b :: Identity(b) == Identity(a) &&
                         (LastValue(Pairs(b), SAPISID) != s || LastValue(Pairs(b), PSID) != p)) <==>
            exists k :: CutsElsewhere(s, p, k)
  {
    PairsAreClean(a);
    LastValueIsStorable(Pairs(a), SAPISID);
    LastValueIsStorable(Pairs(a), PSID);
    var s, p := LastValue(Pairs(a), SAPISID), LastValue(Pairs(a), PSID);
    hide Pairs, LastValue, AllClean;
    if k :| CutsElsewhere(s, p, k) {
      OtherCookie(s, p, k);
    }
    forall b | Identity(b) == Identity(a) && (LastValue(Pairs(b), SAPISID) != s || LastValue(Pairs(b), PSID) != p)
      ensures CutsElsewhere(s, p, |LastValue(Pairs(b), SAPISID)|)
    {
      PairsAreClean(b);
      LastValueIsStorable(Pairs(b), SAPISID);
      OtherCut(s, p, LastValue(Pairs(b), SAPISID), LastValue(Pairs(b), PSID));
    }
  }

  lemma FrontOfBarIsStorable(s: Text, p: Text, k: nat)
    requires Storable(s) && Storable(p) && CutsElsewhere(s, p, k)
    ensures Storable((s + [BAR] + p)[..k])
  {
    hide TrailingSpace;
    var t := s + [BAR] + p;
    assert SEMICOLON !in t;
    assert forall b :: b in t[..k] ==> b in t;
  }

  lemma OtherCookie(s: Text, p: Text, k: nat)
    requires Storable(s) && Storable(p) && CutsElsewhere(s, p, k)
    ensures exists b :: Identity(b) == s + [BAR] + p &&
                        (LastValue(Pairs(b), SAPISID) != s || LastValue(Pairs(b), PSID) != p)
  {
    var t := s + [BAR] + p;
    BehindBarIsStorable(s, p, k);
    FrontOfBarIsStorable(s, p, k);
    hide Identity, Pairs, LastValue, Storable, CookieOf, TrailingSpace;
    CookieOfValues(t[..k], t[k + 1..]);
    assert t[..k] + [BAR] + t[k + 1..] == t;
    assert |t[..k]| != |s|;
  }

  lemma OtherCut(s: Text, p: Text, s': Text, p': Text)
    requires s' + [BAR] + p' == s + [BAR] + p && (s' != s || p' != p) && Storable(s')
    ensures CutsElsewhere(s, p, |s'|)
  {
    var t := s + [BAR] + p;
    assert t[|s'|] == (s' + [BAR] + p')[|s'|] == BAR;
    assert s' == t[..|s'|] && p' == t[|s'| + 1..];
    assert s == t[..|s|] && p == t[|s| + 1..];
  }

  /** "SAPISID=x|y; __Secure-1PSID=z" */
  const BAR_IN_FIRST: Text := SAPISID + [EQUALS, 120, BAR, 121, SEMICOLON, SPACE] + PSID + [EQUALS, 122]

  /** "SAPISID=x; __Secure-1PSID=y|z" */
  const BAR_IN_SECOND: Text := SAPISID + [EQUALS, 120, SEMICOLON, SPACE] + PSID + [EQUALS, 121, BAR, 122]

  lemma SpelledOut()
    ensures BAR_IN_FIRST == CookieOf([120, BAR, 121], [122])
    ensures BAR_IN_SECOND == CookieOf([120], [121, BAR, 122])
  {
    CookieOfTwo([120, BAR, 121], [122]);
    CookieOfTwo([120], [121, BAR, 122]);
    hide CookieOf;
    Spelling(SAPISID, PSID);
  }

  lemma Spelling(a: Text, b: Text)
    ensures a + [EQUALS, 120, BAR, 121, SEMICOLON, SPACE] + b + [EQUALS, 122]
         == a + [EQUALS] + [120, BAR, 121] + [SEMICOLON, SPACE] + b + [EQUALS] + [122]
    ensures a + [EQUALS, 120, SEMICOLON, SPACE] + b + [EQUALS, 121, BAR, 122]
         == a + [EQUALS] + [120] + [SEMICOLON, SPACE] + b + [EQUALS] + [121, BAR, 122]
  {
  }

  lemma SmallValuesAreStorable()
    ensures Storable([120, BAR, 121]) && Storable([122]) && Storable([120]) && Storable([121, BAR, 122])
  {
  }

  /** These two are taken for the same account. */
  lemma IdentityCanBeAmbiguous()
    ensures Identity(BAR_IN_FIRST) == Identity(BAR_IN_SECOND)
    ensures LastValue(Pairs(BAR_IN_FIRST), SAPISID) == [120, BAR, 121] && LastValue(Pairs(BAR_IN_FIRST), PSID) == [122]
    ensures LastValue(Pairs(BAR_IN_SECOND), SAPISID) == [120] && LastValue(Pairs(BAR_IN_SECOND), PSID) == [121, BAR, 122]
  {
    SmallValuesAreStorable();
    hide Identity, Pairs, LastValue, CookieOf, TrailingSpace, Storable;
    SpelledOut();
    CookieOfValues([120, BAR, 121], [122]);
    CookieOfValues([120], [121, BAR, 122]);
    assert [120, BAR, 121] + [BAR] + [122] == [120] + [BAR] + [121, BAR, 122];
  }

  lemma CookieOfTwo(sapisid: Text, psid: Text)
    ensures CookieOf(sapisid, psid) == SAPISID + [EQUALS] + sapisid + [SEMICOLON, SPACE] + PSID + [EQUALS] + psid
  {
    var a, b := RenderPair(Pair(SAPISID, sapisid)), RenderPair(Pair(PSID, psid));
    assert RenderAll([Pair(SAPISID, sapisid), Pair(PSID, psid)]) == [a, b];
    assert [a, b][1..] == [b];
    assert Join([a, b]) == a + [SEMICOLON, SPACE] + b;
    assert a + [SEMICOLON, SPACE] + b == SAPISID + [EQUALS] + sapisid + [SEMICOLON, SPACE] + PSID + [EQUALS] + psid;
  }

  /** The values and the identity of such a cookie string. */
  lemma CookieOfValues(sapisid: Text, psid: Text)
    requires Storable(sapisid) && Storable(psid)
    ensures var ps := Pairs(CookieOf(sapisid, psid));
            LastValue(ps, SAPISID) == sapisid && LastValue(ps, PSID) == psid
    ensures Identity(CookieOf(sapisid, psid)) == sapisid + [BAR] + psid
  {
    CookieOfParses(sapisid, psid);
    hide Pairs, LastValue, CookieOf, Storable;
    ValuesOfTwo(sapisid, psid);
  }

  lemma ValuesOfTwo(sapisid: Text, psid: Text)
    ensures var ps := [Pair(SAPISID, sapisid), Pair(PSID, psid)];
            LastValue(ps, SAPISID) == sapisid && LastValue(ps, PSID) == psid
  {
    var first := [Pair(SAPISID, sapisid)];
    assert first + [Pair(PSID, psid)] == [Pair(SAPISID, sapisid), Pair(PSID, psid)];
    assert |SAPISID| != |PSID|;
    LastValueAppend(first, Pair(PSID, psid), SAPISID);
    LastValueAppend(first, Pair(PSID, psid), PSID);
    assert [] + first == first;
    LastValueAppend([], Pair(SAPISID, sapisid), SAPISID);
  }

  lemma LastValueAppend(ps: seq<Pair>, p: Pair, name: Text)
    ensures LastValue(ps + [p], name) == if p.name == name then p.value else LastValue(ps, name)
  {
    assert (ps + [p])[..|ps + [p]| - 1] == ps;
  }

  // ---------------------------------------------------------------- the loops

  method SplitCookiePairs(cookie: Text) returns (r: seq<Pair>)
    ensures r == Pairs(cookie)
  {
    var parts := Split(cookie);
    r := [];
    assert parts[0..] == parts;
    hide ParsePart;
    for i := 0 to |parts|
      invariant r + ParseParts(parts[i..]) == Pairs(cookie)
    {
      assert parts[i..][1..] == parts[i + 1..];
      var p := ParsePart(parts[i]);
      if p.Some? {
        assert r + ([p.value] + ParseParts(parts[i + 1..])) == (r + [p.value]) + ParseParts(parts[i + 1..]);
        r := r + [p.value];
      }
    }
    assert r + [] == r;
  }

  /** `cookieIdentity` */
  method CookieIdentity(cookie: Text) returns (r: Text)
    ensures r == Identity(cookie)
    ensures IsLastNamed(Pairs(cookie), Ascii("SAPISID"), LastValue(Pairs(cookie), SAPISID))
    ensures IsLastNamed(Pairs(cookie), Ascii("__Secure-1PSID"), LastValue(Pairs(cookie), PSID))
    ensures r == LastValue(Pairs(cookie), SAPISID) + Ascii("|") + LastValue(Pairs(cookie), PSID)
  {
    NamesAre();
    LastValueIsLast(Pairs(cookie), SAPISID);
    LastValueIsLast(Pairs(cookie), PSID);
    hide IsLastNamed, Ascii;
    var ps := SplitCookiePairs(cookie);
    hide Pairs;
    var sapisid: Text, psid: Text := [], [];
    for i := 0 to |ps|
      invariant sapisid == LastValue(ps[..i], SAPISID) && psid == LastValue(ps[..i], PSID)
    {
      assert ps[..i + 1] == ps[..i] + [ps[i]];
      LastValueAppend(ps[..i], ps[i], SAPISID);
      LastValueAppend(ps[..i], ps[i], PSID);
      if ps[i].name == SAPISID {
        sapisid := ps[i].value;
      } else if ps[i].name == PSID {
        psid := ps[i].value;
      }
    }
    assert ps[..|ps|] == ps;
    return sapisid + [BAR] + psid;
  }

  method CollectUpdates(headers: seq<Text>) returns (u: map<Text, Text>)
    ensures u == Updates(headers)
  {
    u := map[];
    hide UpdateOf;
    for i := 0 to |headers|
      invariant u == Updates(headers[..i])
    {
      assert headers[..i + 1][..i] == headers[..i];
      var p := UpdateOf(headers[i]);
      if p.Some? {
        u := u[p.value.name := p.value.value];
      }
    }
    assert headers[..|headers|] == headers;
  }

  method RefreshParts(ps: seq<Pair>, u: map<Text, Text>) returns (parts: seq<Text>, seen: set<Text>)
    ensures parts == RenderAll(Refreshed(ps, u))
    ensures seen == Names(ps)
  {
    parts, seen := [], {};
    hide RenderPair;
    for i := 0 to |ps|
      invariant |parts| == i
      invariant forall k :: 0 <= k < i ==> parts[k] == RenderPair(Refreshed(ps, u)[k])
      invariant seen == set k | 0 <= k < i :: ps[k].name
    {
      seen := seen + {ps[i].name};
      if ps[i].name in u {
        parts := parts + [RenderPair(Pair(ps[i].name, u[ps[i].name]))];
      } else {
        parts := parts + [RenderPair(ps[i])];
      }
    }
  }

  method NewParts(u: map<Text, Text>, seen: set<Text>) returns (parts: seq<Text>)
    ensures exists order :: Lists(order, u.Keys - seen) && parts == RenderAll(Added(order, u))
  {
    parts := [];
    ghost var order := [];
    hide RenderPair;
    var todo := u.Keys;
    while todo != {}
      invariant todo <= u.Keys
      invariant forall n :: n in order <==> n in u && n !in todo && n !in seen
      invariant forall i, j :: 0 <= i < j < |order| ==> order[i] != order[j]
      invariant |parts| == |order|
      invariant forall k :: 0 <= k < |order| ==> parts[k] == RenderPair(Pair(order[k], u[order[k]]))
    {
      var name :| name in todo;
      todo := todo - {name};
      if name !in seen {
        parts := parts + [RenderPair(Pair(name, u[name]))];
        order := order + [name];
      }
    }
    assert Lists(order, u.Keys - seen);
    assert parts == RenderAll(Added(order, u));
  }

  /** `mergeSetCookie` */
  method MergeSetCookie(cookie: Text, headers: seq<Text>) returns (r: Text)
    ensures IsMerge(cookie, headers, r)
    ensures FollowsHeaders(cookie, headers, r)
    ensures forall name ::
              var u := Updates(headers);
              Lookup(Pairs(r), name) == if name in u then Some(u[name]) else Lookup(Pairs(cookie), name)
  {
    hide FollowsHeaders;
    var u := CollectUpdates(headers);
    hide Pairs, Updates, Join;
    if |u| == 0 {
      MergeFollows(cookie, headers, cookie);
      return cookie;
    }
    var ps := SplitCookiePairs(cookie);
    var refreshed, seen := RefreshParts(ps, u);
    var added := NewParts(u, seen);
    ghost var order :| Lists(order, u.Keys - seen) && added == RenderAll(Added(order, u));
    assert refreshed + added == RenderAll(Refreshed(ps, u) + Added(order, u));
    assert IsOrderOfNew(order, ps, u);
    r := Join(refreshed + added);
    assert IsMerge(cookie, headers, r);
    MergeFollows(cookie, headers, r);
    forall name ensures Lookup(Pairs(r), name) == if name in u then Some(u[name]) else Lookup(Pairs(cookie), name) {
      MergedValue(cookie, headers, r, name);
    }
  }
}
