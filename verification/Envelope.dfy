/** The search for an embedded MP4 in a protobuf envelope (internal/app/media.go), against the
    grammar of the messages it walks, and the field encoder of tools/cookie-sync/pack_crx.py.
    Messages are walked by suffix: what is left to read is the argument. */
module Envelope {
  import opened GoStrings
  import opened Varint
  import opened Wrappers

  // ---------------------------------------------------------------- one field

  /** The field at the front of a message. */
  datatype Field =
    | Unreadable                                           // the walk of this message ends
    | Other(skipped: nat)                                  // not length-delimited
    | Bytes(number: nat, header: nat, length: nat)         // length-delimited

  function Min(a: nat, b: nat): nat {
    if a < b then a else b
  }

  /** `protobufSkip` behind a tag: how many bytes to skip, if the wire type is known.  The
      8- and 4-byte types may reach beyond the end. */
  function SkipLength(d: Text, wire: nat): Option<nat> {
    if wire == 0 then
      match DecodeVarint(d)
      case None => None
      case Some(v) => Some(v.length)
    else if wire == 1 then Some(8)
    else if wire == 5 then Some(4)
    else None
  }

  function FirstField(d: Text): (f: Field)
    ensures f.Other? ==> 1 <= f.skipped
    ensures f.Bytes? ==> 1 <= f.header <= |d|
  {
    match DecodeVarint(d)
    case None => Unreadable
    case Some(tag) =>
      var wire := tag.value % 8;
      if wire != 2 then
        match SkipLength(d[tag.length..], wire)
        case None => Unreadable
        case Some(n) => Other(tag.length + n)
      else
        match DecodeVarint(d[tag.length..])
        case None => Unreadable
        case Some(len) => Bytes(tag.value / 8, tag.length + len.length, len.value)
  }

  /** A length-delimited field with its content. */
  datatype Item = Item(number: nat, payload: Text)

  /** The length-delimited fields a guarded walk visits: up to the end, the first unreadable
      field or the first length that exceeds what is left. */
  function Items(d: Text): seq<Item>
    decreases |d|
  {
    if d == [] then []
    else
      match FirstField(d)
      case Unreadable => []
      case Other(n) => Items(d[Min(n, |d|)..])
      case Bytes(number, header, length) =>
        if length > |d| - header then []
        else [Item(number, d[header..header + length])] + Items(d[header + length..])
  }

  /** The length claimed by the field that stops the walk, if that field is too long. */
  function Overrun(d: Text): Option<(nat, Text)>
    decreases |d|
  {
    if d == [] then None
    else
      match FirstField(d)
      case Unreadable => None
      case Other(n) => Overrun(d[Min(n, |d|)..])
      case Bytes(number, header, length) =>
        if length > |d| - header then Some((length, d[header..]))
        else Overrun(d[header + length..])
  }

  // ---------------------------------------------------------------- what a payload looks like

  const FTYP: Text := [102, 116, 121, 112]
  const SLASH: byte := 47

  predicate LooksLikeMP4(d: Text) {
    |d| > 12 && d[4..8] == FTYP
  }

  predicate LooksLikeMimeString(d: Text) {
    && 0 < |d| < 64
    && Index(d, [SLASH]) > 0 && Index(d, [SLASH]) != |d| - 1
    && forall k :: 0 <= k < |d| ==> 0x20 <= d[k] <= 0x7e
  }

  const MIN_SUBMESSAGE: nat := 32
  const MAX_FIELD: nat := 100
  const MAX_DEPTH: nat := 6

  /** A payload that is searched as a message of its own. */
  predicate Descends(item: Item) {
    && !LooksLikeMP4(item.payload) && !LooksLikeMimeString(item.payload)
    && |item.payload| >= MIN_SUBMESSAGE && item.number < MAX_FIELD
  }

  // ---------------------------------------------------------------- the search

  datatype Found = Found(mp4: Option<Text>, mime: Text)

  /** Levels that may still be searched. */
  function Left(depth: nat): nat {
    if depth > MAX_DEPTH then 0 else MAX_DEPTH + 1 - depth
  }

  /** What `extractVideoFromResourceDepth` finds in message `d`. */
  function Extract(d: Text, mime: Text, depth: nat): (r: Found)
    decreases Left(depth), 1, 0
  {
    if depth > MAX_DEPTH then Found(None, [])
    else ExtractItems(Items(d), Found(None, mime), depth)
  }

  /** The walk over the fields, with what was found so far. */
  function ExtractItems(items: seq<Item>, acc: Found, depth: nat): (r: Found)
    requires depth <= MAX_DEPTH
    decreases Left(depth), 0, |items|
  {
    if items == [] then acc
    else ExtractItems(items[1..], ExtractItem(items[0], acc, depth), depth)
  }

  function ExtractItem(item: Item, acc: Found, depth: nat): (r: Found)
    requires depth <= MAX_DEPTH
    decreases Left(depth), 0, 0
  {
    if LooksLikeMP4(item.payload) then
      if acc.mp4.None? then acc.(mp4 := Some(item.payload)) else acc
    else if LooksLikeMimeString(item.payload) then
      if acc.mime == [] then acc.(mime := item.payload) else acc
    else if Descends(item) then
      var nested := Extract(item.payload, acc.mime, depth + 1);
      if nested.mp4.Some? then Found(nested.mp4, if nested.mime != [] then nested.mime else acc.mime)
      else acc
    else acc
  }

  // ---------------------------------------------------------------- the grammar

  /** `p` is an MP4 payload of message `d`, or of a message nested in it no deeper than the
      limit, through fields that may be descended into. */
  ghost predicate Reaches(d: Text, p: Text, depth: nat)
    decreases Left(depth), 1
  {
    depth <= MAX_DEPTH &&
    exists i :: 0 <= i < |Items(d)| && ReachesThrough(Items(d)[i], p, depth)
  }

  ghost predicate ReachesThrough(item: Item, p: Text, depth: nat)
    requires depth <= MAX_DEPTH
    decreases Left(depth), 0
  {
    || (LooksLikeMP4(item.payload) && p == item.payload)
    || (Descends(item) && Reaches(item.payload, p, depth + 1))
  }

  /** Something can be found in `d`. */
  ghost predicate Hit(d: Text, depth: nat) {
    exists p :: Reaches(d, p, depth)
  }

  /** Where the mime string comes from never decides which video is found. */
  lemma {:induction false} VideoIgnoresMime(d: Text, m1: Text, m2: Text, depth: nat)
    ensures Extract(d, m1, depth).mp4 == Extract(d, m2, depth).mp4
    decreases Left(depth), 1, 0
  {
    hide Items;
    if depth <= MAX_DEPTH {
      ItemsIgnoreMime(Items(d), Found(None, m1), Found(None, m2), depth);
    }
  }

  lemma {:induction false} ItemsIgnoreMime(items: seq<Item>, a: Found, b: Found, depth: nat)
    requires depth <= MAX_DEPTH && a.mp4 == b.mp4
    ensures ExtractItems(items, a, depth).mp4 == ExtractItems(items, b, depth).mp4
    decreases Left(depth), 0, |items|
  {
    hide LooksLikeMP4, LooksLikeMimeString, Items;
    if items != [] {
      VideoIgnoresMime(items[0].payload, a.mime, b.mime, depth + 1);
      ItemsIgnoreMime(items[1..], ExtractItem(items[0], a, depth), ExtractItem(items[0], b, depth), depth);
    }
  }

  /** Sound and complete: the search finds something exactly when the grammar reaches an MP4,
      and what it finds is one the grammar reaches. */
  lemma {:induction false} SearchIsExact(d: Text, mime: Text, depth: nat)
    ensures Extract(d, mime, depth).mp4.Some? <==> Hit(d, depth)
    ensures Extract(d, mime, depth).mp4.Some? ==> Reaches(d, Extract(d, mime, depth).mp4.value, depth)
    decreases Left(depth), 1, 0
  {
    hide Items, LooksLikeMP4, LooksLikeMimeString;
    if depth <= MAX_DEPTH {
      ItemsExact(Items(d), Found(None, mime), depth);
      var r := Extract(d, mime, depth).mp4;
      if r.Some? {
        assert Reaches(d, r.value, depth);
      } else {
        forall p ensures !Reaches(d, p, depth) {
          assert forall i :: 0 <= i < |Items(d)| ==> DeadEnd(Items(d)[i], depth);
        }
      }
    }
  }

  ghost predicate DeadEnd(item: Item, depth: nat)
    requires depth <= MAX_DEPTH
  {
    forall p :: !ReachesThrough(item, p, depth)
  }

  ghost predicate AllDeadEnds(items: seq<Item>, depth: nat)
    requires depth <= MAX_DEPTH
  {
    forall i :: 0 <= i < |items| ==> DeadEnd(items[i], depth)
  }

  lemma {:induction false} ItemsExact(items: seq<Item>, acc: Found, depth: nat)
    requires depth <= MAX_DEPTH
    ensures var r := ExtractItems(items, acc, depth).mp4;
            && (r.None? <==> acc.mp4.None? && AllDeadEnds(items, depth))
            && (r.Some? ==> r == acc.mp4 || exists i :: 0 <= i < |items| && ReachesThrough(items[i], r.value, depth))
    decreases Left(depth), 0, |items|
  {
    if items != [] {
      hide Items, LooksLikeMP4, LooksLikeMimeString;
      var next := ExtractItem(items[0], acc, depth);
      ItemExact(items[0], acc, depth);
      ItemsExact(items[1..], next, depth);
      hide ExtractItem, ReachesThrough, DeadEnd;
      var r := ExtractItems(items, acc, depth).mp4;
      assert forall i :: 1 <= i < |items| ==> items[i] == items[1..][i - 1];
      if r.Some? && r == next.mp4 {
        assert r == acc.mp4 || ReachesThrough(items[0], r.value, depth);
      } else if r.Some? {
        var i :| 0 <= i < |items[1..]| && ReachesThrough(items[1..][i], r.value, depth);
        assert ReachesThrough(items[i + 1], r.value, depth);
      }
    }
  }

  lemma {:induction false} ItemExact(item: Item, acc: Found, depth: nat)
    requires depth <= MAX_DEPTH
    ensures var r := ExtractItem(item, acc, depth).mp4;
            && (r.None? <==> acc.mp4.None? && DeadEnd(item, depth))
            && (r.Some? ==> r == acc.mp4 || ReachesThrough(item, r.value, depth))
    decreases Left(depth), 0, 0
  {
    hide Items, LooksLikeMP4, LooksLikeMimeString;
    if Descends(item) {
      SearchIsExact(item.payload, acc.mime, depth + 1);
      hide Extract;
      var nested := Extract(item.payload, acc.mime, depth + 1).mp4;
      if nested.Some? {
        assert ReachesThrough(item, nested.value, depth);
      } else {
        forall p ensures !ReachesThrough(item, p, depth) {
          assert !Hit(item.payload, depth + 1);
        }
      }
    } else if LooksLikeMP4(item.payload) {
      assert ReachesThrough(item, item.payload, depth);
    }
  }

  // ---------------------------------------------------------------- the same in plain bytes

  /** Four bytes, the bytes of "ftyp", and more. */
  ghost predicate IsVideo(p: Text) {
    |p| > 12 && p[4] == 102 && p[5] == 116 && p[6] == 121 && p[7] == 112
  }

  /** Fewer than 64 printable bytes, the first slash with something on both sides. */
  ghost predicate IsMime(p: Text) {
    && |p| < 64 && (forall k :: 0 <= k < |p| ==> 32 <= p[k] <= 126)
    && exists k :: 0 < k < |p| - 1 && p[k] == 47 && forall j :: 0 <= j < k ==> p[j] != 47
  }

  /** `p` is a video in message `d`, or in one nested in it through contents of at least 32
      bytes in fields below number 100, at most seven messages deep in all. */
  ghost predicate Carries(d: Text, p: Text, depth: nat)
    decreases 7 - depth, 0
  {
    depth <= 6 && exists i :: 0 <= i < |Items(d)| && Holds(Items(d)[i], p, depth)
  }

  ghost predicate Holds(item: Item, p: Text, depth: nat)
    requires depth <= 6
    decreases 6 - depth, 1
  {
    if IsVideo(item.payload) then p == item.payload
    else !IsMime(item.payload) && |item.payload| >= 32 && item.number < 100 && depth < 6 && Carries(item.payload, p, depth + 1)
  }

  lemma LooksLikeMP4Means(p: Text)
    ensures LooksLikeMP4(p) <==> IsVideo(p)
  {
    if |p| > 12 {
      var box := p[4..8];
      assert box == [p[4], p[5], p[6], p[7]];
    }
  }

  lemma LooksLikeMimeMeans(p: Text)
    ensures LooksLikeMimeString(p) <==> IsMime(p)
  {
    IndexFinds(p, [SLASH]);
    forall k ensures OccursAt(p, [SLASH], k) <==> 0 <= k < |p| && p[k] == 47 {
      if 0 <= k < |p| {
        assert p[k..k + 1] == [p[k]];
      }
    }
    hide OccursAt, Index;
  }

  /** The predicates and limits of the walk are these bytes and numbers. */
  lemma {:induction false} ReachesMeans(d: Text, p: Text, depth: nat)
    ensures Reaches(d, p, depth) <==> Carries(d, p, depth)
    decreases Left(depth)
  {
    hide Items, LooksLikeMP4, LooksLikeMimeString, IsVideo, IsMime;
    if depth <= 6 {
      forall i | 0 <= i < |Items(d)| ensures ReachesThrough(Items(d)[i], p, depth) <==> Holds(Items(d)[i], p, depth) {
        var q := Items(d)[i].payload;
        LooksLikeMP4Means(q);
        LooksLikeMimeMeans(q);
        ReachesMeans(q, p, depth + 1);
      }
    }
  }

  /** One of the fields of `d` is a video. */
  ghost predicate HasVideo(d: Text) {
    exists i :: 0 <= i < |Items(d)| && IsVideo(Items(d)[i].payload)
  }

  /** `r` is a video that `d` carries, and missing exactly if it carries none; a video right in
      `d` is enough. */
  ghost predicate IsFrom(d: Text, r: Option<Text>, depth: nat) {
    && (r.Some? <==> exists p :: Carries(d, p, depth))
    && (r.Some? ==> Carries(d, r.value, depth))
    && (depth <= 6 && HasVideo(d) ==> r.Some?)
  }

  /** What a search returns, in these terms. */
  lemma SearchMeans(d: Text, mime: Text, depth: nat)
    ensures var r := Extract(d, mime, depth).mp4;
            && IsFrom(d, r, depth)
            && (r.Some? ==> |r.value| > 12 && r.value[4] == 102 && r.value[5] == 116 && r.value[6] == 121 && r.value[7] == 112)
  {
    hide Extract, Reaches, Items;
    SearchIsExact(d, mime, depth);
    forall p ensures Reaches(d, p, depth) <==> Carries(d, p, depth) {
      ReachesMeans(d, p, depth);
    }
    var r := Extract(d, mime, depth).mp4;
    if r.Some? {
      CarriedIsVideo(d, r.value, depth);
    }
    if depth <= 6 && HasVideo(d) {
      if i :| 0 <= i < |Items(d)| && IsVideo(Items(d)[i].payload) {
        assert Holds(Items(d)[i], Items(d)[i].payload, depth);
        assert Carries(d, Items(d)[i].payload, depth);
      }
    }
  }

  lemma {:induction false} CarriedIsVideo(d: Text, p: Text, depth: nat)
    requires Carries(d, p, depth)
    ensures IsVideo(p)
    decreases 7 - depth
  {
    hide Items, IsVideo, IsMime;
    var i :| 0 <= i < |Items(d)| && Holds(Items(d)[i], p, depth);
    if !IsVideo(Items(d)[i].payload) {
      CarriedIsVideo(Items(d)[i].payload, p, depth + 1);
    }
  }

  // ---------------------------------------------------------------- which one is chosen

  /** What descending into one field yields; the mime string does not matter for it. */
  function Nested(item: Item, depth: nat): Option<Text> {
    if Descends(item) then Extract(item.payload, [], depth + 1).mp4 else None
  }

  /** The walk settles on the last video found by descending, or else keeps the first direct
      one. */
  ghost predicate Chosen(items: seq<Item>, before: Option<Text>, r: Option<Text>, depth: nat) {
    if exists i :: 0 <= i < |items| && Nested(items[i], depth).Some? then
      exists i :: && 0 <= i < |items| && Nested(items[i], depth).Some? && r == Nested(items[i], depth)
                  && forall j :: i < j < |items| ==> Nested(items[j], depth).None?
    else if before.Some? then r == before
    else if r.Some? then
      exists i :: && 0 <= i < |items| && LooksLikeMP4(items[i].payload) && r.value == items[i].payload
                  && forall j :: 0 <= j < i ==> !LooksLikeMP4(items[j].payload)
    else forall i :: 0 <= i < |items| ==> !LooksLikeMP4(items[i].payload)
  }

  lemma {:induction false} WalkChooses(items: seq<Item>, acc: Found, depth: nat)
    requires depth <= MAX_DEPTH
    ensures Chosen(items, acc.mp4, ExtractItems(items, acc, depth).mp4, depth)
    decreases |items|
  {
    hide LooksLikeMP4, LooksLikeMimeString, Extract;
    if items != [] {
      var next := ExtractItem(items[0], acc, depth);
      ItemChooses(items[0], acc, depth);
      WalkChooses(items[1..], next, depth);
      hide ExtractItem, Nested;
      ChosenOneMore(items, acc.mp4, next.mp4, ExtractItems(items, acc, depth).mp4, depth);
    }
  }

  lemma ItemChooses(item: Item, acc: Found, depth: nat)
    requires depth <= MAX_DEPTH
    ensures var r := ExtractItem(item, acc, depth).mp4;
            r == if Nested(item, depth).Some? then Nested(item, depth)
                 else if acc.mp4.None? && LooksLikeMP4(item.payload) then Some(item.payload)
                 else acc.mp4
  {
    hide LooksLikeMP4, LooksLikeMimeString, Extract;
    VideoIgnoresMime(item.payload, acc.mime, [], depth + 1);
  }

  lemma ChosenOneMore(items: seq<Item>, before: Option<Text>, next: Option<Text>, r: Option<Text>, depth: nat)
    requires items != []
    requires next == if Nested(items[0], depth).Some? then Nested(items[0], depth)
                     else if before.None? && LooksLikeMP4(items[0].payload) then Some(items[0].payload)
                     else before
    requires Chosen(items[1..], next, r, depth)
    requires Nested(items[0], depth).Some? ==> !LooksLikeMP4(items[0].payload)
    ensures Chosen(items, before, r, depth)
  {
    hide LooksLikeMP4, Nested;
    var rest := items[1..];
    assert forall k :: 1 <= k < |items| ==> items[k] == rest[k - 1];
    if exists i :: 0 <= i < |rest| && Nested(rest[i], depth).Some? {
      var i :| && 0 <= i < |rest| && Nested(rest[i], depth).Some? && r == Nested(rest[i], depth)
               && forall j :: i < j < |rest| ==> Nested(rest[j], depth).None?;
      assert Nested(items[i + 1], depth).Some?;
    } else if Nested(items[0], depth).Some? {
      assert r == Nested(items[0], depth);
    } else if before.None? && next.None? && r.Some? {
      var i :| && 0 <= i < |rest| && LooksLikeMP4(rest[i].payload) && r.value == rest[i].payload
               && forall j :: 0 <= j < i ==> !LooksLikeMP4(rest[j].payload);
      assert LooksLikeMP4(items[i + 1].payload);
    }
  }

  /** Of several reachable videos, the search returns a determined one. */
  lemma SearchChooses(d: Text, mime: Text, depth: nat)
    requires depth <= MAX_DEPTH
    ensures Chosen(Items(d), None, Extract(d, mime, depth).mp4, depth)
  {
    WalkChooses(Items(d), Found(None, mime), depth);
  }

  // ---------------------------------------------------------------- slices and mime strings

  lemma SliceOfSlice(d: Text, from: nat, len: nat, lo: nat, n: nat)
    requires from + len <= |d| && lo + n <= len
    ensures d[from..from + len][lo..lo + n] == d[from + lo..from + lo + n]
  {
    var a, b := d[from..from + len][lo..lo + n], d[from + lo..from + lo + n];
    forall k | 0 <= k < n ensures a[k] == b[k] {
      assert a[k] == d[from..from + len][lo + k];
    }
  }

  predicate IsSliceAt(d: Text, p: Text, lo: nat) {
    lo + |p| <= |d| && p == d[lo..lo + |p|]
  }

  lemma SliceOfRest(d: Text, from: nat, p: Text, lo: nat)
    requires from <= |d| && IsSliceAt(d[from..], p, lo)
    ensures IsSliceAt(d, p, from + lo)
  {
    assert d[from..from + (|d| - from)] == d[from..];
    SliceOfSlice(d, from, |d| - from, lo, |p|);
  }

  /** The message behind the field at its front, unless that ends the walk. */
  function Behind(d: Text): Text {
    match FirstField(d)
    case Unreadable => []
    case Other(n) => d[Min(n, |d|)..]
    case Bytes(_, header, length) => if length > |d| - header then [] else d[header + length..]
  }

  lemma BehindIsShorter(d: Text)
    requires d != []
    ensures |Behind(d)| < |d| && Behind(d) == d[|d| - |Behind(d)|..]
  {
    hide FirstField;
  }

  /** An item is the field at the front, or an item of what is behind it. */
  lemma FrontOrBehind(d: Text, i: nat) returns (front: bool, k: nat)
    requires i < |Items(d)|
    ensures d != []
    ensures front ==> IsSliceAt(d, Items(d)[i].payload, k)
    ensures !front ==> k < |Items(Behind(d))| && Items(Behind(d))[k] == Items(d)[i]
  {
    hide FirstField;
    match FirstField(d)
    case Other(_) =>
      front, k := false, i;
    case Bytes(_, header, length) =>
      front := i == 0;
      k := if front then header else i - 1;
  }

  /** Every visited payload is a contiguous part of the message. */
  lemma {:induction false} ItemIsSlice(d: Text, i: nat) returns (lo: nat)
    requires i < |Items(d)|
    ensures IsSliceAt(d, Items(d)[i].payload, lo)
    decreases |d|
  {
    hide Items, Behind, IsSliceAt;
    var front, k := FrontOrBehind(d, i);
    if front {
      lo := k;
    } else {
      BehindIsShorter(d);
      var from := |d| - |Behind(d)|;
      lo := ItemIsSlice(Behind(d), k);
      SliceOfRest(d, from, Items(d)[i].payload, lo);
      lo := from + lo;
    }
  }

  /** A reachable video is a contiguous part of the message it was found in. */
  lemma {:induction false} ReachedIsSlice(d: Text, p: Text, depth: nat) returns (lo: nat)
    requires Reaches(d, p, depth)
    ensures lo + |p| <= |d| && p == d[lo..lo + |p|]
    ensures |p| > 12 && p[4] == 102 && p[5] == 116 && p[6] == 121 && p[7] == 112
    decreases Left(depth)
  {
    hide Items, LooksLikeMP4, LooksLikeMimeString;
    var i :| 0 <= i < |Items(d)| && ReachesThrough(Items(d)[i], p, depth);
    var item := Items(d)[i];
    lo := ItemIsSlice(d, i);
    LooksLikeMP4Means(item.payload);
    if !(LooksLikeMP4(item.payload) && p == item.payload) {
      var lo' := ReachedIsSlice(item.payload, p, depth + 1);
      SliceOfSlice(d, lo, |item.payload|, lo', |p|);
      lo := lo + lo';
    }
  }

  /** The mime string, once known, is never replaced. */
  lemma {:induction false} MimeSticks(items: seq<Item>, acc: Found, depth: nat)
    requires depth <= MAX_DEPTH && acc.mime != []
    ensures ExtractItems(items, acc, depth).mime == acc.mime
    decreases Left(depth), |items|
  {
    hide Items, LooksLikeMP4, LooksLikeMimeString;
    if items != [] {
      var item := items[0];
      if Descends(item) {
        var nested := Extract(item.payload, acc.mime, depth + 1);
        if depth < MAX_DEPTH {
          MimeSticks(Items(item.payload), Found(None, acc.mime), depth + 1);
        }
        assert nested.mp4.Some? ==> nested.mime == acc.mime;
      }
      MimeSticks(items[1..], ExtractItem(item, acc, depth), depth);
    }
  }

  /** A mime string that is returned was given by the caller or looks like one. */
  lemma {:induction false} MimeIsGenuine(items: seq<Item>, acc: Found, depth: nat)
    requires depth <= MAX_DEPTH
    ensures var m := ExtractItems(items, acc, depth).mime; m == acc.mime || LooksLikeMimeString(m)
    decreases Left(depth), |items|
  {
    hide Items, LooksLikeMP4, LooksLikeMimeString;
    if items != [] {
      var item := items[0];
      if Descends(item) {
        var nested := Extract(item.payload, acc.mime, depth + 1);
        if depth < MAX_DEPTH {
          MimeIsGenuine(Items(item.payload), Found(None, acc.mime), depth + 1);
        }
        assert nested.mp4.Some? ==> nested.mime == acc.mime || LooksLikeMimeString(nested.mime);
      }
      MimeIsGenuine(items[1..], ExtractItem(item, acc, depth), depth);
    }
  }

  /** The mime string one field can contribute: its own content, or what comes with a video
      nested in it. */
  ghost function MimeOf(item: Item, depth: nat): Text
    requires depth <= 6
  {
    if IsVideo(item.payload) then []
    else if IsMime(item.payload) then item.payload
    else if |item.payload| >= 32 && item.number < 100 && Extract(item.payload, [], depth + 1).mp4.Some? then
      Extract(item.payload, [], depth + 1).mime
    else []
  }

  /** With none known, the walk settles on the first mime string that a field contributes, and
      returns none exactly if no field does. */
  lemma {:induction false} FirstMimeWins(items: seq<Item>, acc: Found, depth: nat)
    requires depth <= 6 && acc.mime == []
    ensures var m := ExtractItems(items, acc, depth).mime;
            && (m == [] <==> forall i :: 0 <= i < |items| ==> MimeOf(items[i], depth) == [])
            && (m != [] ==> exists i :: && 0 <= i < |items| && m == MimeOf(items[i], depth)
                                        && forall j :: 0 <= j < i ==> MimeOf(items[j], depth) == [])
    decreases |items|
  {
    if items != [] {
      var rest, next := items[1..], ExtractItem(items[0], acc, depth);
      ItemGivesMime(items[0], acc, depth);
      hide ExtractItem, MimeOf;
      assert forall i :: 0 <= i < |rest| ==> rest[i] == items[i + 1];
      var m := ExtractItems(items, acc, depth).mime;
      if next.mime != [] {
        MimeSticks(rest, next, depth);
        assert m == MimeOf(items[0], depth);
      } else {
        FirstMimeWins(rest, next, depth);
        if m != [] {
          var i :| 0 <= i < |rest| && m == MimeOf(rest[i], depth) && forall j :: 0 <= j < i ==> MimeOf(rest[j], depth) == [];
          assert m == MimeOf(items[i + 1], depth);
          forall j | 0 <= j < i + 1 ensures MimeOf(items[j], depth) == [] {
            assert j > 0 ==> items[j] == rest[j - 1];
          }
        } else {
          forall i | 0 <= i < |items| ensures MimeOf(items[i], depth) == [] {
            assert i > 0 ==> items[i] == rest[i - 1];
          }
        }
      }
    }
  }

  lemma ItemGivesMime(item: Item, acc: Found, depth: nat)
    requires depth <= 6 && acc.mime == []
    ensures ExtractItem(item, acc, depth).mime == MimeOf(item, depth)
  {
    LooksLikeMP4Means(item.payload);
    LooksLikeMimeMeans(item.payload);
    hide LooksLikeMP4, LooksLikeMimeString, IsVideo, IsMime, Extract;
  }

  // ---------------------------------------------------------------- the walkers

  method LooksLikeMime(d: Text) returns (r: bool)
    ensures r == LooksLikeMimeString(d)
    ensures r <==> && |d| < 64 && (forall k :: 0 <= k < |d| ==> 32 <= d[k] <= 126)
                   && exists k :: 0 < k < |d| - 1 && d[k] == 47 && forall j :: 0 <= j < k ==> d[j] != 47
  {
    LooksLikeMimeMeans(d);
    if |d| == 0 || |d| >= 64 {
      return false;
    }
    var slash := Index(d, [SLASH]);
    if slash <= 0 || slash == |d| - 1 {
      return false;
    }
    for i := 0 to |d|
      invariant forall k :: 0 <= k < i ==> 0x20 <= d[k] <= 0x7e
    {
      if d[i] < 0x20 || d[i] > 0x7e {
        return false;
      }
    }
    return true;
  }

  /** What is left to read at an offset: nothing behind the end. */
  function From(d: Text, i: nat): Text {
    if i <= |d| then d[i..] else []
  }

  /** A result of Go's 64-bit signed arithmetic. */
  function Signed64(x: int): int {
    var m := x % TWO_TO_THE_64;
    if m < TWO_TO_THE_63 then m else m - TWO_TO_THE_64
  }

  lemma Signed64Means(x: int)
    ensures var end := x % 0x1_0000_0000_0000_0000;
            Signed64(x) == if end < 0x8000_0000_0000_0000 then end else end - 0x1_0000_0000_0000_0000
  {
  }

  /** `protobufSkip`.  For wire type 2 the claimed length is added without a check, in signed
      64-bit arithmetic; the walks below never ask for it, as they read type 2 themselves. */
  method ProtobufSkip(d: Text, i: nat, wire: nat) returns (k: int, ok: bool)
    ensures wire != 2 ==> (ok <==> SkipLength(From(d, i), wire).Some?)
    ensures wire != 2 && ok ==> k >= i && SkipLength(From(d, i), wire) == Some(k - i)
    ensures wire == 2 ==> (ok <==> DecodeVarint(From(d, i)).Some?)
    ensures wire == 2 && ok ==>
              var n := DecodeVarint(From(d, i)).value;
              k == Signed64(i + n.length + n.value)
    ensures !ok && wire != 0 ==> k == i
    ensures wire == 2 && ok ==>
              var n := DecodeVarint(From(d, i)).value;
              var end := (i + n.length + n.value) % 0x1_0000_0000_0000_0000;
              k == if end < 0x8000_0000_0000_0000 then end else end - 0x1_0000_0000_0000_0000
    ensures wire == 1 ==> ok && k == i + 8
    ensures wire == 5 ==> ok && k == i + 4
    ensures ok ==> wire in {0, 1, 2, 5}
  {
    hide Signed64, DecodeVarint, Value;
    if wire == 0 {
      var _, next, good := ProtobufVarint(d, i);
      return next, good;
    } else if wire == 1 {
      return i + 8, true;
    } else if wire == 2 {
      var n, j, good := ProtobufVarint(d, i);
      if !good {
        return i, false;
      }
      Signed64Means(j + n);
      return Signed64(j + n), true;
    } else if wire == 5 {
      return i + 4, true;
    }
    return i, false;
  }

  /** The part of the three walk loops that reads a tag and, for wire type 2, a length. */
  method ReadField(d: Text, i: nat) returns (f: Field)
    requires i <= |d|
    ensures f == FirstField(d[i..])
  {
    hide DecodeVarint;
    var tag, j, ok := ProtobufVarint(d, i);
    if !ok {
      return Unreadable;
    }
    assert d[i..][j - i..] == d[j..];
    if tag % 8 != 2 {
      var k, good := ProtobufSkip(d, j, tag % 8);
      return if good then Other(k - i) else Unreadable;
    }
    var n, s, good := ProtobufVarint(d, j);
    return if good then Bytes(tag / 8, s - i, n) else Unreadable;
  }

  lemma ItemsAfterOther(d: Text, i: nat)
    requires i < |d| && FirstField(d[i..]).Other?
    ensures var k := i + FirstField(d[i..]).skipped;
            Items(d[i..]) == Items(d[Min(k, |d|)..])
  {
    hide FirstField;
    var n := FirstField(d[i..]).skipped;
    assert d[i..][Min(n, |d| - i)..] == d[Min(i + n, |d|)..];
  }

  lemma ItemsAfterBytes(d: Text, i: nat)
    requires i < |d| && FirstField(d[i..]).Bytes?
    requires FirstField(d[i..]).length <= |d| - (i + FirstField(d[i..]).header)
    ensures var Bytes(number, header, length) := FirstField(d[i..]);
            var s := i + header;
            Items(d[i..]) == [Item(number, d[s..s + length])] + Items(d[s + length..])
  {
    hide FirstField;
    var Bytes(number, header, length) := FirstField(d[i..]);
    assert d[i..][header..header + length] == d[i + header..i + header + length];
    assert d[i..][header + length..] == d[i + header + length..];
  }

  lemma NoItemsWhenStuck(d: Text, i: nat)
    requires i < |d|
    requires FirstField(d[i..]).Unreadable? ||
             (FirstField(d[i..]).Bytes? && FirstField(d[i..]).length > |d| - (i + FirstField(d[i..]).header))
    ensures Items(d[i..]) == []
  {
  }

  lemma NoItemsAtEnd(d: Text)
    ensures Items(d[|d|..]) == []
  {
  }

  /** `extractVideoFromResourceDepth` */
  method ExtractVideoFromResourceDepth(d: Text, given: Text, depth: nat) returns (mp4: Option<Text>, mime: Text)
    ensures Found(mp4, mime) == Extract(d, given, depth)
    ensures mp4.Some? ==> |mp4.value| > 12 && mp4.value[4] == 102 && mp4.value[5] == 116 && mp4.value[6] == 121 && mp4.value[7] == 112
    ensures IsFrom(d, mp4, depth)
    decreases Left(depth)
  {
    SearchMeans(d, given, depth);
    hide IsFrom, FirstField, Items, LooksLikeMP4, LooksLikeMimeString;
    if depth > MAX_DEPTH {
      return None, [];
    }
    mp4, mime := None, given;
    var i := 0;
    assert d[0..] == d;
    while i < |d|
      invariant Extract(d, given, depth) == ExtractItems(Items(d[Min(i, |d|)..]), Found(mp4, mime), depth)
      decreases |d| - i
    {
      var f := ReadField(d, i);
      if f.Unreadable? {
        NoItemsWhenStuck(d, i);
        return;
      }
      if f.Other? {
        ItemsAfterOther(d, i);
        i := i + f.skipped;
        continue;
      }
      var s := i + f.header;
      if f.length > |d| - s {
        NoItemsWhenStuck(d, i);
        return;
      }
      ItemsAfterBytes(d, i);
      var payload := d[s..s + f.length];
      ghost var item, acc := Item(f.number, payload), Found(mp4, mime);
      var isMime := LooksLikeMime(payload);
      if LooksLikeMP4(payload) {
        if mp4 == None {
          mp4 := Some(payload);
        }
      } else if isMime {
        if mime == [] {
          mime := payload;
        }
      } else if |payload| >= MIN_SUBMESSAGE && f.number < MAX_FIELD {
        var m2, m2mime := ExtractVideoFromResourceDepth(payload, mime, depth + 1);
        if m2 != None {
          mp4 := m2;
          if m2mime != [] {
            mime := m2mime;
          }
        }
      }
      assert Found(mp4, mime) == ExtractItem(item, acc, depth);
      assert ([item] + Items(d[s + f.length..]))[1..] == Items(d[s + f.length..]);
      i := s + f.length;
    }
    NoItemsAtEnd(d);
  }

  /** `extractVideoFromResource`: the same walk at depth 0, with no mime string yet. */
  method ExtractVideoFromResource(d: Text) returns (mp4: Option<Text>, mime: Text)
    ensures Found(mp4, mime) == Extract(d, [], 0)
    ensures mp4.Some? ==> |mp4.value| > 12 && mp4.value[4] == 102 && mp4.value[5] == 116 && mp4.value[6] == 121 && mp4.value[7] == 112
    ensures IsFrom(d, mp4, 0)
  {
    hide IsFrom, FirstField, Items, LooksLikeMP4, LooksLikeMimeString;
    mp4, mime := None, [];
    var i := 0;
    assert d[0..] == d;
    while i < |d|
      invariant Extract(d, [], 0) == ExtractItems(Items(d[Min(i, |d|)..]), Found(mp4, mime), 0)
      decreases |d| - i
    {
      var f := ReadField(d, i);
      if f.Unreadable? {
        NoItemsWhenStuck(d, i);
        break;
      }
      if f.Other? {
        ItemsAfterOther(d, i);
        i := i + f.skipped;
        continue;
      }
      var s := i + f.header;
      if f.length > |d| - s {
        NoItemsWhenStuck(d, i);
        break;
      }
      ItemsAfterBytes(d, i);
      var payload := d[s..s + f.length];
      ghost var item, acc := Item(f.number, payload), Found(mp4, mime);
      var isMime := LooksLikeMime(payload);
      if LooksLikeMP4(payload) {
        if mp4 == None {
          mp4 := Some(payload);
        }
      } else if isMime {
        if mime == [] {
          mime := payload;
        }
      } else if |payload| >= MIN_SUBMESSAGE && f.number < MAX_FIELD {
        var m2, m2mime := ExtractVideoFromResourceDepth(payload, mime, 1);
        if m2 != None {
          mp4 := m2;
          if m2mime != [] {
            mime := m2mime;
          }
        }
      }
      assert Found(mp4, mime) == ExtractItem(item, acc, 0);
      assert ([item] + Items(d[s + f.length..]))[1..] == Items(d[s + f.length..]);
      i := s + f.length;
    }
    NoItemsAtEnd(d);
    SearchMeans(d, [], 0);
  }

  // ---------------------------------------------------------------- the envelope

  datatype Outcome = Video(mp4: Text, mime: Text) | NoVideo | Panic

  /** `extractVideoFromEnvelope`.  The top level has no length guard: a Go slice expression may
      reach into the spare capacity behind the data, and panics beyond that. */
  function SearchEnvelope(d: Text, spare: Text): Outcome
    decreases |d|
  {
    if d == [] then NoVideo
    else
      match FirstField(d)
      case Unreadable => NoVideo
      case Other(n) => SearchEnvelope(d[Min(n, |d|)..], spare)
      case Bytes(number, header, length) =>
        if length > |d| - header + |spare| then Panic
        else
          var r := Extract((d + spare)[header..header + length], [], 0);
          if r.mp4.Some? then Video(r.mp4.value, r.mime)
          else if length > |d| - header then NoVideo
          else SearchEnvelope(d[header + length..], spare)
  }

  /** The first top-level field with a video decides; without one, the walk panics exactly when
      it is stopped by a length that exceeds even the capacity. */
  lemma {:induction false} EnvelopeIsExact(d: Text, spare: Text)
    ensures var hits := FirstHit(Items(d));
            SearchEnvelope(d, spare) ==
            if hits.Some? then Video(hits.value.mp4.value, hits.value.mime)
            else match Overrun(d)
              case None => NoVideo
              case Some(o) =>
                if o.0 > |o.1| + |spare| then Panic
                else
                  var r := Extract((o.1 + spare)[..o.0], [], 0);
                  if r.mp4.Some? then Video(r.mp4.value, r.mime) else NoVideo
    decreases |d|
  {
    hide FirstField, Extract;
    if d != [] {
      match FirstField(d)
      case Unreadable =>
      case Other(n) => EnvelopeIsExact(d[Min(n, |d|)..], spare);
      case Bytes(number, header, length) =>
        if length <= |d| - header {
          assert (d + spare)[header..header + length] == d[header..header + length];
          var rest := Items(d[header + length..]);
          assert ([Item(number, d[header..header + length])] + rest)[1..] == rest;
          EnvelopeIsExact(d[header + length..], spare);
        } else if length <= |d| - header + |spare| {
          assert (d + spare)[header..header + length] == (d[header..] + spare)[..length];
        }
    }
  }

  function FirstHit(items: seq<Item>): (r: Option<Found>)
    ensures r.Some? ==> r.value.mp4.Some?
    decreases |items|
  {
    if items == [] then None
    else if Extract(items[0].payload, [], 0).mp4.Some? then Some(Extract(items[0].payload, [], 0))
    else FirstHit(items[1..])
  }

  lemma {:induction false} FirstHitExists(items: seq<Item>)
    ensures FirstHit(items).Some? <==> exists i :: 0 <= i < |items| && Hit(items[i].payload, 0)
    decreases |items|
  {
    hide Extract, Hit;
    if items != [] {
      SearchIsExact(items[0].payload, [], 0);
      FirstHitExists(items[1..]);
      assert forall i :: 1 <= i < |items| ==> items[i] == items[1..][i - 1];
    }
  }

  /** With well-formed top-level lengths the search is total, and finds a video exactly when
      one is reachable in some top-level field. */
  lemma WellFormedEnvelopeIsTotal(d: Text, spare: Text)
    requires Overrun(d).None?
    ensures SearchEnvelope(d, spare) != Panic
    ensures SearchEnvelope(d, spare).Video? <==>
            exists i :: 0 <= i < |Items(d)| && Hit(Items(d)[i].payload, 0)
  {
    EnvelopeIsExact(d, spare);
    FirstHitExists(Items(d));
  }

  /** Two bytes are enough: a field that claims five bytes where none is left. */
  lemma EnvelopePanicsOnOverlongLength()
    ensures SearchEnvelope([10, 5], []) == Panic
    ensures Overrun([10, 5]) == Some((5, []))
  {
    assert [10, 5][1..] == [5] && [10, 5][2..] == [];
    assert DecodeVarint([10, 5]) == Some(Decoded(10, 1)) && DecodeVarint([5]) == Some(Decoded(5, 1));
    assert FirstField([10, 5]) == Bytes(1, 2, 5);
  }

  /** Exactly when `extractVideoFromEnvelope` panics. */
  lemma EnvelopePanicsExactly(d: Text, spare: Text)
    ensures SearchEnvelope(d, spare) == Panic <==>
            && Overrun(d).Some? && Overrun(d).value.0 > |Overrun(d).value.1| + |spare|
            && forall i :: 0 <= i < |Items(d)| ==> !Hit(Items(d)[i].payload, 0)
  {
    EnvelopeIsExact(d, spare);
    FirstHitExists(Items(d));
  }

  lemma SearchAfterOther(d: Text, spare: Text, i: nat)
    requires i < |d| && FirstField(d[i..]).Other?
    ensures var k := i + FirstField(d[i..]).skipped;
            SearchEnvelope(d[i..], spare) == SearchEnvelope(d[Min(k, |d|)..], spare)
  {
    hide FirstField;
    var n := FirstField(d[i..]).skipped;
    assert d[i..][Min(n, |d| - i)..] == d[Min(i + n, |d|)..];
  }

  lemma SearchAfterBytes(d: Text, spare: Text, i: nat)
    requires i < |d| && FirstField(d[i..]).Bytes?
    ensures var Bytes(number, header, length) := FirstField(d[i..]);
            var s := i + header;
            SearchEnvelope(d[i..], spare) ==
            if length > |d| - s + |spare| then Panic
            else
              var r := Extract((d + spare)[s..s + length], [], 0);
              if r.mp4.Some? then Video(r.mp4.value, r.mime)
              else if length > |d| - s then NoVideo
              else SearchEnvelope(d[s + length..], spare)
  {
    hide FirstField, Extract;
    var Bytes(number, header, length) := FirstField(d[i..]);
    if length <= |d| - (i + header) + |spare| {
      assert (d[i..] + spare)[header..header + length] == (d + spare)[i + header..i + header + length];
      if length <= |d| - (i + header) {
        assert d[i..][header + length..] == d[i + header + length..];
      }
    }
  }

  /** Some top-level field carries a video. */
  ghost predicate FieldCarries(d: Text) {
    AnyCarries(Items(d))
  }

  ghost predicate AnyCarries(items: seq<Item>) {
    exists i, p :: 0 <= i < |items| && Carries(items[i].payload, p, 0)
  }

  ghost predicate OneCarries(items: seq<Item>, p: Text) {
    exists i :: 0 <= i < |items| && Carries(items[i].payload, p, 0)
  }

  lemma DirectVideoIsCarried(d: Text)
    ensures (exists i :: 0 <= i < |Items(d)| && HasVideo(Items(d)[i].payload)) ==> FieldCarries(d)
  {
    hide Items, IsVideo;
    if i :| 0 <= i < |Items(d)| && HasVideo(Items(d)[i].payload) {
      var inner := Items(d)[i].payload;
      var j :| 0 <= j < |Items(inner)| && IsVideo(Items(inner)[j].payload);
      assert Holds(Items(inner)[j], Items(inner)[j].payload, 0);
      assert Carries(inner, Items(inner)[j].payload, 0);
    }
  }

  /** What the envelope search returns, in plain bytes. */
  lemma EnvelopeMeans(d: Text, spare: Text)
    ensures var r := SearchEnvelope(d, spare);
            && (FieldCarries(d) ==> r.Video?)
            && (Overrun(d).None? ==> (r.Video? <==> FieldCarries(d)))
            && (r.Video? ==> |r.mp4| > 12 && r.mp4[4] == 102 && r.mp4[5] == 116 && r.mp4[6] == 121 && r.mp4[7] == 112)
            && (r.Video? && FieldCarries(d) ==> OneCarries(Items(d), r.mp4))
  {
    hide Items, Overrun, Extract, FirstHit, AnyCarries, OneCarries, SearchEnvelope;
    EnvelopeIsExact(d, spare);
    FirstHitMeans(Items(d));
    var o := Overrun(d);
    if o.Some? && o.value.0 <= |o.value.1| + |spare| {
      SearchMeans((o.value.1 + spare)[..o.value.0], [], 0);
    }
  }

  lemma {:induction false} FirstHitMeans(items: seq<Item>)
    ensures var r := FirstHit(items);
            && (r.Some? <==> AnyCarries(items))
            && (r.Some? ==> IsVideo(r.value.mp4.value))
            && (r.Some? ==> OneCarries(items, r.value.mp4.value))
    decreases |items|
  {
    hide Extract, Carries;
    if items != [] {
      var rest := items[1..];
      SearchMeans(items[0].payload, [], 0);
      FirstHitMeans(rest);
      assert forall i :: 0 <= i < |rest| ==> items[i + 1] == rest[i];
      if i, p :| 0 <= i < |rest| && Carries(rest[i].payload, p, 0) {
        assert Carries(items[i + 1].payload, p, 0);
      }
      if i, p :| 0 <= i < |items| && Carries(items[i].payload, p, 0) {
        assert i > 0 ==> items[i] == rest[i - 1];
      }
      var r := FirstHit(items);
      if r.Some? && !Carries(items[0].payload, r.value.mp4.value, 0) {
        var i :| 0 <= i < |rest| && Carries(rest[i].payload, r.value.mp4.value, 0);
        assert Carries(items[i + 1].payload, r.value.mp4.value, 0);
      }
    }
  }

  method ExtractVideoFromEnvelope(data: Text, spare: Text) returns (r: Outcome)
    ensures r == SearchEnvelope(data, spare)
    ensures r.Video? ==> |r.mp4| > 12 && r.mp4[4] == 102 && r.mp4[5] == 116 && r.mp4[6] == 121 && r.mp4[7] == 112
    ensures FieldCarries(data) ==> r.Video?
    ensures Overrun(data).None? ==> (r.Video? <==> FieldCarries(data))
    ensures r.Video? && FieldCarries(data) ==> OneCarries(Items(data), r.mp4)
    ensures (exists i :: 0 <= i < |Items(data)| && HasVideo(Items(data)[i].payload)) ==> r.Video?
  {
    EnvelopeMeans(data, spare);
    DirectVideoIsCarried(data);
    hide Items, Overrun, FieldCarries, HasVideo, OneCarries;
    hide FirstField, SearchEnvelope, Extract;
    var i := 0;
    assert data[0..] == data;
    while i < |data|
      invariant SearchEnvelope(data, spare) == SearchEnvelope(data[Min(i, |data|)..], spare)
      decreases |data| - i
    {
      var f := ReadField(data, i);
      if f.Unreadable? {
        SearchWhenUnreadable(data, spare, i);
        return NoVideo;
      }
      if f.Other? {
        SearchAfterOther(data, spare, i);
        i := i + f.skipped;
        continue;
      }
      SearchAfterBytes(data, spare, i);
      var s := i + f.header;
      if f.length > |data| - s + |spare| {
        return Panic;
      }
      var payload := (data + spare)[s..s + f.length];
      var mp4, mime := ExtractVideoFromResource(payload);
      if mp4.Some? {
        return Video(mp4.value, mime);
      }
      if f.length > |data| - s {
        return NoVideo;
      }
      i := s + f.length;
    }
    SearchAtEnd(data, spare);
    return NoVideo;
  }

  lemma SearchWhenUnreadable(d: Text, spare: Text, i: nat)
    requires i < |d| && FirstField(d[i..]).Unreadable?
    ensures SearchEnvelope(d[i..], spare) == NoVideo
  {
  }

  lemma SearchAtEnd(d: Text, spare: Text)
    ensures SearchEnvelope(d[|d|..], spare) == NoVideo
  {
  }

  // ---------------------------------------------------------------- the encoder

  /** `pb_bytes` of pack_crx.py: tag (field number, wire type 2), length, content. */
  function PbBytes(item: Item): Text {
    EncodeVarint(item.number * 8 + 2) + EncodeVarint(|item.payload|) + item.payload
  }

  function PbMessage(items: seq<Item>): Text {
    if items == [] then [] else PbBytes(items[0]) + PbMessage(items[1..])
  }

  /** What fits the 64-bit integers of the decoder. */
  predicate Encodable(item: Item) {
    item.number * 8 + 2 < TWO_TO_THE_64 && |item.payload| < TWO_TO_THE_64
  }

  lemma FirstFieldOfEncoded(item: Item, rest: Text)
    requires Encodable(item)
    ensures var f := FirstField(PbBytes(item) + rest);
            && f.Bytes? && f.number == item.number && f.length == |item.payload|
            && (PbBytes(item) + rest)[f.header..] == item.payload + rest
  {
    var tag, len := EncodeVarint(item.number * 8 + 2), EncodeVarint(|item.payload|);
    var behind := len + (item.payload + rest);
    VarintRoundTrip(item.number * 8 + 2, behind);
    VarintRoundTrip(|item.payload|, item.payload + rest);
    hide DecodeVarint, EncodeVarint;
    var d := PbBytes(item) + rest;
    assert d == tag + behind;
    assert d[|tag|..] == behind;
    assert (item.number * 8 + 2) % 8 == 2 && (item.number * 8 + 2) / 8 == item.number;
    assert d[|tag| + |len|..] == item.payload + rest;
  }

  /** Walking a message written by `pb_bytes` visits exactly the fields that were written, in
      order, with their numbers and contents, and is stopped by none of them. */
  lemma {:induction false} FieldsRoundTrip(items: seq<Item>)
    requires forall i :: 0 <= i < |items| ==> Encodable(items[i])
    ensures Items(PbMessage(items)) == items
    ensures Overrun(PbMessage(items)).None?
    decreases |items|
  {
    hide FirstField, PbBytes, Encodable;
    if items != [] {
      var item, rest := items[0], PbMessage(items[1..]);
      assert forall i :: 0 <= i < |items[1..]| ==> items[1..][i] == items[i + 1];
      FieldsRoundTrip(items[1..]);
      FirstFieldOfEncoded(item, rest);
      var d := PbMessage(items);
      var f := FirstField(d);
      assert d[f.header..][..f.length] == item.payload == d[f.header..f.header + f.length];
      assert d[f.header..][f.length..] == rest == d[f.header + f.length..];
      assert items == [item] + items[1..];
    }
  }

  /** A field as the encoding specification writes it, of any of the four wire types in use. */
  datatype Written =
    | Number(field: nat, value: nat)
    | Eight(field: nat, bytes: Text)
    | Content(item: Item)
    | Four(field: nat, bytes: Text)

  predicate Fits(w: Written) {
    match w
    case Number(field, value) => field * 8 < TWO_TO_THE_64 && value < TWO_TO_THE_64
    case Eight(field, bytes) => field * 8 + 1 < TWO_TO_THE_64 && |bytes| == 8
    case Content(item) => Encodable(item)
    case Four(field, bytes) => field * 8 + 5 < TWO_TO_THE_64 && |bytes| == 4
  }

  /** Tag and value ("Record structure" in the Protocol Buffers encoding specification). */
  function WrittenBytes(w: Written): Text {
    match w
    case Number(field, value) => EncodeVarint(field * 8) + EncodeVarint(value)
    case Eight(field, bytes) => EncodeVarint(field * 8 + 1) + bytes
    case Content(item) => PbBytes(item)
    case Four(field, bytes) => EncodeVarint(field * 8 + 5) + bytes
  }

  function WrittenMessage(ws: seq<Written>): Text {
    if ws == [] then [] else WrittenBytes(ws[0]) + WrittenMessage(ws[1..])
  }

  function Contents(ws: seq<Written>): seq<Item> {
    if ws == [] then [] else (if ws[0].Content? then [ws[0].item] else []) + Contents(ws[1..])
  }

  lemma TagParts(field: nat, wire: nat)
    requires wire < 8
    ensures (field * 8 + wire) % 8 == wire
  {
  }

  lemma NumberIsSkipped(field: nat, wire: nat, value: Text, rest: Text)
    requires wire < 8 && field * 8 + wire < TWO_TO_THE_64 && wire != 2
    requires SkipLength(value + rest, wire) == Some(|value|)
    ensures var d := EncodeVarint(field * 8 + wire) + value + rest;
            FirstField(d).Other? && d[Min(FirstField(d).skipped, |d|)..] == rest
  {
    var tag := EncodeVarint(field * 8 + wire);
    VarintRoundTrip(field * 8 + wire, value + rest);
    hide DecodeVarint, EncodeVarint, SkipLength;
    TagParts(field, wire);
    var d := tag + value + rest;
    assert d == tag + (value + rest);
    assert d[|tag|..] == value + rest;
    assert d[|tag| + |value|..] == rest;
  }

  lemma WrittenIsRead(w: Written, rest: Text)
    requires Fits(w)
    ensures var d := WrittenBytes(w) + rest;
            && Items(d) == (if w.Content? then [w.item] else []) + Items(rest)
            && Overrun(d) == Overrun(rest)
  {
    hide FirstField, EncodeVarint;
    var d := WrittenBytes(w) + rest;
    match w
    case Number(field, value) =>
      VarintRoundTrip(value, rest);
      NumberIsSkipped(field, 0, EncodeVarint(value), rest);
    case Eight(field, bytes) =>
      NumberIsSkipped(field, 1, bytes, rest);
    case Four(field, bytes) =>
      NumberIsSkipped(field, 5, bytes, rest);
    case Content(item) =>
      FirstFieldOfEncoded(item, rest);
      hide PbBytes;
      var f := FirstField(d);
      assert d[f.header..][..f.length] == item.payload == d[f.header..f.header + f.length];
      assert d[f.header..][f.length..] == rest == d[f.header + f.length..];
  }

  /** Whatever fields surround them, the walk visits exactly the length-delimited ones. */
  lemma {:induction false} WireRoundTrip(ws: seq<Written>)
    requires forall i :: 0 <= i < |ws| ==> Fits(ws[i])
    ensures Items(WrittenMessage(ws)) == Contents(ws)
    ensures Overrun(WrittenMessage(ws)).None?
    decreases |ws|
  {
    if ws != [] {
      hide Items, Overrun, Fits, WrittenBytes;
      WireRoundTrip(ws[1..]);
      WrittenIsRead(ws[0], WrittenMessage(ws[1..]));
    }
  }

  /** A video that fits, written as a field of a message that is a field of an envelope, among
      whatever other fields, is found. */
  lemma WrittenVideoIsFound(outer: seq<Written>, inner: seq<Written>, i: nat, j: nat, spare: Text)
    requires forall k :: 0 <= k < |outer| ==> Fits(outer[k])
    requires forall k :: 0 <= k < |inner| ==> Fits(inner[k])
    requires i < |outer| && outer[i].Content? && outer[i].item.payload == WrittenMessage(inner)
    requires j < |inner| && inner[j].Content? && IsVideo(inner[j].item.payload)
    ensures SearchEnvelope(WrittenMessage(outer), spare).Video?
  {
    WireRoundTrip(outer);
    WireRoundTrip(inner);
    hide Items, IsVideo, Fits, Overrun, WrittenMessage, SearchEnvelope;
    var d := WrittenMessage(outer);
    var m := ContentIsThere(inner, j);
    assert HasVideo(WrittenMessage(inner));
    var n := ContentIsThere(outer, i);
    assert HasVideo(Items(d)[n].payload);
    DirectVideoIsCarried(d);
    EnvelopeMeans(d, spare);
  }

  lemma {:induction false} ContentIsThere(ws: seq<Written>, i: nat) returns (k: nat)
    requires i < |ws| && ws[i].Content?
    ensures k < |Contents(ws)| && Contents(ws)[k] == ws[i].item
    decreases |ws|
  {
    if i == 0 {
      k := 0;
    } else {
      k := ContentIsThere(ws[1..], i - 1);
      k := if ws[0].Content? then k + 1 else k;
    }
  }

  /** An envelope built field by field: whatever surrounds it, the first top-level field whose
      content holds a reachable video is found, and the search never panics. */
  lemma EncodedEnvelopeIsSearched(items: seq<Item>, spare: Text)
    requires forall i :: 0 <= i < |items| ==> Encodable(items[i])
    ensures SearchEnvelope(PbMessage(items), spare) ==
            match FirstHit(items)
            case None => NoVideo
            case Some(r) => Video(r.mp4.value, r.mime)
  {
    FieldsRoundTrip(items);
    EnvelopeIsExact(PbMessage(items), spare);
  }
}
