/** Base 128 varints ("Base 128 Varints" in the Protocol Buffers encoding specification):
    the Go decoder of internal/app/media.go and the Python encoder of
    tools/cookie-sync/pack_crx.py. */
module Varint {
  import opened GoStrings
  import opened Wrappers

  const TWO_TO_THE_64: nat := 0x1_0000_0000_0000_0000
  const TWO_TO_THE_63: nat := 0x8000_0000_0000_0000

  /** The most bytes a varint may have: shifts 0, 7, ..., 63. */
  const MAX_VARINT: nat := 10

  /** A decoded value and the number of bytes it took. */
  datatype Decoded = Decoded(value: nat, length: nat)

  /** The little-endian base-128 number at the front of `d`, if it ends within `budget` bytes. */
  function Septets(d: Text, budget: nat): (r: Option<Decoded>)
    ensures r.Some? ==> 1 <= r.value.length <= |d| && r.value.length <= budget
    decreases budget
  {
    if budget == 0 || d == [] then None
    else if d[0] < 128 then Some(Decoded(d[0], 1))
    else
      match Septets(d[1..], budget - 1)
      case None => None
      case Some(r) => Some(Decoded(d[0] - 128 + 128 * r.value, r.length + 1))
  }

  /** What `protobufVarint` reads from the front of `d`: bits beyond the 64th fall off. */
  function DecodeVarint(d: Text): (r: Option<Decoded>)
    ensures r.Some? ==> 1 <= r.value.length <= |d| && r.value.length <= MAX_VARINT
    ensures r.Some? ==> r.value.value < TWO_TO_THE_64
  {
    match Septets(d, MAX_VARINT)
    case None => None
    case Some(r) => Some(Decoded(r.value % TWO_TO_THE_64, r.length))
  }

  /** Decoding fails exactly when none of the first ten bytes ends the number. */
  lemma {:induction false} DecodeFailsExactly(d: Text, budget: nat)
    ensures Septets(d, budget).None? <==> forall k :: 0 <= k < |d| && k < budget ==> d[k] >= 128
    decreases budget
  {
    if budget > 0 && d != [] && d[0] >= 128 {
      DecodeFailsExactly(d[1..], budget - 1);
      assert forall k :: 1 <= k < |d| ==> d[k] == d[1..][k - 1];
    }
  }

  /** The number whose digits to base 128 are the lower seven bits of these bytes, lowest first. */
  function Value(t: Text): nat {
    if t == [] then 0 else t[0] % 128 + 128 * Value(t[1..])
  }

  lemma {:induction false} SeptetsMean(d: Text, budget: nat)
    ensures var r := Septets(d, budget);
            r.Some? ==>
              var n := r.value.length;
              && (forall k :: 0 <= k < n - 1 ==> d[k] >= 128) && d[n - 1] < 128
              && r.value.value == Value(d[..n])
    decreases budget
  {
    var r := Septets(d, budget);
    if r.Some? {
      var n := r.value.length;
      if d[0] >= 128 {
        SeptetsMean(d[1..], budget - 1);
        assert forall k :: 1 <= k < n ==> d[k] == d[1..][k - 1];
        assert d[..n][1..] == d[1..][..n - 1] && d[..n][0] == d[0];
      } else {
        assert d[..1][1..] == [] && d[..1][0] == d[0];
      }
    }
  }

  /** What is read: up to and with the first byte below 128, if it is among the first ten; its
      value to base 128, of which 64 bits are kept. */
  lemma DecodeMeans(d: Text)
    ensures var r := DecodeVarint(d);
            && (r.Some? <==> exists k :: 0 <= k < 10 && k < |d| && d[k] < 128)
            && (r.Some? ==>
                  var n := r.value.length;
                  && 1 <= n <= 10 && (forall k :: 0 <= k < n - 1 ==> d[k] >= 128) && d[n - 1] < 128
                  && r.value.value == Value(d[..n]) % 0x1_0000_0000_0000_0000)
  {
    DecodeFailsExactly(d, 10);
    SeptetsMean(d, 10);
    hide Septets, Value;
  }

  function Pow128(k: nat): (p: nat)
    ensures p >= 1
  {
    if k == 0 then 1 else 128 * Pow128(k - 1)
  }

  function Times(a: nat, b: nat): nat {
    a * b
  }

  lemma ModAdd(a: int, b: int)
    ensures (a % TWO_TO_THE_64 + b) % TWO_TO_THE_64 == (a + b) % TWO_TO_THE_64
  {
  }

  /** A decoded tail, behind `k` bytes that contributed `low`. */
  ghost function Behind(low: nat, pow: nat, k: nat, r: Option<Decoded>): Option<Decoded> {
    match r
    case None => None
    case Some(t) => Some(Decoded(low + Times(pow, t.value), t.length + k))
  }

  lemma BehindOneMore(low: nat, pow: nat, k: nat, d: Text, budget: nat)
    requires d != [] && d[0] >= 128 && budget > 0
    ensures Behind(low, pow, k, Septets(d, budget)) ==
            Behind(low + Times(d[0] % 128, pow), 128 * pow, k + 1, Septets(d[1..], budget - 1))
  {
    var b := d[0] % 128;
    assert d[0] - 128 == b;
    match Septets(d[1..], budget - 1)
    case None =>
    case Some(r) =>
      TimesSplit(pow, b, r.value);
      hide Times;
  }

  lemma TimesSplit(pow: nat, b: nat, v: nat)
    ensures Times(pow, b + 128 * v) == Times(b, pow) + Times(128 * pow, v)
  {
    assert pow * (128 * v) == (128 * pow) * v;
    assert pow * (b + 128 * v) == pow * b + pow * (128 * v);
  }

  lemma TimesCommutes(a: nat, b: nat)
    ensures Times(a, b) == Times(b, a)
  {
  }

  lemma BehindLast(low: nat, pow: nat, k: nat, d: Text, budget: nat)
    requires d != [] && d[0] < 128 && budget > 0
    ensures Behind(low, pow, k, Septets(d, budget)) == Some(Decoded(low + Times(d[0] % 128, pow), k + 1))
  {
    TimesCommutes(pow, d[0]);
    assert d[0] % 128 == d[0];
    hide Times;
  }

  lemma BehindNothing(low: nat, pow: nat, k: nat, r: Option<Decoded>)
    ensures Behind(0, 1, 0, r) == r
    ensures Behind(low, pow, k, None) == None
  {
  }

  lemma DecodesTo(d: Text, r: Option<Decoded>)
    requires Septets(d, MAX_VARINT) == r
    ensures DecodeVarint(d) == match r
              case None => None
              case Some(t) => Some(Decoded(t.value % TWO_TO_THE_64, t.length))
  {
  }

  /** One more byte of the number, as the loop adds it. */
  lemma OneMoreByte(v: nat, exact: nat, b: byte, s: nat, k: nat)
    requires s == 7 * k && v == exact % TWO_TO_THE_64
    ensures (v + Times(b % 128, ShiftedOne(s, k))) % TWO_TO_THE_64 == (exact + Times(b % 128, Pow128(k))) % TWO_TO_THE_64
  {
    ModAdd(exact, Times(b % 128, Pow128(k)));
  }

  lemma DecodeMeansAt(d: Text, start: nat)
    ensures start <= |d| && DecodeVarint(d[start..]).Some? <==> exists k :: start <= k < start + 10 && k < |d| && d[k] < 128
    ensures start <= |d| && DecodeVarint(d[start..]).Some? ==>
              var i := start + DecodeVarint(d[start..]).value.length;
              && start < i <= start + 10 && (forall k :: start <= k < i - 1 ==> d[k] >= 128) && d[i - 1] < 128
              && DecodeVarint(d[start..]).value.value == Value(d[start..i]) % 0x1_0000_0000_0000_0000
  {
    hide DecodeVarint, Value;
    if start <= |d| {
      var rest := d[start..];
      DecodeMeans(rest);
      assert forall k :: start <= k < |d| ==> d[k] == rest[k - start];
      assert forall k :: 0 <= k < |rest| ==> rest[k] == d[start + k];
      if DecodeVarint(rest).Some? {
        var n := DecodeVarint(rest).value.length;
        assert rest[..n] == d[start..start + n];
      }
    }
  }

  /** `protobufVarint`.  The accumulator holds fewer bits than the shift, so the bitwise or of
      the original is an addition, and the 64-bit shift drops what does not fit. */
  method ProtobufVarint(d: Text, start: nat) returns (v: nat, i: nat, ok: bool)
    ensures ok <==> start <= |d| && DecodeVarint(d[start..]).Some?
    ensures ok ==> start < i <= |d| && DecodeVarint(d[start..]) == Some(Decoded(v, i - start))
    ensures !ok ==> v == 0 && start <= i && (i <= |d| || i == start)
    ensures ok <==> exists k :: start <= k < start + 10 && k < |d| && d[k] < 128
    ensures ok ==> && start < i <= start + 10 && (forall k :: start <= k < i - 1 ==> d[k] >= 128) && d[i - 1] < 128
                   && v == Value(d[start..i]) % 0x1_0000_0000_0000_0000
  {
    DecodeMeansAt(d, start);
    hide Value;
    hide Septets, Times, Behind, DecodeVarint, ShiftedOne, Pow128;
    v, i := 0, start;
    if start > |d| {
      return 0, i, false;
    }
    var s := 0;
    ghost var k: nat, exact: nat, pow: nat := 0, 0, Pow128(0);
    PowerOfNothing();
    ghost var whole := Septets(d[start..], MAX_VARINT);
    BehindNothing(0, 1, 0, whole);
    while true
      invariant s == 7 * k && k < MAX_VARINT && i == start + k && i <= |d|
      invariant pow == Pow128(k) && v == exact % TWO_TO_THE_64
      invariant whole == Behind(exact, pow, k, Septets(d[i..], MAX_VARINT - k))
      decreases MAX_VARINT - k
    {
      if i >= |d| {
        NothingLeft(d[i..], MAX_VARINT - k);
        BehindNothing(exact, pow, k, None);
        DecodesTo(d[start..], None);
        return 0, i, false;
      }
      var b := d[i];
      assert d[i..][1..] == d[i + 1..];
      if b >= 128 {
        BehindOneMore(exact, pow, k, d[i..], MAX_VARINT - k);
      } else {
        BehindLast(exact, pow, k, d[i..], MAX_VARINT - k);
      }
      i := i + 1;
      OneMoreByte(v, exact, b, s, k);
      v := (v + Times(b % 128, ShiftedOne(s, k))) % TWO_TO_THE_64;
      exact := exact + Times(b % 128, pow);
      if b < 128 {
        DecodesTo(d[start..], Some(Decoded(exact, k + 1)));
        return v, i, true;
      }
      s := s + 7;
      PowerOfOneMore(k);
      k, pow := k + 1, 128 * pow;
      if s > 63 {
        NothingLeft(d[i..], 0);
        BehindNothing(exact, pow, k, None);
        DecodesTo(d[start..], None);
        return 0, i, false;
      }
    }
  }

  lemma PowerOfNothing()
    ensures Pow128(0) == 1
  {
  }

  lemma PowerOfOneMore(k: nat)
    ensures Pow128(k + 1) == 128 * Pow128(k)
  {
  }

  lemma NothingLeft(d: Text, budget: nat)
    requires d == [] || budget == 0
    ensures Septets(d, budget) == None
  {
  }

  /** 1 << s */
  function ShiftedOne(s: nat, ghost k: nat): (p: nat)
    requires s == 7 * k
    ensures p == Pow128(k)
    decreases s
  {
    if s == 0 then 1 else 128 * ShiftedOne(s - 7, k - 1)
  }

  // ---------------------------------------------------------------- the encoder

  function EncodeVarint(n: nat): (r: Text)
    ensures |r| >= 1
  {
    if n < 128 then [n] else [n % 128 + 128] + EncodeVarint(n / 128)
  }

  /** `varint` of pack_crx.py. */
  method PyVarint(n: nat) returns (out: Text)
    ensures out == EncodeVarint(n)
  {
    out := [];
    var m := n;
    while true
      invariant out + EncodeVarint(m) == EncodeVarint(n)
      decreases m
    {
      var b := m % 128;
      var high := m / 128;
      if high != 0 {
        assert (out + [b + 128]) + EncodeVarint(high) == out + ([b + 128] + EncodeVarint(high));
        out := out + [b + 128];
        m := high;
      } else {
        out := out + [b];
        return;
      }
    }
  }

  lemma {:induction false} EncodedLength(n: nat, k: nat)
    requires k >= 1 && n < Pow128(k)
    ensures |EncodeVarint(n)| <= k
    decreases k
  {
    if n >= 128 {
      EncodedLength(n / 128, k - 1);
    }
  }

  lemma {:induction false} SeptetsOfEncoded(n: nat, rest: Text, budget: nat)
    requires |EncodeVarint(n)| <= budget
    ensures Septets(EncodeVarint(n) + rest, budget) == Some(Decoded(n, |EncodeVarint(n)|))
    decreases n
  {
    var d := EncodeVarint(n) + rest;
    if n >= 128 {
      assert d[1..] == EncodeVarint(n / 128) + rest;
      SeptetsOfEncoded(n / 128, rest, budget - 1);
    }
  }

  lemma Pow128Of10()
    ensures Pow128(10) == 0x40_0000_0000_0000_0000
  {
    assert Pow128(2) == 0x4000;
    assert Pow128(4) == 0x4000 * 0x4000;
    assert Pow128(6) == 0x4000 * 0x4000 * 0x4000;
    assert Pow128(8) == 0x4000 * 0x4000 * 0x4000 * 0x4000;
  }

  /** Whatever Python encodes, Go decodes, and stops right behind it: for every 64-bit number
      and any bytes that follow. */
  lemma VarintRoundTrip(n: nat, rest: Text)
    requires n < 0x1_0000_0000_0000_0000
    ensures |EncodeVarint(n)| <= MAX_VARINT
    ensures DecodeVarint(EncodeVarint(n) + rest) == Some(Decoded(n, |EncodeVarint(n)|))
  {
    Pow128Of10();
    EncodedLength(n, 10);
    SeptetsOfEncoded(n, rest, MAX_VARINT);
  }

  /** Decoding gives back what was encoded exactly for the numbers that fit 64 bits. */
  lemma VarintSurvivesExactly(n: nat, rest: Text)
    ensures DecodeVarint(EncodeVarint(n) + rest) == Some(Decoded(n, |EncodeVarint(n)|)) <==> n < 0x1_0000_0000_0000_0000
  {
    if n < TWO_TO_THE_64 {
      VarintRoundTrip(n, rest);
    }
    var r := DecodeVarint(EncodeVarint(n) + rest);
    assert r.Some? ==> r.value.value < TWO_TO_THE_64;
  }

  /** For a number that needs more than 64 bits the two sides differ: at 2^64 the encoding is
      accepted and read as 0. */
  lemma VarintWrapsAt64Bits(rest: Text)
    ensures DecodeVarint(EncodeVarint(0x1_0000_0000_0000_0000) + rest).Some?
    ensures DecodeVarint(EncodeVarint(0x1_0000_0000_0000_0000) + rest).value.value == 0
  {
    Pow128Of10();
    EncodedLength(TWO_TO_THE_64, 10);
    SeptetsOfEncoded(TWO_TO_THE_64, rest, MAX_VARINT);
  }
}
