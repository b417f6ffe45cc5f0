/** The store of native conversations (internal/app/conversation.go): a bounded map with expiry,
    and the fingerprints under which a conversation is found again. */
module Conversations {
  import opened GoStrings

  /** 90 minutes, in seconds. */
  const CONV_TTL: int := 5400
  const CONV_MAX: nat := 4000

  /** One conversation.  The same object can be stored under several keys. */
  class ConvState {
    var updated: int

    constructor ()
    {
      updated := 0;
    }
  }

  type Entries = map<string, ConvState>

  ghost predicate Expired(m: Entries, k: string, now: int)
    requires k in m
    reads m[k]
  {
    now - m[k].updated > 5400
  }

  lemma RemoveOne<K, V>(m: map<K, V>, k: K)
    requires k in m
    ensures |m - {k}| == |m| - 1
  {
    assert (m - {k}).Keys == m.Keys - {k};
    assert |m.Keys - {k}| == |m.Keys| - 1;
  }

  lemma SubmapSize<K, V>(a: map<K, V>, b: map<K, V>)
    requires a.Keys <= b.Keys
    ensures |a| <= |b|
    ensures a.Keys != b.Keys ==> |a| < |b|
  {
    assert b.Keys == a.Keys + (b.Keys - a.Keys);
    assert |b.Keys| == |a.Keys| + |b.Keys - a.Keys|;
    if a.Keys != b.Keys {
      var k :| k in b.Keys - a.Keys;
    }
  }

  class ConvStore {
    var entries: Entries

    ghost predicate Valid()
      reads this
    {
      |entries| <= 4000 && "" !in entries
    }

    constructor ()
      ensures Valid() && entries == map[]
    {
      entries := map[];
    }

    /** `convDelete` */
    method Delete(key: string)
      requires Valid()
      modifies this
      ensures Valid()
      ensures entries == old(entries) - {key}
    {
      if key == "" {
        return;
      }
      if key in entries {
        RemoveOne(entries, key);
      }
      entries := entries - {key};
    }

    /** `convGet`: never an expired conversation, and an expired one only this once in the way. */
    method Get(key: string, now: int) returns (r: ConvState?)
      requires Valid()
      modifies this
      ensures Valid()
      ensures r != null <==> key in old(entries) && !Expired(old(entries), key, now)
      ensures r != null ==> r == old(entries)[key] && now - r.updated <= 5400
      ensures r == null ==> key !in old(entries) || now - old(entries)[key].updated > 5400
      ensures entries == if r == null then old(entries) - {key} else old(entries)
    {
      if key == "" {
        return null;
      }
      if key !in entries {
        return null;
      }
      if now - entries[key].updated > CONV_TTL {
        RemoveOne(entries, key);
        entries := entries - {key};
        return null;
      }
      return entries[key];
    }

    /** `convPut`.  When the map is over its limit the expired entries go; if there is none, one
        of the least recently updated goes instead.  The map is walked in any order. */
    method Put(key: string, st: ConvState, now: int)
      requires Valid()
      modifies this, st
      ensures Valid()
      ensures key == "" ==> entries == old(entries) && st.updated == old(st.updated)
      ensures key != "" ==> st.updated == now && Kept(old(entries)[key := st], entries, now)
    {
      if key == "" {
        return;
      }
      st.updated := now;
      var full := entries[key := st];
      assert full.Keys == entries.Keys + {key};
      entries := full;
      if |full| > CONV_MAX {
        Evict(full, now);
      }
    }

    /** The eviction loop of `convPut`. */
    method Evict(full: Entries, now: int)
      requires entries == full && |full| == CONV_MAX + 1 && "" !in full
      modifies this
      ensures |entries| <= CONV_MAX && "" !in entries
      ensures Kept(full, entries, now)
    {
      hide Swept, OldestSeen, Kept;
      var oldestK, oldestT, first := "", 0, true;
      var todo := full.Keys;
      SweepStarts(full, now);
      while todo != {}
        invariant todo <= full.Keys
        invariant Swept(full, todo, entries, now)
        invariant OldestSeen(full, todo, oldestK, oldestT, first, now)
      {
        var k :| k in todo;
        SweepSteps(full, todo, entries, k, now);
        OldestSteps(full, todo, oldestK, oldestT, first, k, now);
        todo := todo - {k};
        if now - full[k].updated > CONV_TTL {
          entries := entries - {k};
        } else if first || full[k].updated < oldestT {
          oldestK, oldestT, first := k, full[k].updated, false;
        }
      }
      SweepEnds(full, entries, oldestK, oldestT, first, now);
      if |entries| > CONV_MAX && oldestK != "" {
        entries := entries - {oldestK};
      }
    }
  }

  /** What is left when every key outside `todo` was visited. */
  ghost predicate Swept(full: Entries, todo: set<string>, left: Entries, now: int)
    reads full.Values
  {
    && left.Keys <= full.Keys
    && (forall k :: k in full ==> (k in left <==> k in todo || !Expired(full, k, now)))
    && (forall k :: k in left ==> left[k] == full[k])
  }

  ghost predicate OldestSeen(full: Entries, todo: set<string>, oldestK: string, oldestT: int, first: bool, now: int)
    reads full.Values
  {
    if first then
      oldestK == "" && forall k :: k in full && k !in todo ==> Expired(full, k, now)
    else
      && oldestK in full && oldestK !in todo && !Expired(full, oldestK, now) && oldestT == full[oldestK].updated
      && forall k :: k in full && k !in todo && !Expired(full, k, now) ==> oldestT <= full[k].updated
  }

  lemma SweepStarts(full: Entries, now: int)
    ensures Swept(full, full.Keys, full, now) && OldestSeen(full, full.Keys, "", 0, true, now)
  {
  }

  lemma SweepSteps(full: Entries, todo: set<string>, left: Entries, k: string, now: int)
    requires Swept(full, todo, left, now) && k in todo && k in full
    ensures Swept(full, todo - {k}, if Expired(full, k, now) then left - {k} else left, now)
  {
  }

  lemma OldestSteps(full: Entries, todo: set<string>, oldestK: string, oldestT: int, first: bool, k: string, now: int)
    requires OldestSeen(full, todo, oldestK, oldestT, first, now) && k in todo && k in full
    ensures if !Expired(full, k, now) && (first || full[k].updated < oldestT)
            then OldestSeen(full, todo - {k}, k, full[k].updated, false, now)
            else OldestSeen(full, todo - {k}, oldestK, oldestT, first, now)
  {
  }

  lemma SweepEnds(full: Entries, left: Entries, oldestK: string, oldestT: int, first: bool, now: int)
    requires |full| == CONV_MAX + 1 && "" !in full
    requires Swept(full, {}, left, now) && OldestSeen(full, {}, oldestK, oldestT, first, now)
    ensures var after := if |left| > CONV_MAX && oldestK != "" then left - {oldestK} else left;
            |after| <= CONV_MAX && "" !in after && Kept(full, after, now)
  {
    SubmapSize(left, full);
    if exists k :: k in full && Expired(full, k, now) {
      assert left.Keys != full.Keys;
    } else {
      assert left.Keys == full.Keys && |left| == CONV_MAX + 1;
      var k :| k in full.Keys;
      assert !Expired(full, k, now) && !first;
      RemoveOne(left, oldestK);
      assert (left - {oldestK}).Keys == full.Keys - {oldestK};
    }
  }

  /** What may be missing after a put: nothing while there is room; else exactly the expired
      entries if there are any; else exactly one entry, updated no later than any other. */
  ghost predicate Kept(full: Entries, after: Entries, now: int)
    reads full.Values
  {
    && after.Keys <= full.Keys && (forall k :: k in after ==> after[k] == full[k])
    && if |full| <= 4000 then after == full
       else if exists k :: k in full && Expired(full, k, now) then
         forall k :: k in full ==> (k in after <==> !Expired(full, k, now))
       else
         exists k :: && k in full && after.Keys == full.Keys - {k}
                     && forall j :: j in full ==> full[k].updated <= full[j].updated
  }

  // ---------------------------------------------------------------- fingerprints

  datatype Message = Message(role: Text, content: Text)

  const UNIT_SEP: byte := 0x1f
  const RECORD_SEP: byte := 0x1e

  /** "assistant" */
  const ASSISTANT: Text := [97, 115, 115, 105, 115, 116, 97, 110, 116]

  function Encode(m: Message): Text {
    m.role + [0x1f] + m.content + [0x1e]
  }

  /** `canonicalMessages` */
  function Canonical(ms: seq<Message>): Text {
    if ms == [] then [] else Encode(ms[0]) + Canonical(ms[1..])
  }

  lemma EncodeAppends(b: Text, m: Message)
    ensures b + m.role + [UNIT_SEP] + m.content + [RECORD_SEP] == b + Encode(m)
  {
  }

  lemma Regroup(a: Text, b: Text, c: Text)
    ensures a + (b + c) == (a + b) + c
  {
  }

  method CanonicalMessages(ms: seq<Message>) returns (b: Text)
    ensures b == Canonical(ms)
  {
    hide Encode;
    b := [];
    assert ms[0..] == ms;
    assert b + Canonical(ms) == Canonical(ms);
    for i := 0 to |ms|
      invariant b + Canonical(ms[i..]) == Canonical(ms)
    {
      assert ms[i..][1..] == ms[i + 1..];
      Regroup(b, Encode(ms[i]), Canonical(ms[i + 1..]));
      assert Canonical(ms[i..]) == Encode(ms[i]) + Canonical(ms[i + 1..]);
      ghost var before := b;
      b := b + ms[i].role;
      b := b + [UNIT_SEP];
      b := b + ms[i].content;
      b := b + [RECORD_SEP];
      EncodeAppends(before, ms[i]);
    }
    assert b + [] == b;
  }

  /** `convParentKey`: the fingerprint of everything before the last message. */
  function ParentKey(hash: Text -> string, ms: seq<Message>): string {
    if |ms| < 2 then "" else hash(Canonical(ms[..|ms| - 1]))
  }

  /** `convChildKey`: the fingerprint of the history with the answer. */
  function ChildKey(hash: Text -> string, ms: seq<Message>, answer: Text): string {
    hash(Canonical(ms + [Message(ASSISTANT, answer)]))
  }

  predicate Plain(m: Message) {
    && UNIT_SEP !in m.role && RECORD_SEP !in m.role
    && UNIT_SEP !in m.content && RECORD_SEP !in m.content
  }

  predicate AllPlain(ms: seq<Message>) {
    forall i :: 0 <= i < |ms| ==> Plain(ms[i])
  }

  lemma PartReaches(a: Text, b: Text, s: byte, x: Text, y: Text)
    requires s !in b && a + [s] + x == b + [s] + y
    ensures |b| <= |a|
  {
    var t := b + [s] + y;
    assert t[|a|] == (a + [s] + x)[|a|] == s;
    assert forall i :: 0 <= i < |b| ==> t[i] == b[i];
  }

  /** A part up to its first separator is determined by the whole. */
  lemma SplitAtByte(a: Text, b: Text, s: byte, x: Text, y: Text)
    requires s !in a && s !in b && a + [s] + x == b + [s] + y
    ensures a == b && x == y
  {
    PartReaches(a, b, s, x, y);
    PartReaches(b, a, s, y, x);
    var t := a + [s] + x;
    assert a == t[..|a|] == b;
    assert x == t[|a| + 1..] == y;
  }

  lemma EncodeSplits(m: Message, x: Text)
    ensures Encode(m) + x == m.role + [UNIT_SEP] + (m.content + [RECORD_SEP] + x)
    ensures Encode(m) != []
  {
  }

  lemma CanonicalIsEmpty(ms: seq<Message>)
    ensures Canonical(ms) == [] <==> ms == []
  {
    if ms != [] {
      assert Encode(ms[0])[|ms[0].role|] == UNIT_SEP;
    }
  }

  /** Different histories have different canonical texts, as long as no role or content contains
      a separator. */
  lemma {:induction false} CanonicalIsInjective(a: seq<Message>, b: seq<Message>)
    requires AllPlain(a) && AllPlain(b) && Canonical(a) == Canonical(b)
    ensures a == b
    decreases |a|
  {
    CanonicalIsEmpty(a);
    CanonicalIsEmpty(b);
    if a != [] && b != [] {
      EncodeSplits(a[0], Canonical(a[1..]));
      EncodeSplits(b[0], Canonical(b[1..]));
      hide Encode;
      SplitAtByte(a[0].role, b[0].role, UNIT_SEP,
                  a[0].content + [RECORD_SEP] + Canonical(a[1..]), b[0].content + [RECORD_SEP] + Canonical(b[1..]));
      SplitAtByte(a[0].content, b[0].content, RECORD_SEP, Canonical(a[1..]), Canonical(b[1..]));
      CanonicalIsInjective(a[1..], b[1..]);
      assert a == [a[0]] + a[1..] && b == [b[0]] + b[1..];
    }
  }

  /** With a separator inside a content two different histories can look the same. */
  lemma CanonicalCanCollide()
    ensures Canonical([Message([1], [2, RECORD_SEP, 3, UNIT_SEP, 4])]) == Canonical([Message([1], [2]), Message([3], [4])])
  {
    var a := Message([1], [2, RECORD_SEP, 3, UNIT_SEP, 4]);
    var b, c := Message([1], [2]), Message([3], [4]);
    assert Canonical([a]) == Encode(a) + Canonical([]);
    assert [b, c][1..] == [c];
    assert [c][1..] == [] && Canonical([c]) == Encode(c) + Canonical([]);
    assert Canonical([b, c]) == Encode(b) + Canonical([c]);
  }

  /** The text ends with the separator its last message ends with. */
  lemma {:induction false} CanonicalEnds(ms: seq<Message>)
    requires ms != []
    ensures Canonical(ms) != [] && Canonical(ms)[|Canonical(ms)| - 1] == RECORD_SEP
    decreases |ms|
  {
    if |ms| > 1 {
      CanonicalEnds(ms[1..]);
    }
  }

  /** Two or more messages have the text of a single one, which takes everything behind the
      first separator as its content. */
  lemma ManyLookLikeOne(ms: seq<Message>) returns (other: Message)
    requires |ms| >= 2
    ensures Canonical([other]) == Canonical(ms)
  {
    var rest := Canonical(ms[1..]);
    CanonicalEnds(ms[1..]);
    var inner := rest[..|rest| - 1];
    other := Message(ms[0].role, ms[0].content + [RECORD_SEP] + inner);
    assert rest == inner + [RECORD_SEP];
    CanonicalOfOne(other);
    hide Canonical;
    assert Encode(other) == Encode(ms[0]) + rest;
  }

  lemma CanonicalOfOne(m: Message)
    ensures Canonical([m]) == Encode(m)
  {
    assert [m][1..] == [];
    assert Encode(m) + [] == Encode(m);
  }

  /** A unit separator inside a message can be taken for the one between role and content. */
  lemma InnerSeparatorMoves(m: Message) returns (other: Message)
    requires UNIT_SEP in m.role || UNIT_SEP in m.content
    ensures other != m && Encode(other) == Encode(m)
  {
    if UNIT_SEP in m.role {
      var k :| 0 <= k < |m.role| && m.role[k] == UNIT_SEP;
      other := Message(m.role[..k], m.role[k + 1..] + [UNIT_SEP] + m.content);
      assert m.role == m.role[..k] + [UNIT_SEP] + m.role[k + 1..];
    } else {
      var k :| 0 <= k < |m.content| && m.content[k] == UNIT_SEP;
      other := Message(m.role + [UNIT_SEP] + m.content[..k], m.content[k + 1..]);
      assert m.content == m.content[..k] + [UNIT_SEP] + m.content[k + 1..];
      assert |other.role| != |m.role|;
    }
  }

  lemma SeparatorIn(m: Message, rest: Text)
    ensures |m.role| < |Encode(m) + rest| && (Encode(m) + rest)[|m.role|] == UNIT_SEP
  {
  }

  /** A single message without unit separators has exactly one of them in its text. */
  lemma OneSeparator(m: Message, i: nat)
    requires UNIT_SEP !in m.role && UNIT_SEP !in m.content && i < |Encode(m)| && Encode(m)[i] == UNIT_SEP
    ensures i == |m.role|
  {
    var t := Encode(m);
    forall k | 0 <= k < |t| && k != |m.role| ensures t[k] != UNIT_SEP {
      assert t[k] in m.role || t[k] in m.content || t[k] == RECORD_SEP;
    }
  }

  lemma SecondSeparator(ms: seq<Message>) returns (i: nat)
    requires |ms| >= 2
    ensures |ms[0].role| < i < |Canonical(ms)| && Canonical(ms)[i] == UNIT_SEP
  {
    var rest := Canonical(ms[1..][1..]);
    assert Canonical(ms[1..]) == Encode(ms[1]) + rest;
    assert Canonical(ms) == Encode(ms[0]) + Canonical(ms[1..]);
    SeparatorIn(ms[1], rest);
    LongerThanRole(ms[0]);
    i := |Encode(ms[0])| + |ms[1].role|;
  }

  /** Its text is that of no other history. */
  lemma LoneMessageIsUnique(m: Message, other: seq<Message>)
    requires UNIT_SEP !in m.role && UNIT_SEP !in m.content && Canonical(other) == Canonical([m])
    ensures other == [m]
  {
    CanonicalOfOne(m);
    CanonicalIsEmpty(other);
    CanonicalIsEmpty([m]);
    var first, rest := other[0], Canonical(other[1..]);
    assert Encode(m) == Encode(first) + rest;
    SeparatorIn(first, rest);
    OneSeparator(m, |first.role|);
    if |other| > 1 {
      var i := SecondSeparator(other);
      OneSeparator(m, i);
      assert false;
    }
    assert other == [first] && rest == [];
    hide Canonical;
    assert Encode(m) == Encode(first);
    SameEncoding(m, first);
  }

  lemma LongerThanRole(m: Message)
    ensures |Encode(m)| > |m.role|
  {
  }

  lemma SameEncoding(a: Message, b: Message)
    requires Encode(a) == Encode(b) && |a.role| == |b.role|
    ensures a == b
  {
    var t := Encode(a);
    assert a.role == t[..|a.role|] == b.role;
    assert a.content == t[|a.role| + 1..|t| - 1] == b.content;
  }

  /** Exactly which histories share their text with another one: every history of two or more
      messages, whatever their texts are, and a single message with a unit separator inside. */
  lemma CanonicalIsSharedExactly(ms: seq<Message>)
    ensures (exists other: seq<Message> :: other != ms && Canonical(other) == Canonical(ms)) <==>
            |ms| >= 2 || (|ms| == 1 && (UNIT_SEP in ms[0].role || UNIT_SEP in ms[0].content))
  {
    hide Canonical, Encode;
    if |ms| >= 2 {
      var one := ManyLookLikeOne(ms);
      assert [one] != ms;
    } else if |ms| == 1 {
      assert ms == [ms[0]];
      if UNIT_SEP in ms[0].role || UNIT_SEP in ms[0].content {
        var one := InnerSeparatorMoves(ms[0]);
        CanonicalOfOne(one);
        CanonicalOfOne(ms[0]);
        assert [one][0] != ms[0];
      } else {
        forall other: seq<Message> | Canonical(other) == Canonical(ms) ensures other == ms {
          LoneMessageIsUnique(ms[0], other);
        }
      }
    } else {
      forall other: seq<Message> | Canonical(other) == Canonical(ms) ensures other == ms {
        CanonicalIsEmpty(other);
        CanonicalIsEmpty(ms);
      }
    }
  }

  /** A client that sends the history back with the answer and one more message finds the
      conversation it came from; and, with an injective hash and no separators in the texts, it
      finds no other. */
  lemma ContinuationIsFound(hash: Text -> string, ms: seq<Message>, answer: Text, sent: seq<Message>)
    requires sent != []
    ensures sent[..|sent| - 1] == ms + [Message(ASSISTANT, answer)] && |sent| >= 2 ==>
              ParentKey(hash, sent) == ChildKey(hash, ms, answer)
    ensures |sent| < 2 ==> ParentKey(hash, sent) == ""
    ensures ChildKey(hash, ms, answer) == hash(Canonical(ms + [Message(Ascii("assistant"), answer)]))
    ensures (forall x, y :: hash(x) == hash(y) ==> x == y) && |sent| >= 2 &&
            AllPlain(sent[..|sent| - 1]) && AllPlain(ms + [Message(ASSISTANT, answer)]) &&
            ParentKey(hash, sent) == ChildKey(hash, ms, answer) ==>
              sent[..|sent| - 1] == ms + [Message(ASSISTANT, answer)]
  {
    hide Canonical;
    assert ASSISTANT == Ascii("assistant");
    var before, history := sent[..|sent| - 1], ms + [Message(ASSISTANT, answer)];
    if && (forall x, y :: hash(x) == hash(y) ==> x == y) && |sent| >= 2
       && AllPlain(before) && AllPlain(history) && ParentKey(hash, sent) == ChildKey(hash, ms, answer) {
      assert hash(Canonical(before)) == hash(Canonical(history));
      CanonicalIsInjective(before, history);
    }
  }
}
