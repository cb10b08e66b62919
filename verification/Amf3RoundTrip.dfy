/** Exactly which AMF 3 values survive being encoded and decoded again. */
module Amf3RoundTrip {
  import opened Bytes
  import opened Text
  import opened Amf3Model

  // ------------------------------------------------------------- the condition

  predicate TextOk(s: seq<byte>) {
    |s| < I28_MOD && ValidUtf8(s)
  }

  /** Values nested at most `room` deep whose parts all have a representation. */
  predicate Encodable(v: Value, room: nat)
    decreases v, 1
  {
    && room > 0
    && match v
       case Undefined => true
       case Null => true
       case Boolean(_) => true
       case Integer(n) => -0x1000_0000 <= n < 0x1000_0000
       case Double(_) => true
       case Str(s) => TextOk(s)
       case XmlDocument(s) => TextOk(s)
       case Xml(s) => TextOk(s)
       case Date(_) => true
       case Array(dense, assoc) => |dense| < I28_MOD && MembersOk(assoc, room - 1) && AllEncodable(dense, room - 1)
       case Object(name, dynamic, sealed, members, external) =>
         && external.None? && TextOk(name)
         && |sealed| < 0x200_0000 && NamesOk(sealed) && ValuesOk(sealed, room - 1)
         && (if dynamic then MembersOk(members, room - 1) else members == [])
       case ByteArray(b) => |b| < I28_MOD
       case VectorInt(_, ns) => |ns| < I28_MOD
       case VectorUInt(_, ns) => |ns| < I28_MOD
       case VectorDouble(_, ds) => |ds| < I28_MOD
       case VectorObject(_, name, items) => |items| < I28_MOD && TextOk(name) && AllEncodable(items, room - 1)
       case Dictionary(_, entries) => |entries| < I28_MOD && EntriesOk(entries, room - 1)
  }

  predicate AllEncodable(vs: seq<Value>, room: nat)
    decreases vs, 0
  {
    vs == [] || (Encodable(vs[0], room) && AllEncodable(vs[1..], room))
  }

  /** Names that end the list would not be read as names. */
  predicate MembersOk(ms: seq<Member>, room: nat)
    decreases ms, 0
  {
    ms == [] || (ms[0].name != [] && TextOk(ms[0].name) && Encodable(ms[0].value, room) && MembersOk(ms[1..], room))
  }

  predicate NamesOk(ms: seq<Member>) {
    ms == [] || (TextOk(ms[0].name) && NamesOk(ms[1..]))
  }

  predicate ValuesOk(ms: seq<Member>, room: nat)
    decreases ms, 0
  {
    ms == [] || (Encodable(ms[0].value, room) && ValuesOk(ms[1..], room))
  }

  predicate EntriesOk(es: seq<Entry>, room: nat)
    decreases es, 0
  {
    es == [] ||
    (assert es[0].key < es[0] && es[0].value < es[0];
     Encodable(es[0].key, room) && Encodable(es[0].value, room) && EntriesOk(es[1..], room))
  }

  function Room(depth: nat): nat {
    if depth < 64 then 64 - depth else 0
  }

  /** The outcome `r` is `x`, with `tail` left over, exactly when `ok`. */
  ghost predicate Gives<T(!new)>(r: Dec<T>, x: T, ok: bool, tail: seq<byte>) {
    && (r.Ok? && r.value == x <==> ok)
    && (ok ==> r.rest == tail)
  }

  // ------------------------------------------------------------------ primitives

  lemma U29Mod(x: nat, tail: seq<byte>)
    ensures ReadU29(WriteU29(x) + tail) == Got(x % U29_MOD, tail)
  {
    hide ReadU29;
    var v := x % U29_MOD;
    assert v % U29_MOD == v;
    assert WriteU29(x) == WriteU29(v);
    U29RoundTrip(v, tail);
  }

  lemma LiteralRead(n: nat, tail: seq<byte>)
    ensures var h := (2 * n + 1) % U29_MOD;
            && ReadU29(Literal(n) + tail) == Got(h, tail)
            && h % 2 == 1 && h / 2 == n % I28_MOD
  {
    hide ReadU29, WriteU29;
    U29Mod(2 * n + 1, tail);
  }

  lemma SameLength(n: nat)
    ensures n % I28_MOD == n <==> n < I28_MOD
  {
  }

  lemma TextBody(s: seq<byte>, tail: seq<byte>)
    ensures var r := ReadText(s + tail, |s| % I28_MOD);
            && (r.Got? && r.value == s <==> TextOk(s))
            && (TextOk(s) ==> r.rest == tail)
  {
    hide ValidUtf8;
    SameLength(|s|);
    if |s| < I28_MOD {
      TakePrefix(s, tail);
    }
  }

  lemma StringRead(s: seq<byte>, t: Tables, tail: seq<byte>)
    ensures Gives(ReadString(EncodeText(s) + tail, t), s, TextOk(s), tail)
  {
    hide ReadU29, Literal, ReadText, TextOk;
    Assoc3(Literal(|s|), s, tail);
    LiteralRead(|s|, s + tail);
    TextBody(s, tail);
  }

  lemma XmlTextRead(s: seq<byte>, t: Tables, tail: seq<byte>)
    ensures Gives(ReadXmlText(EncodeText(s) + tail, t), s, TextOk(s), tail)
  {
    hide ReadU29, Literal, ReadText, TextOk;
    Assoc3(Literal(|s|), s, tail);
    LiteralRead(|s|, s + tail);
    TextBody(s, tail);
  }

  /** The empty name that ends a list. */
  lemma EmptyNameRead(t: Tables, tail: seq<byte>)
    ensures ReadString(Literal(0) + tail, t) == Ok([], tail, t)
  {
    hide ReadU29, Literal;
    LiteralRead(0, tail);
    assert tail[..0] == [] && tail[0..] == tail;
  }

  lemma {:induction false} U32sRead(vs: seq<u32>, tail: seq<byte>)
    ensures ReadU32s(|vs|, Words(4, vs) + tail) == Got(vs, tail)
  {
    hide BE, UnBE;
    if vs == [] {
      assert Words(4, vs) + tail == tail;
    } else {
      Widths();
      Assoc3(BE(4, vs[0]), Words(4, vs[1..]), tail);
      TakeBEPrefix(4, vs[0], Words(4, vs[1..]) + tail);
      U32sRead(vs[1..], tail);
      assert [vs[0]] + vs[1..] == vs;
    }
  }

  lemma {:induction false} U64sRead(vs: seq<u64>, tail: seq<byte>)
    ensures ReadU64s(|vs|, Words(8, vs) + tail) == Got(vs, tail)
  {
    hide BE, UnBE;
    if vs == [] {
      assert Words(8, vs) + tail == tail;
    } else {
      Widths();
      Assoc3(BE(8, vs[0]), Words(8, vs[1..]), tail);
      TakeBEPrefix(8, vs[0], Words(8, vs[1..]) + tail);
      U64sRead(vs[1..], tail);
      assert [vs[0]] + vs[1..] == vs;
    }
  }

  lemma I32RoundTrip(ns: seq<i32>)
    ensures AsI32s(AsU32s(ns)) == ns
  {
  }

  // -------------------------------------------------------------- one marker each

  lemma DecodeMarker(m: byte, x: seq<byte>, depth: nat, t: Tables)
    requires depth < MAX_DEPTH
    ensures var r := Decode([m] + x, depth, t);
            && (m == 0x08 ==> r == ReadDate(x, t))
            && (m == 0x09 ==> r == ReadArray(x, depth + 1, t))
            && (m == 0x0A ==> r == ReadObject(x, depth + 1, t))
            && (m == 0x0C ==> r == ReadByteArray(x, t))
            && (m == 0x0D ==> r == ReadVectorInt(x, t))
            && (m == 0x0E ==> r == ReadVectorUInt(x, t))
            && (m == 0x0F ==> r == ReadVectorDouble(x, t))
            && (m == 0x10 ==> r == ReadVectorObject(x, depth + 1, t))
            && (m == 0x11 ==> r == ReadDictionary(x, depth + 1, t))
            && (m > 0x11 ==> r == Bad)
  {
    hide ReadDate, ReadArray, ReadObject, ReadByteArray, ReadVectorInt, ReadVectorUInt, ReadVectorDouble,
      ReadVectorObject, ReadDictionary, ReadString, ReadXmlText, ReadU29;
    assert ([m] + x)[1..] == x;
  }

  lemma DecodeMarkerPlain(m: byte, x: seq<byte>, depth: nat, t: Tables)
    requires depth < MAX_DEPTH
    ensures var r := Decode([m] + x, depth, t);
            && (m == 0x00 ==> r == Ok(Undefined, x, t))
            && (m == 0x01 ==> r == Ok(Null, x, t))
            && (m == 0x02 ==> r == Ok(Boolean(false), x, t))
            && (m == 0x03 ==> r == Ok(Boolean(true), x, t))
            && (m == 0x04 ==> match ReadU29(x)
                              case Got(v, w) => r == Ok(Integer(FromU29(v)), w, t)
                              case Short => r == Bad)
            && (m == 0x05 ==> match TakeBE(x, 8)
                              case Got(v, w) => r.Ok? && r.value.Double? && r.value.bits == v && r.rest == w && r.t == t
                              case Short => r == Bad)
  {
    hide ReadDate, ReadArray, ReadObject, ReadByteArray, ReadVectorInt, ReadVectorUInt, ReadVectorDouble,
      ReadVectorObject, ReadDictionary, ReadString, ReadXmlText, ReadU29, TakeBE;
    assert ([m] + x)[1..] == x;
  }

  lemma DecodeMarkerText(m: byte, x: seq<byte>, depth: nat, t: Tables)
    requires depth < MAX_DEPTH
    ensures var r := Decode([m] + x, depth, t);
            && (m == 0x06 ==> match ReadString(x, t)
                              case Ok(s, w, t1) => r == Ok(Str(s), w, t1)
                              case Bad => r == Bad)
            && (m == 0x07 ==> match ReadXmlText(x, t)
                              case Ok(s, w, t1) => r == Ok(XmlDocument(s), w, t1)
                              case Bad => r == Bad)
            && (m == 0x0B ==> match ReadXmlText(x, t)
                              case Ok(s, w, t1) => r == Ok(Xml(s), w, t1)
                              case Bad => r == Bad)
  {
    hide ReadDate, ReadArray, ReadObject, ReadByteArray, ReadVectorInt, ReadVectorUInt, ReadVectorDouble,
      ReadVectorObject, ReadDictionary, ReadString, ReadXmlText, ReadU29, TakeBE;
    assert ([m] + x)[1..] == x;
  }

  lemma IntegerExact(n: i32, depth: nat, t: Tables, tail: seq<byte>)
    requires depth < MAX_DEPTH
    ensures Gives(Decode(Encode(Integer(n)) + tail, depth, t), Integer(n), -0x1000_0000 <= n < 0x1000_0000, tail)
    ensures !(-0x1000_0000 <= n < 0x1000_0000) ==> Decode(Encode(Integer(n)) + tail, depth, t) == Ok(Double(DoubleOfInt(n)), tail, t)
  {
    hide Decode, ReadU29, WriteU29, BE, UnBE, DoubleOfInt;
    if FitsI29(n) {
      Assoc3([0x04], WriteU29(n % U29_MOD), tail);
      DecodeMarkerPlain(0x04, WriteU29(n % U29_MOD) + tail, depth, t);
      U29RoundTrip(n % U29_MOD, tail);
    } else {
      Assoc3([0x05], BE(8, DoubleOfInt(n)), tail);
      DecodeMarkerPlain(0x05, BE(8, DoubleOfInt(n)) + tail, depth, t);
      TakeDouble(DoubleOfInt(n), tail);
    }
  }

  lemma TakeDouble(bits: u64, tail: seq<byte>)
    ensures TakeBE(BE(8, bits) + tail, 8) == Got(bits, tail)
  {
    hide BE, UnBE, TakeBE;
    Widths();
    TakeBEPrefix(8, bits, tail);
  }

  lemma DoubleExact(bits: u64, depth: nat, t: Tables, tail: seq<byte>)
    requires depth < MAX_DEPTH
    ensures Gives(Decode(Encode(Double(bits)) + tail, depth, t), Double(bits), true, tail)
  {
    hide Decode, BE, UnBE, TakeBE;
    Widths();
    Assoc3([0x05], BE(8, bits), tail);
    DecodeMarkerPlain(0x05, BE(8, bits) + tail, depth, t);
    TakeBEPrefix(8, bits, tail);
  }

  lemma DateExact(bits: u64, depth: nat, t: Tables, tail: seq<byte>)
    requires depth < MAX_DEPTH
    ensures Gives(Decode(Encode(Date(bits)) + tail, depth, t), Date(bits), true, tail)
  {
    hide Decode, BE, UnBE, TakeBE, ReadU29, Literal;
    Widths();
    Assoc4([0x08], Literal(0), BE(8, bits), tail);
    Assoc3([0x08], Literal(0), BE(8, bits));
    DecodeMarker(0x08, Literal(0) + (BE(8, bits) + tail), depth, t);
    LiteralRead(0, BE(8, bits) + tail);
    TakeBEPrefix(8, bits, tail);
  }

  lemma TextExact(v: Value, depth: nat, t: Tables, tail: seq<byte>)
    requires depth < MAX_DEPTH && (v.Str? || v.Xml? || v.XmlDocument?)
    ensures Gives(Decode(Encode(v) + tail, depth, t), v, TextOk(v.text), tail)
  {
    hide Decode, EncodeText, ReadString, ReadXmlText, TextOk;
    var m: byte := if v.Str? then 0x06 else if v.XmlDocument? then 0x07 else 0x0B;
    Assoc3([m], EncodeText(v.text), tail);
    DecodeMarkerText(m, EncodeText(v.text) + tail, depth, t);
    StringRead(v.text, t, tail);
    XmlTextRead(v.text, t, tail);
  }

  lemma ByteArrayExact(b: seq<byte>, depth: nat, t: Tables, tail: seq<byte>)
    requires depth < MAX_DEPTH
    ensures Gives(Decode(Encode(ByteArray(b)) + tail, depth, t), ByteArray(b), |b| < I28_MOD, tail)
  {
    hide Decode, ReadU29, Literal;
    Assoc4([0x0C], Literal(|b|), b, tail);
    Assoc3([0x0C], Literal(|b|), b);
    DecodeMarker(0x0C, Literal(|b|) + (b + tail), depth, t);
    LiteralRead(|b|, b + tail);
    SameLength(|b|);
    if |b| < I28_MOD {
      TakePrefix(b, tail);
    }
  }

  lemma FlagRead(b: bool, tail: seq<byte>)
    ensures TakeByte([Flag(b)] + tail) == Got(Flag(b), tail) && (Flag(b) != 0 <==> b)
  {
  }

  /** Marker, count, flag and body. */
  lemma CountedSplit(m: byte, n: nat, flag: bool, body: seq<byte>, tail: seq<byte>)
    ensures [m] + (Literal(n) + ([Flag(flag)] + body)) + tail
         == [m] + (Literal(n) + ([Flag(flag)] + (body + tail)))
  {
    hide Literal;
    Assoc3([m], Literal(n) + ([Flag(flag)] + body), tail);
    Assoc3(Literal(n), [Flag(flag)] + body, tail);
    Assoc3([Flag(flag)], body, tail);
  }

  lemma VectorUIntExact(v: Value, depth: nat, t: Tables, tail: seq<byte>)
    requires depth < MAX_DEPTH && v.VectorUInt?
    ensures Gives(Decode(Encode(v) + tail, depth, t), v, |v.uints| < I28_MOD, tail)
  {
    hide Decode, ReadU29, Literal, Words, ReadU32s;
    var n, body := |v.uints|, Words(4, v.uints);
    CountedSplit(0x0E, n, v.fixed, body, tail);
    DecodeMarker(0x0E, Literal(n) + ([Flag(v.fixed)] + (body + tail)), depth, t);
    LiteralRead(n, [Flag(v.fixed)] + (body + tail));
    FlagRead(v.fixed, body + tail);
    SameLength(n);
    if n < I28_MOD {
      U32sRead(v.uints, tail);
    }
  }

  lemma VectorIntExact(v: Value, depth: nat, t: Tables, tail: seq<byte>)
    requires depth < MAX_DEPTH && v.VectorInt?
    ensures Gives(Decode(Encode(v) + tail, depth, t), v, |v.ints| < I28_MOD, tail)
  {
    hide Decode, ReadU29, Literal, Words, ReadU32s, ToU32, FromU32;
    var n, us := |v.ints|, AsU32s(v.ints);
    var body := Words(4, us);
    CountedSplit(0x0D, n, v.fixed, body, tail);
    DecodeMarker(0x0D, Literal(n) + ([Flag(v.fixed)] + (body + tail)), depth, t);
    LiteralRead(n, [Flag(v.fixed)] + (body + tail));
    FlagRead(v.fixed, body + tail);
    SameLength(n);
    if n < I28_MOD {
      U32sRead(us, tail);
      I32RoundTrip(v.ints);
    }
  }

  lemma VectorDoubleExact(v: Value, depth: nat, t: Tables, tail: seq<byte>)
    requires depth < MAX_DEPTH && v.VectorDouble?
    ensures Gives(Decode(Encode(v) + tail, depth, t), v, |v.doubles| < I28_MOD, tail)
  {
    hide Decode, ReadU29, Literal, Words, ReadU64s;
    var n, body := |v.doubles|, Words(8, v.doubles);
    CountedSplit(0x0F, n, v.fixed, body, tail);
    DecodeMarker(0x0F, Literal(n) + ([Flag(v.fixed)] + (body + tail)), depth, t);
    LiteralRead(n, [Flag(v.fixed)] + (body + tail));
    FlagRead(v.fixed, body + tail);
    SameLength(n);
    if n < I28_MOD {
      U64sRead(v.doubles, tail);
    }
  }

  // --------------------------------------------------------------- containers

  lemma {:induction false} AllExact(vs: seq<Value>, depth: nat, t: Tables, tail: seq<byte>)
    ensures Gives(DecodeAll(|vs|, EncodeAll(vs) + tail, depth, t), vs, AllEncodable(vs, Room(depth)), tail)
    decreases vs, 0
  {
    hide Decode, Encode, Encodable;
    if vs == [] {
      assert EncodeAll(vs) + tail == tail;
    } else {
      var others := EncodeAll(vs[1..]) + tail;
      Assoc3(Encode(vs[0]), EncodeAll(vs[1..]), tail);
      Exact(vs[0], depth, t, others);
      var r := Decode(Encode(vs[0]) + others, depth, t);
      if r.Ok? {
        var r2 := DecodeAll(|vs| - 1, r.rest, depth, r.t);
        if r2.Ok? {
          ConsIff(r.value, r2.value, vs);
        }
        if r.value == vs[0] {
          AllExact(vs[1..], depth, r.t, tail);
        }
      }
    }
  }

  lemma {:induction false} SealedExact(ms: seq<Member>, depth: nat, t: Tables, tail: seq<byte>)
    ensures Gives(DecodeAll(|ms|, EncodeValues(ms) + tail, depth, t), ValuesOf(ms), ValuesOk(ms, Room(depth)), tail)
    decreases ms, 0
  {
    hide Decode, Encode, Encodable;
    if ms == [] {
      assert EncodeValues(ms) + tail == tail;
    } else {
      var others := EncodeValues(ms[1..]) + tail;
      Assoc3(Encode(ms[0].value), EncodeValues(ms[1..]), tail);
      Exact(ms[0].value, depth, t, others);
      var r := Decode(Encode(ms[0].value) + others, depth, t);
      if r.Ok? {
        var r2 := DecodeAll(|ms| - 1, r.rest, depth, r.t);
        assert ValuesOf(ms)[1..] == ValuesOf(ms[1..]);
        if r2.Ok? {
          ConsIff(r.value, r2.value, ValuesOf(ms));
        }
        if r.value == ms[0].value {
          SealedExact(ms[1..], depth, r.t, tail);
        }
      }
    }
  }

  function ValuesOf(ms: seq<Member>): (vs: seq<Value>)
    ensures |vs| == |ms|
  {
    seq(|ms|, i requires 0 <= i < |ms| => ms[i].value)
  }

  function NamesOf(ms: seq<Member>): (ns: seq<seq<byte>>)
    ensures |ns| == |ms|
  {
    seq(|ms|, i requires 0 <= i < |ms| => ms[i].name)
  }

  lemma {:induction false} NamesExact(ms: seq<Member>, t: Tables, tail: seq<byte>)
    ensures Gives(ReadNames(|ms|, EncodeNames(ms) + tail, t), NamesOf(ms), NamesOk(ms), tail)
  {
    hide ReadString, EncodeText, TextOk;
    if ms == [] {
      assert EncodeNames(ms) + tail == tail;
    } else {
      var others := EncodeNames(ms[1..]) + tail;
      Assoc3(EncodeText(ms[0].name), EncodeNames(ms[1..]), tail);
      StringRead(ms[0].name, t, others);
      var r := ReadString(EncodeText(ms[0].name) + others, t);
      if r.Ok? {
        var r2 := ReadNames(|ms| - 1, r.rest, r.t);
        assert NamesOf(ms)[1..] == NamesOf(ms[1..]);
        if r2.Ok? {
          ConsIff(r.value, r2.value, NamesOf(ms));
        }
        if r.value == ms[0].name {
          NamesExact(ms[1..], r.t, tail);
        }
      }
    }
  }

  lemma {:induction false} MembersExact(ms: seq<Member>, depth: nat, t: Tables, tail: seq<byte>)
    ensures Gives(DecodeMembers(EncodeMembers(ms) + (Literal(0) + tail), depth, t), ms,
                  MembersOk(ms, Room(depth)), tail)
    decreases ms, 0
  {
    hide Decode, Encode, Encodable, ReadString, EncodeText, TextOk, Literal;
    if ms == [] {
      assert EncodeMembers(ms) + (Literal(0) + tail) == Literal(0) + tail;
      EmptyNameRead(t, tail);
    } else {
      var name, end := ms[0].name, Literal(0) + tail;
      var rest2 := EncodeMembers(ms[1..]) + end;
      var rest1 := Encode(ms[0].value) + rest2;
      Assoc4(EncodeText(name), Encode(ms[0].value), EncodeMembers(ms[1..]), end);
      Assoc3(EncodeText(name), Encode(ms[0].value), EncodeMembers(ms[1..]));
      StringRead(name, t, rest1);
      var r := ReadString(EncodeText(name) + rest1, t);
      if r.Ok? && r.value == name && name != [] {
        Exact(ms[0].value, depth, r.t, rest2);
        var r1 := Decode(r.rest, depth, r.t);
        if r1.Ok? && r1.value == ms[0].value {
          MembersExact(ms[1..], depth, r1.t, tail);
        }
      }
      MembersSplit(EncodeText(name) + rest1, depth, t, ms);
    }
  }

  /** The members read are `ms` when the first is the first of `ms` and the others are the others. */
  lemma MembersSplit(w: seq<byte>, depth: nat, t: Tables, ms: seq<Member>)
    requires ms != []
    ensures var r := DecodeMembers(w, depth, t);
            r.Ok? && r.value == ms <==>
              var r0 := ReadString(w, t);
              && r0.Ok? && r0.value == ms[0].name && r0.value != []
              && var r1 := Decode(r0.rest, depth, r0.t);
                 && r1.Ok? && r1.value == ms[0].value
                 && var r2 := DecodeMembers(r1.rest, depth, r1.t);
                    r2.Ok? && r2.value == ms[1..]
  {
    hide Decode, ReadString;
    var r := DecodeMembers(w, depth, t);
    if r.Ok? && r.value != [] {
      ConsIff(r.value[0], r.value[1..], ms);
      assert r.value == [r.value[0]] + r.value[1..];
      var r0 := ReadString(w, t);
      var r1 := Decode(r0.rest, depth, r0.t);
      assert r.value[1..] == DecodeMembers(r1.rest, depth, r1.t).value;
    }
  }

  lemma {:induction false} EntriesExact(es: seq<Entry>, depth: nat, t: Tables, tail: seq<byte>)
    ensures Gives(DecodeEntries(|es|, EncodeEntries(es) + tail, depth, t), es, EntriesOk(es, Room(depth)), tail)
    decreases es, 0
  {
    hide Decode, Encode, Encodable;
    if es == [] {
      assert EncodeEntries(es) + tail == tail;
    } else {
      assert es[0].key < es[0] && es[0].value < es[0];
      var rest2 := EncodeEntries(es[1..]) + tail;
      var rest1 := Encode(es[0].value) + rest2;
      Assoc4(Encode(es[0].key), Encode(es[0].value), EncodeEntries(es[1..]), tail);
      Assoc3(Encode(es[0].key), Encode(es[0].value), EncodeEntries(es[1..]));
      Exact(es[0].key, depth, t, rest1);
      var r := Decode(Encode(es[0].key) + rest1, depth, t);
      if r.Ok? && r.value == es[0].key {
        Exact(es[0].value, depth, r.t, rest2);
        var r1 := Decode(r.rest, depth, r.t);
        if r1.Ok? && r1.value == es[0].value {
          EntriesExact(es[1..], depth, r1.t, tail);
        }
      }
      EntriesSplit(Encode(es[0].key) + rest1, depth, t, es);
    }
  }

  lemma EntriesSplit(w: seq<byte>, depth: nat, t: Tables, es: seq<Entry>)
    requires es != []
    ensures var r := DecodeEntries(|es|, w, depth, t);
            r.Ok? && r.value == es <==>
              var r0 := Decode(w, depth, t);
              && r0.Ok? && r0.value == es[0].key
              && var r1 := Decode(r0.rest, depth, r0.t);
                 && r1.Ok? && r1.value == es[0].value
                 && var r2 := DecodeEntries(|es| - 1, r1.rest, depth, r1.t);
                    r2.Ok? && r2.value == es[1..]
  {
    hide Decode;
    var r := DecodeEntries(|es|, w, depth, t);
    if r.Ok? {
      ConsIff(r.value[0], r.value[1..], es);
      assert r.value == [r.value[0]] + r.value[1..];
      var r0 := Decode(w, depth, t);
      var r1 := Decode(r0.rest, depth, r0.t);
      assert r.value[1..] == DecodeEntries(|es| - 1, r1.rest, depth, r1.t).value;
    }
  }

  lemma ArrayExact(v: Value, depth: nat, t: Tables, tail: seq<byte>)
    requires depth < MAX_DEPTH && v.Array?
    ensures Gives(Decode(Encode(v) + tail, depth, t), v, Encodable(v, Room(depth)), tail)
    decreases v, 0
  {
    hide Decode, DecodeMembers, DecodeAll, EncodeMembers, EncodeAll, Literal, ReadU29, MembersOk, AllEncodable;
    var n := |v.dense|;
    var tail2 := EncodeAll(v.dense) + tail;
    var tail1 := EncodeMembers(v.assoc) + (Literal(0) + tail2);
    ArraySplit(n, EncodeMembers(v.assoc), EncodeAll(v.dense), tail);
    DecodeMarker(0x09, Literal(n) + tail1, depth, t);
    LiteralRead(n, tail1);
    SameLength(n);
    var t1 := Pushed(t, Null);
    MembersExact(v.assoc, depth + 1, t1, tail2);
    var r1 := DecodeMembers(tail1, depth + 1, t1);
    if r1.Ok? && r1.value == v.assoc && n < I28_MOD {
      AllExact(v.dense, depth + 1, r1.t, tail);
    }
  }

  lemma ArraySplit(n: nat, members: seq<byte>, values: seq<byte>, tail: seq<byte>)
    ensures [0x09] + (Literal(n) + (members + (Literal(0) + values))) + tail
         == [0x09] + (Literal(n) + (members + (Literal(0) + (values + tail))))
  {
    hide Literal;
    Assoc3([0x09], Literal(n) + (members + (Literal(0) + values)), tail);
    Assoc3(Literal(n), members + (Literal(0) + values), tail);
    Assoc3(members, Literal(0) + values, tail);
    Assoc3(Literal(0), values, tail);
  }

  lemma VectorObjectExact(v: Value, depth: nat, t: Tables, tail: seq<byte>)
    requires depth < MAX_DEPTH && v.VectorObject?
    ensures Gives(Decode(Encode(v) + tail, depth, t), v, Encodable(v, Room(depth)), tail)
    decreases v, 0
  {
    hide Decode, DecodeAll, EncodeAll, Literal, ReadU29, AllEncodable, EncodeText, ReadString, TextOk;
    var n, text, items := |v.items|, EncodeText(v.typeName), EncodeAll(v.items);
    CountedSplit(0x10, n, v.fixed, text + items, tail);
    Assoc3(text, items, tail);
    var tail1 := text + (items + tail);
    DecodeMarker(0x10, Literal(n) + ([Flag(v.fixed)] + tail1), depth, t);
    LiteralRead(n, [Flag(v.fixed)] + tail1);
    FlagRead(v.fixed, tail1);
    SameLength(n);
    StringRead(v.typeName, t, items + tail);
    var r1 := ReadString(tail1, t);
    if r1.Ok? && r1.value == v.typeName && n < I28_MOD {
      AllExact(v.items, depth + 1, Pushed(r1.t, Null), tail);
    }
  }

  lemma DictionaryExact(v: Value, depth: nat, t: Tables, tail: seq<byte>)
    requires depth < MAX_DEPTH && v.Dictionary?
    ensures Gives(Decode(Encode(v) + tail, depth, t), v, Encodable(v, Room(depth)), tail)
    decreases v, 0
  {
    hide Decode, DecodeEntries, EncodeEntries, Literal, ReadU29, EntriesOk;
    var n, body := |v.entries|, EncodeEntries(v.entries);
    CountedSplit(0x11, n, v.weakKeys, body, tail);
    DecodeMarker(0x11, Literal(n) + ([Flag(v.weakKeys)] + (body + tail)), depth, t);
    LiteralRead(n, [Flag(v.weakKeys)] + (body + tail));
    FlagRead(v.weakKeys, body + tail);
    SameLength(n);
    if n < I28_MOD {
      EntriesExact(v.entries, depth + 1, Pushed(t, Null), tail);
    }
  }

  // ------------------------------------------------------------------- objects

  /** The header of an object with inline traits: its flags and its number of sealed members. */
  lemma ObjectHeaderRead(dynamic: bool, n: nat, tail: seq<byte>)
    ensures var h := (3 + (if dynamic then 8 else 0) + 16 * n) % U29_MOD;
            && ReadU29(WriteU29(3 + (if dynamic then 8 else 0) + 16 * n) + tail) == Got(h, tail)
            && h % 2 == 1 && h / 2 % 2 == 1 && h / 4 % 2 == 0
            && (h / 8 % 2 != 0 <==> dynamic) && h / 16 == n % 0x200_0000
  {
    hide ReadU29, WriteU29;
    var d := if dynamic then 8 else 0;
    U29Mod(3 + d + 16 * n, tail);
    HeaderMod(3 + d, n);
    HeaderBits(d, n % 0x200_0000);
  }

  lemma HeaderMod(low: nat, n: nat)
    requires low < 16
    ensures (low + 16 * n) % U29_MOD == low + 16 * (n % 0x200_0000)
  {
    var q, k := n / 0x200_0000, n % 0x200_0000;
    assert low + 16 * n == (low + 16 * k) + q * U29_MOD;
  }

  lemma HeaderBits(d: nat, k: nat)
    requires d == 0 || d == 8
    ensures var h := 3 + d + 16 * k;
            h % 2 == 1 && h / 2 % 2 == 1 && h / 4 % 2 == 0 && h / 8 % 2 == d / 8 && h / 16 == k
  {
    var h := 3 + d + 16 * k;
    if d == 0 {
      assert h / 2 == 1 + 8 * k;
      assert h / 4 == 4 * k;
      assert h / 8 == 2 * k;
    } else {
      assert h / 2 == 5 + 8 * k;
      assert h / 4 == 2 + 4 * k;
      assert h / 8 == 1 + 2 * k;
    }
  }

  lemma ExternalRefused(v: Value, depth: nat, t: Tables, tail: seq<byte>)
    requires depth < MAX_DEPTH && v.Object? && v.external.Some?
    ensures Decode(Encode(v) + tail, depth, t) == Bad
  {
    hide Decode, ReadU29, WriteU29, EncodeText, ReadString, ReadNames, DecodeAll, DecodeMembers;
    var body := EncodeText(v.className) + v.external.value;
    Assoc3([0x0A], WriteU29(7) + body, tail);
    Assoc3(WriteU29(7), body, tail);
    DecodeMarker(0x0A, WriteU29(7) + (body + tail), depth, t);
    U29Mod(7, body + tail);
  }

  /** The octets behind the traits: sealed values, then dynamic members and their terminator. */
  function ObjectBody(v: Value): seq<byte>
    requires v.Object?
  {
    EncodeValues(v.sealed) + (if v.dynamic then EncodeMembers(v.members) + Literal(0) else [])
  }

  /** The body of an object is read back when the traits are right. */
  lemma ObjectBodyExact(v: Value, depth: nat, t: Tables, tail: seq<byte>)
    requires v.Object?
    ensures var r := DecodeAll(|v.sealed|, ObjectBody(v) + tail, depth, t);
            var r1 := if r.Bad? then Bad
                      else if v.dynamic then DecodeMembers(r.rest, depth, r.t) else Ok([], r.rest, r.t);
            var ok := ValuesOk(v.sealed, Room(depth))
                      && (if v.dynamic then MembersOk(v.members, Room(depth)) else v.members == []);
            && (r.Ok? && r.value == ValuesOf(v.sealed) && r1.Ok? && r1.value == v.members <==> ok)
            && (ok ==> r1.rest == tail)
    decreases v, 0
  {
    hide Decode, DecodeMembers, DecodeAll, EncodeMembers, EncodeValues, Literal, MembersOk, ValuesOk, ValuesOf;
    var values := EncodeValues(v.sealed);
    if v.dynamic {
      var end := EncodeMembers(v.members) + (Literal(0) + tail);
      Assoc4(values, EncodeMembers(v.members), Literal(0), tail);
      Assoc3(values, EncodeMembers(v.members), Literal(0));
      SealedExact(v.sealed, depth, t, end);
      var r := DecodeAll(|v.sealed|, values + end, depth, t);
      if r.Ok? && r.value == ValuesOf(v.sealed) {
        MembersExact(v.members, depth, r.t, tail);
      }
    } else {
      assert ObjectBody(v) == values;
      SealedExact(v.sealed, depth, t, tail);
    }
  }

  lemma ZipIff(names: seq<seq<byte>>, values: seq<Value>, ms: seq<Member>)
    requires |names| == |values|
    ensures Zip(names, values) == ms <==> names == NamesOf(ms) && values == ValuesOf(ms)
  {
    if Zip(names, values) == ms {
      assert forall i :: 0 <= i < |ms| ==> ms[i] == Member(names[i], values[i]);
    }
    if names == NamesOf(ms) && values == ValuesOf(ms) {
      assert forall i :: 0 <= i < |ms| ==> Zip(names, values)[i] == ms[i];
    }
  }

  lemma ObjectSplit(v: Value, tail: seq<byte>)
    requires v.Object? && v.external.None?
    ensures Encode(v) + tail
         == [0x0A] + (WriteU29(3 + (if v.dynamic then 8 else 0) + 16 * |v.sealed|)
            + (EncodeText(v.className) + (EncodeNames(v.sealed) + (ObjectBody(v) + tail))))
  {
    hide WriteU29, EncodeText, EncodeNames, ObjectBody;
    var h := WriteU29(3 + (if v.dynamic then 8 else 0) + 16 * |v.sealed|);
    var text, names, body := EncodeText(v.className), EncodeNames(v.sealed), ObjectBody(v);
    assert Encode(v) == [0x0A] + (h + (text + (names + body))) by {
      EncodeObject(v);
    }
    Assoc3([0x0A], h + (text + (names + body)), tail);
    Assoc3(h, text + (names + body), tail);
    Assoc3(text, names + body, tail);
    Assoc3(names, body, tail);
  }

  lemma EncodeObject(v: Value)
    requires v.Object? && v.external.None?
    ensures Encode(v) == [0x0A] + (WriteU29(3 + (if v.dynamic then 8 else 0) + 16 * |v.sealed|)
                         + (EncodeText(v.className) + (EncodeNames(v.sealed) + ObjectBody(v))))
  {
    hide WriteU29, EncodeText, EncodeNames, EncodeMembers, EncodeValues, Literal;
  }

  lemma PlainObjectExact(v: Value, depth: nat, t: Tables, tail: seq<byte>)
    requires depth < MAX_DEPTH && v.Object? && v.external.None?
    ensures Gives(Decode(Encode(v) + tail, depth, t), v, Encodable(v, Room(depth)), tail)
    decreases v, 1
  {
    hide Decode, DecodeMembers, DecodeAll, ReadU29, WriteU29, Encode, EncodeText, EncodeNames, ReadString, ReadNames,
      ObjectBody, MembersOk, ValuesOk, NamesOk, TextOk, ValuesOf, NamesOf, Zip;
    var n := |v.sealed|;
    var tail3 := ObjectBody(v) + tail;
    var tail2 := EncodeNames(v.sealed) + tail3;
    var tail1 := EncodeText(v.className) + tail2;
    ObjectSplit(v, tail);
    DecodeMarker(0x0A, WriteU29(3 + (if v.dynamic then 8 else 0) + 16 * n) + tail1, depth, t);
    ObjectHeaderRead(v.dynamic, n, tail1);
    StringRead(v.className, t, tail2);
    var r1 := ReadString(tail1, t);
    if r1.Ok? {
      var r2 := ReadNames(n % 0x200_0000, r1.rest, r1.t);
      if r1.value == v.className && n < 0x200_0000 {
        NamesExact(v.sealed, r1.t, tail3);
      }
      if r2.Ok? {
        var def := TraitDef(r1.value, v.dynamic, false, r2.value);
        var t3 := Pushed(r2.t.(traits := r2.t.traits + [def]), Null);
        var r3 := DecodeAll(|r2.value|, r2.rest, depth + 1, t3);
        if r3.Ok? {
          ZipIff(r2.value, r3.value, v.sealed);
        }
        if r1.value == v.className && r2.value == NamesOf(v.sealed) {
          ObjectBodyExact(v, depth + 1, t3, tail);
        }
      }
    }
  }

  lemma ScalarExact(v: Value, depth: nat, t: Tables, tail: seq<byte>)
    requires depth < MAX_DEPTH && (v.Undefined? || v.Null? || v.Boolean?)
    ensures Gives(Decode(Encode(v) + tail, depth, t), v, true, tail)
  {
    hide Decode;
    DecodeMarkerPlain(Encode(v)[0], tail, depth, t);
    assert Encode(v) == [Encode(v)[0]];
  }

  /** Objects, externalizable ones included, which are refused. */
  lemma ObjectExact(v: Value, depth: nat, t: Tables, tail: seq<byte>)
    requires depth < MAX_DEPTH && v.Object?
    ensures Gives(Decode(Encode(v) + tail, depth, t), v, Encodable(v, Room(depth)), tail)
    decreases v, 2
  {
    hide Decode, Encode;
    if v.external.None? {
      PlainObjectExact(v, depth, t, tail);
    } else {
      ExternalRefused(v, depth, t, tail);
    }
  }

  /** Whatever the tables hold and whatever follows, a value encoded and decoded comes back exactly
      when it is encodable within the depth left, and then exactly its octets are consumed. */
  lemma {:induction false} Exact(v: Value, depth: nat, t: Tables, tail: seq<byte>)
    ensures Gives(Decode(Encode(v) + tail, depth, t), v, Encodable(v, Room(depth)), tail)
    decreases v, 3
  {
    if depth >= MAX_DEPTH {
      assert Decode(Encode(v) + tail, depth, t) == Bad;
    } else {
      hide Decode, Encode;
      match v {
        case Undefined => ScalarExact(v, depth, t, tail);
        case Null => ScalarExact(v, depth, t, tail);
        case Boolean(_) => ScalarExact(v, depth, t, tail);
        case Integer(n) => IntegerExact(n, depth, t, tail);
        case Double(bits) => DoubleExact(bits, depth, t, tail);
        case Str(_) => TextExact(v, depth, t, tail);
        case XmlDocument(_) => TextExact(v, depth, t, tail);
        case Xml(_) => TextExact(v, depth, t, tail);
        case Date(bits) => DateExact(bits, depth, t, tail);
        case Array(_, _) => ArrayExact(v, depth, t, tail);
        case Object(_, _, _, _, _) => ObjectExact(v, depth, t, tail);
        case ByteArray(b) => ByteArrayExact(b, depth, t, tail);
        case VectorInt(_, _) => VectorIntExact(v, depth, t, tail);
        case VectorUInt(_, _) => VectorUIntExact(v, depth, t, tail);
        case VectorDouble(_, _) => VectorDoubleExact(v, depth, t, tail);
        case VectorObject(_, _, _) => VectorObjectExact(v, depth, t, tail);
        case Dictionary(_, _) => DictionaryExact(v, depth, t, tail);
      }
    }
  }

  // ---------------------------------------------------------------- whole buffers

  /** All values of a buffer, sharing one set of tables. */
  function DecodeBuffer(w: seq<byte>, t: Tables): Option<seq<Value>>
    decreases |w|
  {
    if w == [] then Some([])
    else
      match Decode(w, 0, t)
      case Bad => None
      case Ok(v, w1, t1) =>
        match DecodeBuffer(w1, t1)
        case None => None
        case Some(vs) => Some([v] + vs)
  }

  /** A list of values survives exactly when each of them does. */
  lemma {:induction false} BufferRoundTrip(vs: seq<Value>, t: Tables)
    ensures DecodeBuffer(EncodeAll(vs), t) == Some(vs) <==> AllEncodable(vs, 64)
  {
    hide Decode, Encode, Encodable;
    if vs != [] {
      Exact(vs[0], 0, t, EncodeAll(vs[1..]));
      EncodeNonEmpty(vs[0]);
      var r := Decode(EncodeAll(vs), 0, t);
      if r.Ok? {
        var others := DecodeBuffer(r.rest, r.t);
        if others.Some? {
          ConsIff(r.value, others.value, vs);
        }
        if r.value == vs[0] {
          BufferRoundTrip(vs[1..], r.t);
        }
      }
    }
  }

  lemma EncodeNonEmpty(v: Value)
    ensures Encode(v) != []
  {
  }

  /** Flags are written as 0 or 1. */
  lemma FlagsWritten(v: Value)
    requires v.VectorInt? || v.VectorUInt? || v.VectorDouble? || v.VectorObject? || v.Dictionary?
    ensures var flag := if v.Dictionary? then v.weakKeys else v.fixed;
            var n := match v
              case VectorInt(_, ns) => |ns|
              case VectorUInt(_, ns) => |ns|
              case VectorDouble(_, ds) => |ds|
              case VectorObject(_, _, items) => |items|
              case Dictionary(_, entries) => |entries|
              case _ => 0;
            |Encode(v)| > 1 + |Literal(n)| && Encode(v)[1 + |Literal(n)|] == if flag then 1 else 0
  {
    hide Literal, Words, EncodeText, EncodeAll, EncodeEntries;
  }
}
