/** Exactly which AMF 0 values survive being encoded and decoded again. */
module Amf0RoundTrip {
  import opened Bytes
  import opened Text
  import opened Amf0Model
  import Amf3Model

  // ------------------------------------------------------------- the condition

  predicate KeyOk(k: seq<byte>) {
    0 < |k| <= 0xFFFF && ValidUtf8(k)
  }

  predicate TextOk(s: seq<byte>) {
    |s| < U32_MOD && ValidUtf8(s)
  }

  /** Values whose parts all have a representation. */
  predicate WellFormed(v: Value)
    decreases v, 1
  {
    match v
    case Str(s) => TextOk(s)
    case XmlDocument(s) => TextOk(s)
    case Object(ps) => PropsWellFormed(ps)
    case EcmaArray(ps) => PropsWellFormed(ps)
    case StrictArray(vs) => |vs| < U32_MOD && AllWellFormed(vs)
    case TypedObject(name, ps) => |name| <= 0xFFFF && ValidUtf8(name) && PropsWellFormed(ps)
    case _ => true
  }

  predicate PropsWellFormed(ps: seq<Prop>)
    decreases ps, 0
  {
    ps == [] || (KeyOk(ps[0].key) && WellFormed(ps[0].value) && PropsWellFormed(ps[1..]))
  }

  predicate AllWellFormed(vs: seq<Value>)
    decreases vs, 0
  {
    vs == [] || (WellFormed(vs[0]) && AllWellFormed(vs[1..]))
  }

  /** How deep values nest; a value without parts counts as one. */
  function Nesting(v: Value): (n: nat)
    ensures n > 0
    decreases v, 1
  {
    match v
    case Object(ps) => 1 + PropsNesting(ps)
    case EcmaArray(ps) => 1 + PropsNesting(ps)
    case StrictArray(vs) => 1 + AllNesting(vs)
    case TypedObject(_, ps) => 1 + PropsNesting(ps)
    case _ => 1
  }

  function Max(a: nat, b: nat): nat {
    if a <= b then b else a
  }

  function PropsNesting(ps: seq<Prop>): nat
    decreases ps, 0
  {
    if ps == [] then 0 else Max(Nesting(ps[0].value), PropsNesting(ps[1..]))
  }

  function AllNesting(vs: seq<Value>): nat
    decreases vs, 0
  {
    if vs == [] then 0 else Max(Nesting(vs[0]), AllNesting(vs[1..]))
  }

  predicate Encodable(v: Value, room: nat) {
    WellFormed(v) && Nesting(v) <= room
  }

  predicate PropsEncodable(ps: seq<Prop>, room: nat) {
    PropsWellFormed(ps) && PropsNesting(ps) <= room
  }

  predicate AllEncodable(vs: seq<Value>, room: nat) {
    AllWellFormed(vs) && AllNesting(vs) <= room
  }

  function Room(depth: nat): nat {
    if depth < 64 then 64 - depth else 0
  }

  ghost predicate Gives<T(!new)>(r: Dec<T>, x: T, ok: bool, tail: seq<byte>) {
    && (r.Ok? && r.value == x <==> ok)
    && (ok ==> r.rest == tail)
  }

  // ------------------------------------------------------------------ primitives

  /** A length field holds the length modulo its range. */
  lemma LengthRead(n: nat, len: nat, tail: seq<byte>)
    ensures TakeBE(BE(n, len) + tail, n) == Got(len % Pow256(n), tail)
  {
    hide BE, UnBE, TakeBE;
    BEMod(n, len);
    TakeBEPrefix(n, len % Pow256(n), tail);
  }

  lemma SameLength(len: nat, m: nat)
    requires m > 0
    ensures len % m == len <==> len < m
  {
    if len < m {
      ModUnique(len, m, 0, len);
    }
  }

  lemma TextRead(n: nat, s: seq<byte>, tail: seq<byte>)
    ensures var r := ReadText(BE(n, |s|) + s + tail, n);
            var ok := |s| < Pow256(n) && ValidUtf8(s);
            && (r.Got? && r.value == s <==> ok)
            && (ok ==> r.rest == tail)
  {
    hide BE, UnBE, TakeBE, ValidUtf8;
    Assoc3(BE(n, |s|), s, tail);
    LengthRead(n, |s|, s + tail);
    SameLength(|s|, Pow256(n));
    if |s| < Pow256(n) {
      TakePrefix(s, tail);
    }
  }

  lemma ShortTextRead(s: seq<byte>, tail: seq<byte>)
    ensures var r := ReadText(ShortText(s) + tail, 2);
            var ok := |s| <= 0xFFFF && ValidUtf8(s);
            && (r.Got? && r.value == s <==> ok)
            && (ok ==> r.rest == tail)
  {
    hide ReadText, BE, ValidUtf8;
    Widths();
    TextRead(2, s, tail);
  }

  lemma LongTextRead(s: seq<byte>, tail: seq<byte>)
    ensures var r := ReadText(LongText(s) + tail, 4);
            && (r.Got? && r.value == s <==> TextOk(s))
            && (TextOk(s) ==> r.rest == tail)
  {
    hide ReadText, BE, ValidUtf8;
    Widths();
    TextRead(4, s, tail);
  }

  lemma EmptyKeyRead(tail: seq<byte>)
    ensures ReadText(OBJECT_END + tail, 2) == Got([], [0x09] + tail)
    ensures TakeByte([0x09] + tail) == Got(0x09, tail)
  {
    hide ReadText;
    var none: seq<byte> := [];
    assert BE(2, 0) == [0, 0];
    ShortTextRead([], [0x09] + tail);
    assert ShortText([]) + ([0x09] + tail) == OBJECT_END + tail;
  }

  // -------------------------------------------------------------- one marker each

  lemma DecodeContainer(m: byte, x: seq<byte>, depth: nat, refs: Refs, show: ShowDouble)
    requires depth < MAX_DEPTH
    ensures var r := Decode([m] + x, depth, refs, show);
            && (m == 0x03 ==> r == ReadObject(x, depth + 1, refs, show))
            && (m == 0x08 ==> r == ReadEcmaArray(x, depth + 1, refs, show))
            && (m == 0x0A ==> r == ReadStrictArray(x, depth + 1, refs, show))
            && (m == 0x10 ==> r == ReadTypedObject(x, depth + 1, refs, show))
            && (m == 0x11 ==> r == ReadAmf3(x, refs, show))
            && (m == 0x07 ==> r == ReadReference(x, refs))
            && (m == 0x05 ==> r == Ok(Null, x, refs))
            && (m == 0x06 ==> r == Ok(Undefined, x, refs))
            && (m == 0x0D ==> r == Ok(Unsupported, x, refs))
            && (m in {0x04, 0x09, 0x0E} || m > 0x11 ==> r == Bad)
  {
    hide ReadObject, ReadEcmaArray, ReadStrictArray, ReadTypedObject, ReadAmf3, ReadReference, ReadText, TakeBE;
    assert ([m] + x)[1..] == x;
  }

  lemma DecodeText(m: byte, x: seq<byte>, depth: nat, refs: Refs, show: ShowDouble)
    requires depth < MAX_DEPTH
    ensures var r := Decode([m] + x, depth, refs, show);
            && (m == 0x02 ==> match ReadText(x, 2)
                              case Got(s, w) => r == Ok(Str(s), w, refs)
                              case Short => r == Bad)
            && (m == 0x0C ==> match ReadText(x, 4)
                              case Got(s, w) => r == Ok(Str(s), w, refs)
                              case Short => r == Bad)
            && (m == 0x0F ==> match ReadText(x, 4)
                              case Got(s, w) => r == Ok(XmlDocument(s), w, refs)
                              case Short => r == Bad)
  {
    hide ReadObject, ReadEcmaArray, ReadStrictArray, ReadTypedObject, ReadAmf3, ReadReference, ReadText, TakeBE;
    assert ([m] + x)[1..] == x;
  }

  lemma DecodeNumber(m: byte, x: seq<byte>, depth: nat, refs: Refs, show: ShowDouble)
    requires depth < MAX_DEPTH
    ensures var r := Decode([m] + x, depth, refs, show);
            && (m == 0x00 ==> match TakeBE(x, 8)
                              case Got(v, w) => r.Ok? && r.value.Number? && r.value.bits == v && r.rest == w && r.refs == refs
                              case Short => r == Bad)
            && (m == 0x01 ==> match TakeByte(x)
                              case Got(b, w) => r == Ok(Boolean(b != 0), w, refs)
                              case Short => r == Bad)
            && (m == 0x0B ==> match TakeBE(x, 8)
                              case Short => r == Bad
                              case Got(v, w) =>
                                match TakeBE(w, 2)
                                case Short => r == Bad
                                case Got(tz, w1) =>
                                  && tz < 0x1_0000
                                  && r.Ok? && r.value.Date? && r.value.bits == v && r.value.timezone == Signed16(tz)
                                  && r.rest == w1 && r.refs == refs)
  {
    hide ReadObject, ReadEcmaArray, ReadStrictArray, ReadTypedObject, ReadAmf3, ReadReference, ReadText, TakeBE;
    Widths();
    assert ([m] + x)[1..] == x;
  }

  lemma NumberExact(v: Value, depth: nat, refs: Refs, show: ShowDouble, tail: seq<byte>)
    requires depth < MAX_DEPTH && (v.Number? || v.Boolean?)
    ensures Gives(Decode(Encode(v) + tail, depth, refs, show), v, true, tail)
  {
    hide Decode, BE, UnBE, TakeBE;
    Widths();
    if v.Number? {
      Assoc3([0x00], BE(8, v.bits), tail);
      DecodeNumber(0x00, BE(8, v.bits) + tail, depth, refs, show);
      TakeBEPrefix(8, v.bits, tail);
    } else {
      var b: byte := if v.flag then 1 else 0;
      Assoc3([0x01], [b], tail);
      DecodeNumber(0x01, [b] + tail, depth, refs, show);
      TakeBytePrefix(b, tail);
    }
  }

  lemma DateExact(v: Value, depth: nat, refs: Refs, show: ShowDouble, tail: seq<byte>)
    requires depth < MAX_DEPTH && v.Date?
    ensures Gives(Decode(Encode(v) + tail, depth, refs, show), v, true, tail)
  {
    hide Decode, BE, UnBE, TakeBE;
    Widths();
    var a, b := BE(8, v.bits), BE(2, v.timezone % 0x1_0000);
    Assoc3([0x0B], a, b);
    Assoc4([0x0B], a, b, tail);
    DecodeNumber(0x0B, a + (b + tail), depth, refs, show);
    TakeBEPrefix(8, v.bits, b + tail);
    TakeBEPrefix(2, v.timezone % 0x1_0000, tail);
  }

  lemma TextExact(v: Value, depth: nat, refs: Refs, show: ShowDouble, tail: seq<byte>)
    requires depth < MAX_DEPTH && (v.Str? || v.XmlDocument?)
    ensures Gives(Decode(Encode(v) + tail, depth, refs, show), v, TextOk(v.text), tail)
  {
    hide Decode, ReadText, ShortText, LongText, ValidUtf8;
    if v.Str? && |v.text| <= 0xFFFF {
      Assoc3([0x02], ShortText(v.text), tail);
      DecodeText(0x02, ShortText(v.text) + tail, depth, refs, show);
      ShortTextRead(v.text, tail);
    } else {
      var m: byte := if v.Str? then 0x0C else 0x0F;
      Assoc3([m], LongText(v.text), tail);
      DecodeText(m, LongText(v.text) + tail, depth, refs, show);
      LongTextRead(v.text, tail);
    }
  }

  lemma BareExact(v: Value, depth: nat, refs: Refs, show: ShowDouble, tail: seq<byte>)
    requires depth < MAX_DEPTH && (v.Null? || v.Undefined? || v.Unsupported?)
    ensures Gives(Decode(Encode(v) + tail, depth, refs, show), v, true, tail)
  {
    hide Decode;
    DecodeContainer(Encode(v)[0], tail, depth, refs, show);
    assert Encode(v) == [Encode(v)[0]];
  }

  // --------------------------------------------------------------- containers

  lemma {:induction false} AllExact(vs: seq<Value>, depth: nat, refs: Refs, show: ShowDouble, tail: seq<byte>)
    ensures Gives(DecodeAll(|vs|, EncodeAll(vs) + tail, depth, refs, show), vs, AllEncodable(vs, Room(depth)), tail)
    decreases vs, 0
  {
    hide Decode, Encode, WellFormed, Nesting;
    if vs == [] {
      assert EncodeAll(vs) + tail == tail;
    } else {
      var others := EncodeAll(vs[1..]) + tail;
      Assoc3(Encode(vs[0]), EncodeAll(vs[1..]), tail);
      Exact(vs[0], depth, refs, show, others);
      var r := Decode(Encode(vs[0]) + others, depth, refs, show);
      if r.Ok? {
        var r2 := DecodeAll(|vs| - 1, r.rest, depth, r.refs, show);
        if r2.Ok? {
          ConsIff(r.value, r2.value, vs);
        }
        if r.value == vs[0] {
          AllExact(vs[1..], depth, r.refs, show, tail);
        }
      }
    }
  }

  lemma {:induction false} PropsExact(ps: seq<Prop>, depth: nat, refs: Refs, show: ShowDouble, tail: seq<byte>)
    ensures Gives(DecodeProps(EncodeProps(ps) + (OBJECT_END + tail), depth, refs, show), ps,
                  PropsEncodable(ps, Room(depth)), tail)
    decreases ps, 0
  {
    hide Decode, Encode, WellFormed, Nesting, ReadText, ShortText, ValidUtf8;
    if ps == [] {
      assert EncodeProps(ps) + (OBJECT_END + tail) == OBJECT_END + tail;
      EmptyKeyRead(tail);
    } else {
      var key, end := ps[0].key, OBJECT_END + tail;
      var rest2 := EncodeProps(ps[1..]) + end;
      var rest1 := Encode(ps[0].value) + rest2;
      Assoc4(ShortText(key), Encode(ps[0].value), EncodeProps(ps[1..]), end);
      Assoc3(ShortText(key), Encode(ps[0].value), EncodeProps(ps[1..]));
      ShortTextRead(key, rest1);
      var r := ReadText(ShortText(key) + rest1, 2);
      if r.Got? && r.value == key && key != [] {
        Exact(ps[0].value, depth, refs, show, rest2);
        var r1 := Decode(r.rest, depth, refs, show);
        if r1.Ok? && r1.value == ps[0].value {
          PropsExact(ps[1..], depth, r1.refs, show, tail);
        }
      }
      PropsSplit(ShortText(key) + rest1, depth, refs, show, ps);
    }
  }

  /** The properties read are `ps` when the first is the first of `ps` and the others are the others. */
  lemma PropsSplit(w: seq<byte>, depth: nat, refs: Refs, show: ShowDouble, ps: seq<Prop>)
    requires ps != []
    ensures var r := DecodeProps(w, depth, refs, show);
            r.Ok? && r.value == ps <==>
              var r0 := ReadText(w, 2);
              && r0.Got? && r0.value == ps[0].key && r0.value != []
              && var r1 := Decode(r0.rest, depth, refs, show);
                 && r1.Ok? && r1.value == ps[0].value
                 && var r2 := DecodeProps(r1.rest, depth, r1.refs, show);
                    r2.Ok? && r2.value == ps[1..]
  {
    hide Decode, ReadText;
    var r := DecodeProps(w, depth, refs, show);
    if r.Ok? && r.value != [] {
      ConsIff(r.value[0], r.value[1..], ps);
      assert r.value == [r.value[0]] + r.value[1..];
      var r1 := Decode(ReadText(w, 2).rest, depth, refs, show);
      assert r.value[1..] == DecodeProps(r1.rest, depth, r1.refs, show).value;
    }
  }

  lemma ObjectExact(v: Value, depth: nat, refs: Refs, show: ShowDouble, tail: seq<byte>)
    requires depth < MAX_DEPTH && v.Object?
    ensures Gives(Decode(Encode(v) + tail, depth, refs, show), v, Encodable(v, Room(depth)), tail)
    decreases v, 0
  {
    hide Decode, DecodeProps, EncodeProps, PropsWellFormed, PropsNesting;
    var body := EncodeProps(v.props);
    Assoc4([0x03], body, OBJECT_END, tail);
    Assoc3([0x03], body, OBJECT_END);
    DecodeContainer(0x03, body + (OBJECT_END + tail), depth, refs, show);
    PropsExact(v.props, depth + 1, refs + [Object([])], show, tail);
  }

  lemma EcmaArrayExact(v: Value, depth: nat, refs: Refs, show: ShowDouble, tail: seq<byte>)
    requires depth < MAX_DEPTH && v.EcmaArray?
    ensures Gives(Decode(Encode(v) + tail, depth, refs, show), v, Encodable(v, Room(depth)), tail)
    decreases v, 0
  {
    hide Decode, DecodeProps, EncodeProps, PropsWellFormed, PropsNesting, BE, TakeBE;
    var count, body := BE(4, |v.props|), EncodeProps(v.props);
    Assoc3([0x08], count + (body + OBJECT_END), tail);
    Assoc3(count, body + OBJECT_END, tail);
    Assoc3(body, OBJECT_END, tail);
    DecodeContainer(0x08, count + (body + (OBJECT_END + tail)), depth, refs, show);
    LengthRead(4, |v.props|, body + (OBJECT_END + tail));
    PropsExact(v.props, depth + 1, refs + [EcmaArray([])], show, tail);
  }

  lemma StrictArrayExact(v: Value, depth: nat, refs: Refs, show: ShowDouble, tail: seq<byte>)
    requires depth < MAX_DEPTH && v.StrictArray?
    ensures Gives(Decode(Encode(v) + tail, depth, refs, show), v, Encodable(v, Room(depth)), tail)
    decreases v, 0
  {
    hide Decode, DecodeAll, EncodeAll, AllWellFormed, AllNesting, BE, TakeBE;
    Widths();
    var n := |v.items|;
    var count, body := BE(4, n), EncodeAll(v.items);
    Assoc3([0x0A], count + body, tail);
    Assoc3(count, body, tail);
    DecodeContainer(0x0A, count + (body + tail), depth, refs, show);
    LengthRead(4, n, body + tail);
    SameLength(n, U32_MOD);
    if n < U32_MOD {
      AllExact(v.items, depth + 1, refs + [StrictArray([])], show, tail);
    }
  }

  lemma TypedObjectExact(v: Value, depth: nat, refs: Refs, show: ShowDouble, tail: seq<byte>)
    requires depth < MAX_DEPTH && v.TypedObject?
    ensures Gives(Decode(Encode(v) + tail, depth, refs, show), v, Encodable(v, Room(depth)), tail)
    decreases v, 0
  {
    hide Decode, DecodeProps, EncodeProps, PropsWellFormed, PropsNesting, ShortText, ReadText, ValidUtf8;
    var name, body := ShortText(v.className), EncodeProps(v.props);
    Assoc3([0x10], name + (body + OBJECT_END), tail);
    Assoc3(name, body + OBJECT_END, tail);
    Assoc3(body, OBJECT_END, tail);
    DecodeContainer(0x10, name + (body + (OBJECT_END + tail)), depth, refs, show);
    ShortTextRead(v.className, body + (OBJECT_END + tail));
    PropsExact(v.props, depth + 1, refs + [TypedObject(v.className, [])], show, tail);
  }

  /** Whatever the table holds and whatever follows, a value encoded and decoded comes back exactly
      when it is well formed and nests no deeper than the depth left, and then exactly its octets
      are consumed. */
  lemma {:induction false} Exact(v: Value, depth: nat, refs: Refs, show: ShowDouble, tail: seq<byte>)
    ensures Gives(Decode(Encode(v) + tail, depth, refs, show), v, Encodable(v, Room(depth)), tail)
    decreases v, 2
  {
    if depth >= MAX_DEPTH {
      assert Decode(Encode(v) + tail, depth, refs, show) == Bad;
    } else {
      hide Decode, Encode, ValidUtf8;
      match v {
        case Number(_) => NumberExact(v, depth, refs, show, tail);
        case Boolean(_) => NumberExact(v, depth, refs, show, tail);
        case Str(_) => TextExact(v, depth, refs, show, tail);
        case XmlDocument(_) => TextExact(v, depth, refs, show, tail);
        case Object(_) => ObjectExact(v, depth, refs, show, tail);
        case EcmaArray(_) => EcmaArrayExact(v, depth, refs, show, tail);
        case StrictArray(_) => StrictArrayExact(v, depth, refs, show, tail);
        case TypedObject(_, _) => TypedObjectExact(v, depth, refs, show, tail);
        case Date(_, _) => DateExact(v, depth, refs, show, tail);
        case Null => BareExact(v, depth, refs, show, tail);
        case Undefined => BareExact(v, depth, refs, show, tail);
        case Unsupported => BareExact(v, depth, refs, show, tail);
      }
    }
  }

  /** A packet survives exactly when each of its values does. */
  lemma {:induction false} BufferRoundTrip(vs: seq<Value>, refs: Refs, show: ShowDouble)
    ensures DecodeBuffer(EncodeAll(vs), refs, show) == Some(vs) <==> AllEncodable(vs, 64)
  {
    hide Decode, Encode, WellFormed, Nesting;
    if vs != [] {
      Exact(vs[0], 0, refs, show, EncodeAll(vs[1..]));
      EncodeNonEmpty(vs[0]);
      var r := Decode(EncodeAll(vs), 0, refs, show);
      if r.Ok? {
        var others := DecodeBuffer(r.rest, r.refs, show);
        if others.Some? {
          ConsIff(r.value, others.value, vs);
        }
        if r.value == vs[0] {
          BufferRoundTrip(vs[1..], r.refs, show);
        }
      }
    }
  }

  lemma EncodeNonEmpty(v: Value)
    ensures Encode(v) != []
  {
  }

  /** What the decoder does not look at is written properly too: the count of a keyed array, a flag. */
  lemma WrittenProperly(v: Value)
    ensures v.EcmaArray? && |v.props| < U32_MOD ==> Encode(v)[..5] == [0x08] + UI32(|v.props|)
    ensures v.Boolean? ==> Encode(v) == [0x01, if v.flag then 1 else 0]
  {
    hide BE, UI32;
    if v.EcmaArray? && |v.props| < U32_MOD {
      UI32Is(|v.props|);
      var rest := EncodeProps(v.props) + OBJECT_END;
      Assoc3([0x08], UI32(|v.props|), rest);
      SplitAt([0x08] + UI32(|v.props|), rest);
    }
  }
}
