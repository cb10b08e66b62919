/** The AMF 0 decoder, which moves along a buffer and fills its reference table in place, and the
    encoder, which appends to a buffer. */
module Amf0Codec {
  import opened Bytes
  import opened Text
  import opened Amf0Model
  import opened Amf0RoundTrip
  import Amf3 = Amf3Model
  import Amf3Codec

  /** A result preceded by what was decoded before it. */
  ghost function After<T>(out: seq<T>, d: Dec<seq<T>>): Dec<seq<T>> {
    match d
    case Ok(more, w, refs) => Ok(out + more, w, refs)
    case Bad => Bad
  }

  lemma AfterNothing<T>(d: Dec<seq<T>>)
    ensures After([], d) == d
  {
    if d.Ok? {
      assert [] + d.value == d.value;
    }
  }

  lemma AfterOne<T>(out: seq<T>, x: T, d: Dec<seq<T>>)
    ensures After(out, After([x], d)) == After(out + [x], d)
  {
    if d.Ok? {
      Assoc3(out, [x], d.value);
    }
  }

  class Decoder {
    const buf: seq<byte>
    const show: ShowDouble
    var pos: nat
    var refs: Refs

    ghost predicate Valid()
      reads this
    {
      pos <= |buf|
    }

    /** What has not been read yet. */
    ghost function Ahead(): seq<byte>
      requires Valid()
      reads this
    {
      buf[pos..]
    }

    constructor (b: seq<byte>, s: ShowDouble)
      ensures Valid() && buf == b && show == s && pos == 0 && refs == [] && Ahead() == b
    {
      buf, show, pos, refs := b, s, 0, [];
    }

    /** The decoder has done what `d` says. */
    ghost predicate Did<T>(d: Dec<T>, r: Option<T>)
      requires Valid()
      reads this
    {
      match d
      case Ok(v, w, rs) => r == Some(v) && Ahead() == w && refs == rs
      case Bad => r == None
    }

    ghost predicate Took<T>(g: Got<T>, r: Option<T>)
      requires Valid()
      reads this
    {
      match g
      case Got(v, w) => r == Some(v) && Ahead() == w
      case Short => r == None
    }

    method ReadU8() returns (r: Option<byte>)
      requires Valid()
      modifies this`pos
      ensures Valid() && Took(TakeByte(old(Ahead())), r)
    {
      if pos >= |buf| {
        return None;
      }
      r := Some(buf[pos]);
      pos := pos + 1;
    }

    /** An unsigned number in `n` octets. */
    method ReadUnsigned(n: nat) returns (r: Option<nat>)
      requires Valid()
      modifies this`pos
      ensures Valid() && Took(TakeBE(old(Ahead()), n), r)
    {
      hide UnBE;
      if pos + n > |buf| {
        return None;
      }
      assert buf[pos..pos + n] == buf[pos..][..n] && buf[pos + n..] == buf[pos..][n..];
      r := Some(UnBE(buf[pos..pos + n]));
      pos := pos + n;
    }

    method ReadUtf8(n: nat) returns (r: Option<seq<byte>>)
      requires Valid()
      modifies this`pos
      ensures Valid() && Took(ReadText(old(Ahead()), n), r)
    {
      hide UnBE, BE, ValidUtf8;
      var len := ReadUnsigned(n);
      if len.None? || pos + len.value > |buf| {
        return None;
      }
      var s := buf[pos..pos + len.value];
      assert s == buf[pos..][..len.value] && buf[pos + len.value..] == buf[pos..][len.value..];
      if !ValidUtf8(s) {
        return None;
      }
      pos := pos + len.value;
      return Some(s);
    }

    /** Keyed values up to the end marker. */
    method ReadObjectBody(depth: nat) returns (r: Option<seq<Prop>>)
      requires Valid()
      modifies this
      ensures Valid() && Did(DecodeProps(old(Ahead()), depth, old(refs), show), r)
      decreases |buf| - pos, 1
    {
      hide Decode, ReadText;
      var out: seq<Prop> := [];
      AfterNothing(DecodeProps(Ahead(), depth, refs, show));
      while true
        invariant Valid() && pos >= old(pos)
        invariant DecodeProps(old(Ahead()), depth, old(refs), show) == After(out, DecodeProps(Ahead(), depth, refs, show))
        decreases |buf| - pos
      {
        ghost var w := Ahead();
        var key := ReadUtf8(2);
        if key.None? {
          return None;
        }
        if key.value == [] {
          var end := ReadU8();
          if end == Some(0x09) {
            assert out + [] == out;
            return Some(out);
          }
          return None;
        }
        var value := DecodeAtDepth(depth);
        if value.None? {
          return None;
        }
        ghost var rest := DecodeProps(Ahead(), depth, refs, show);
        AfterOne(out, Prop(key.value, value.value), rest);
        out := out + [Prop(key.value, value.value)];
      }
    }

    /** A given number of values. */
    method ReadItems(count: nat, depth: nat) returns (r: Option<seq<Value>>)
      requires Valid()
      modifies this
      ensures Valid() && Did(DecodeAll(count, old(Ahead()), depth, old(refs), show), r)
      decreases |buf| - pos, 1
    {
      hide Decode;
      var out: seq<Value> := [];
      AfterNothing(DecodeAll(count, Ahead(), depth, refs, show));
      for i := 0 to count
        invariant Valid() && pos >= old(pos)
        invariant DecodeAll(count, old(Ahead()), depth, old(refs), show) == After(out, DecodeAll(count - i, Ahead(), depth, refs, show))
      {
        var value := DecodeAtDepth(depth);
        if value.None? {
          return None;
        }
        AfterOne(out, value.value, DecodeAll(count - i - 1, Ahead(), depth, refs, show));
        out := out + [value.value];
      }
      assert out + [] == out;
      return Some(out);
    }

    method DecodeAtDepth(depth: nat) returns (r: Option<Value>)
      requires Valid()
      modifies this
      ensures Valid() && Did(Decode(old(Ahead()), depth, old(refs), show), r)
      decreases |buf| - pos, 0
    {
      hide DecodeProps, DecodeAll, ReadText, ToAmf0, UnBE, Amf3.Decode;
      Widths();
      if depth >= MAX_DEPTH {
        return None;
      }
      var marker := ReadU8();
      if marker.None? {
        return None;
      }
      match marker.value {
        case 0x00 =>
          var bits := ReadUnsigned(8);
          return if bits.Some? then Some(Number(bits.value)) else None;
        case 0x01 =>
          var b := ReadU8();
          return if b.Some? then Some(Boolean(b.value != 0)) else None;
        case 0x02 =>
          var s := ReadUtf8(2);
          return if s.Some? then Some(Str(s.value)) else None;
        case 0x0C =>
          var s := ReadUtf8(4);
          return if s.Some? then Some(Str(s.value)) else None;
        case 0x05 => return Some(Null);
        case 0x06 => return Some(Undefined);
        case 0x03 => r := DecodeObject(depth + 1);
        case 0x08 => r := DecodeEcmaArray(depth + 1);
        case 0x0A => r := DecodeStrictArray(depth + 1);
        case 0x0B =>
          var bits := ReadUnsigned(8);
          if bits.None? { return None; }
          var tz := ReadUnsigned(2);
          return if tz.Some? then Some(Date(bits.value, Signed16(tz.value))) else None;
        case 0x11 => r := DecodeAmf3();
        case 0x0D => return Some(Unsupported);
        case 0x0F =>
          var s := ReadUtf8(4);
          return if s.Some? then Some(XmlDocument(s.value)) else None;
        case 0x10 => r := DecodeTypedObject(depth + 1);
        case 0x07 => r := DecodeReference();
        case _ => return None;
      }
    }

    method DecodeObject(depth: nat) returns (r: Option<Value>)
      requires Valid()
      modifies this
      ensures Valid() && Did(ReadObject(old(Ahead()), depth, old(refs), show), r)
      decreases |buf| - pos, 2
    {
      hide DecodeProps;
      var slot := |refs|;
      refs := refs + [Object([])];
      var body := ReadObjectBody(depth);
      if body.None? {
        return None;
      }
      var v := Object(body.value);
      Fill(slot, v);
      return Some(v);
    }

    /** Overwrites a reserved slot. */
    method Fill(slot: nat, v: Value)
      modifies this`refs
      ensures refs == Filled(old(refs), slot, v)
    {
      if slot < |refs| {
        refs := refs[slot := v];
      }
    }

    method DecodeEcmaArray(depth: nat) returns (r: Option<Value>)
      requires Valid()
      modifies this
      ensures Valid() && Did(ReadEcmaArray(old(Ahead()), depth, old(refs), show), r)
      decreases |buf| - pos, 2
    {
      hide DecodeProps, UnBE;
      var count := ReadUnsigned(4);
      if count.None? {
        return None;
      }
      var slot := |refs|;
      refs := refs + [EcmaArray([])];
      var body := ReadObjectBody(depth);
      if body.None? {
        return None;
      }
      var v := EcmaArray(body.value);
      Fill(slot, v);
      return Some(v);
    }

    method DecodeStrictArray(depth: nat) returns (r: Option<Value>)
      requires Valid()
      modifies this
      ensures Valid() && Did(ReadStrictArray(old(Ahead()), depth, old(refs), show), r)
      decreases |buf| - pos, 2
    {
      hide DecodeAll, UnBE;
      var count := ReadUnsigned(4);
      if count.None? {
        return None;
      }
      var slot := |refs|;
      refs := refs + [StrictArray([])];
      var items := ReadItems(count.value, depth);
      if items.None? {
        return None;
      }
      var v := StrictArray(items.value);
      Fill(slot, v);
      return Some(v);
    }

    method DecodeTypedObject(depth: nat) returns (r: Option<Value>)
      requires Valid()
      modifies this
      ensures Valid() && Did(ReadTypedObject(old(Ahead()), depth, old(refs), show), r)
      decreases |buf| - pos, 2
    {
      hide DecodeProps, ReadText;
      var name := ReadUtf8(2);
      if name.None? {
        return None;
      }
      var slot := |refs|;
      refs := refs + [TypedObject(name.value, [])];
      var body := ReadObjectBody(depth);
      if body.None? {
        return None;
      }
      var v := TypedObject(name.value, body.value);
      Fill(slot, v);
      return Some(v);
    }

    /** A value in AMF 3, with tables of its own; this table is left alone. */
    method DecodeAmf3() returns (r: Option<Value>)
      requires Valid()
      modifies this`pos
      ensures Valid() && Did(ReadAmf3(old(Ahead()), old(refs), show), r)
    {
      hide Amf3.Decode, ToAmf0;
      var d := new Amf3Codec.Decoder(buf[pos..]);
      var v := d.DecodeValue();
      if v.None? {
        return None;
      }
      pos := pos + d.pos;
      return Some(ToAmf0(v.value, show));
    }

    method DecodeReference() returns (r: Option<Value>)
      requires Valid()
      modifies this`pos
      ensures Valid() && Did(ReadReference(old(Ahead()), old(refs)), r)
    {
      hide UnBE;
      var idx := ReadUnsigned(2);
      if idx.None? || idx.value >= |refs| {
        return None;
      }
      return Some(refs[idx.value]);
    }

    /** All values up to the end, sharing one table. */
    method DecodeRest() returns (r: Option<seq<Value>>)
      requires Valid()
      modifies this
      ensures r == DecodeBuffer(old(Ahead()), old(refs), show)
    {
      hide Decode;
      var out: seq<Value> := [];
      Prepended([], DecodeBuffer(Ahead(), refs, show));
      while pos < |buf|
        invariant Valid()
        invariant DecodeBuffer(old(Ahead()), old(refs), show) == Prepend(out, DecodeBuffer(Ahead(), refs, show))
        decreases |buf| - pos
      {
        var v := DecodeAtDepth(0);
        if v.None? {
          return None;
        }
        PrependMore(out, v.value, DecodeBuffer(Ahead(), refs, show));
        out := out + [v.value];
      }
      Prepended(out, Some([]));
      return Some(out);
    }
  }

  /** All values of a packet. A list of values written out in full comes back exactly when each has a
      representation and none nests too deep. */
  method DecodeAllValues(buf: seq<byte>, show: ShowDouble) returns (r: Option<seq<Value>>)
    ensures r == DecodeBuffer(buf, [], show)
    ensures forall vs :: buf == EncodeAll(vs) ==> (r == Some(vs) <==> AllEncodable(vs, 64))
  {
    hide Decode, DecodeBuffer, EncodeAll, AllEncodable;
    var d := new Decoder(buf, show);
    r := d.DecodeRest();
    forall vs | buf == EncodeAll(vs)
      ensures r == Some(vs) <==> AllEncodable(vs, 64)
    {
      BufferRoundTrip(vs, [], show);
    }
  }

  // --------------------------------------------------------------------- encoding

  class Encoder {
    var out: seq<byte>

    constructor ()
      ensures out == []
    {
      out := [];
    }

    method Push(b: byte)
      modifies this
      ensures out == old(out) + [b]
    {
      out := out + [b];
    }

    method Extend(s: seq<byte>)
      modifies this
      ensures out == old(out) + s
    {
      out := out + s;
    }

    /** A text behind its length, of which only the low `n` octets are written. */
    method WriteText(n: nat, s: seq<byte>)
      modifies this
      ensures out == old(out) + (BE(n, |s|) + s)
    {
      Extend(BE(n, |s|));
      Extend(s);
      Assoc3(old(out), BE(n, |s|), s);
    }

    method EncodeValue(v: Value)
      modifies this
      ensures out == old(out) + Encode(v)
      decreases v, 1
    {
      hide BE;
      ghost var was := out;
      match v {
        case Number(bits) =>
          Push(0x00);
          Extend(BE(8, bits));
          Assoc3(was, [0x00], BE(8, bits));
        case Boolean(b) =>
          Push(0x01);
          Push(if b then 1 else 0);
          Assoc3(was, [0x01], [if b then 1 else 0]);
        case Str(s) =>
          if |s| <= 0xFFFF {
            Push(0x02);
            WriteText(2, s);
            Assoc3(was, [0x02], ShortText(s));
          } else {
            Push(0x0C);
            WriteText(4, s);
            Assoc3(was, [0x0C], LongText(s));
          }
        case Null => Push(0x05);
        case Undefined => Push(0x06);
        case Object(props) =>
          Push(0x03);
          WriteObjectBody(props);
          Assoc3(was, [0x03], EncodeProps(props) + OBJECT_END);
        case EcmaArray(props) =>
          Push(0x08);
          Extend(BE(4, |props|));
          WriteObjectBody(props);
          Assoc4(was, [0x08], BE(4, |props|), EncodeProps(props) + OBJECT_END);
        case StrictArray(items) =>
          Push(0x0A);
          Extend(BE(4, |items|));
          WriteItems(items);
          Assoc4(was, [0x0A], BE(4, |items|), EncodeAll(items));
        case Date(bits, tz) =>
          Push(0x0B);
          Extend(BE(8, bits));
          Extend(BE(2, tz % 0x1_0000));
          Assoc4(was, [0x0B], BE(8, bits), BE(2, tz % 0x1_0000));
        case Unsupported => Push(0x0D);
        case XmlDocument(s) =>
          Push(0x0F);
          WriteText(4, s);
          Assoc3(was, [0x0F], LongText(s));
        case TypedObject(name, props) =>
          Push(0x10);
          WriteText(2, name);
          WriteObjectBody(props);
          Assoc4(was, [0x10], ShortText(name), EncodeProps(props) + OBJECT_END);
      }
    }

    method WriteItems(items: seq<Value>)
      modifies this
      ensures out == old(out) + EncodeAll(items)
      decreases items, 0
    {
      hide Encode;
      assert items[0..] == items;
      for i := 0 to |items|
        invariant old(out) + EncodeAll(items) == out + EncodeAll(items[i..])
      {
        ghost var was := out;
        EncodeValue(items[i]);
        assert items[i..][1..] == items[i + 1..];
        Assoc3(was, Encode(items[i]), EncodeAll(items[i + 1..]));
      }
      assert items[|items|..] == [] && out + [] == out;
    }

    method WriteObjectBody(props: seq<Prop>)
      modifies this
      ensures out == old(out) + (EncodeProps(props) + OBJECT_END)
      decreases props, 0
    {
      hide Encode, BE;
      assert props[0..] == props;
      for i := 0 to |props|
        invariant old(out) + EncodeProps(props) == out + EncodeProps(props[i..])
      {
        ghost var was := out;
        var p := props[i];
        WriteText(2, p.key);
        assert p.value < p;
        EncodeValue(p.value);
        assert props[i..][1..] == props[i + 1..];
        Assoc4(was, ShortText(p.key), Encode(p.value), EncodeProps(props[i + 1..]));
      }
      assert props[|props|..] == [] && out + [] == out;
      Extend(OBJECT_END);
      Assoc3(old(out), EncodeProps(props), OBJECT_END);
    }
  }
}
