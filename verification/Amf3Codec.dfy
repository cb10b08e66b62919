/** The AMF 3 decoder, which moves along a buffer and fills its three reference tables in place, and
    the encoder, which appends to a buffer. */
module Amf3Codec {
  import opened Bytes
  import opened Text
  import opened Amf3Model
  import opened Amf3RoundTrip
  import opened AmfFraming

  /** A result preceded by what was decoded before it. */
  ghost function After<T>(out: seq<T>, d: Dec<seq<T>>): Dec<seq<T>> {
    match d
    case Ok(more, w, t) => Ok(out + more, w, t)
    case Bad => Bad
  }

  lemma AfterNothing<T>(d: Dec<seq<T>>)
    ensures After([], d) == d
  {
    if d.Ok? {
      assert [] + d.value == d.value;
    }
  }

  lemma AfterOne<T>(out: seq<T>, x: T, d: Dec<seq<T>>)
    ensures After(out, After([x], d)) == After(out + [x], d)
  {
    if d.Ok? {
      Assoc3(out, [x], d.value);
    }
  }

  /** The number whose first `i` octets spelled `value`. */
  ghost function U29From(i: nat, value: nat, w: seq<byte>): Got<nat>
    requires i <= 3
    decreases 3 - i
  {
    var (b, w1) :- TakeByte(w);
    if i == 3 then Got(value * 0x100 + b, w1)
    else if b < 0x80 then Got(value * 0x80 + b, w1)
    else U29From(i + 1, value * 0x80 + (b - 0x80), w1)
  }

  lemma U29FromStart(w: seq<byte>)
    ensures U29From(0, 0, w) == ReadU29(w)
  {
    hide U29From;
    var g0 := TakeByte(w);
    U29Step(0, 0, w);
    if g0.Got? && g0.value >= 0x80 {
      var u: nat := g0.value - 0x80;
      U29Step(1, u, g0.rest);
      var g1 := TakeByte(g0.rest);
      if g1.Got? && g1.value >= 0x80 {
        var v: nat := u * 0x80 + (g1.value - 0x80);
        U29Step(2, v, g1.rest);
        var g2 := TakeByte(g1.rest);
        if g2.Got? && g2.value >= 0x80 {
          var x: nat := v * 0x80 + (g2.value - 0x80);
          U29Step(3, x, g2.rest);
        }
      }
    }
  }

  lemma U29Step(i: nat, value: nat, w: seq<byte>)
    requires i <= 3
    ensures U29From(i, value, w) ==
            match TakeByte(w)
            case Short => Short
            case Got(b, w1) =>
              if i == 3 then Got(value * 0x100 + b, w1)
              else if b < 0x80 then Got(value * 0x80 + b, w1)
              else U29From(i + 1, value * 0x80 + (b - 0x80), w1)
  {
  }

  class Decoder {
    const buf: seq<byte>
    var pos: nat
    var strings: seq<seq<byte>>
    var objects: seq<Value>
    var traits: seq<TraitDef>
    var depth: nat

    ghost predicate Valid()
      reads this
    {
      pos <= |buf|
    }

    /** What has not been read yet. */
    ghost function Ahead(): seq<byte>
      requires Valid()
      reads this
    {
      buf[pos..]
    }

    ghost function Known(): Tables
      reads this
    {
      Tables(strings, objects, traits)
    }

    /** The decoder has done what `d` says, and is as deep as before. */
    ghost predicate Did<T>(d: Dec<T>, r: Option<T>, was: nat)
      requires Valid()
      reads this
    {
      depth == was &&
      match d
      case Ok(v, w, t) => r == Some(v) && Ahead() == w && Known() == t
      case Bad => r == None
    }

    ghost predicate Took<T>(g: Got<T>, r: Option<T>)
      requires Valid()
      reads this
    {
      match g
      case Got(v, w) => r == Some(v) && Ahead() == w
      case Short => r == None
    }

    constructor (b: seq<byte>)
      ensures Valid() && buf == b && Ahead() == b && Known() == NO_TABLES && depth == 0
    {
      buf, pos := b, 0;
      strings, objects, traits, depth := [], [], [], 0;
    }

    /** Between packets the tables are emptied. */
    method ResetTables()
      requires Valid()
      modifies this`strings, this`objects, this`traits, this`depth
      ensures Valid() && Known() == NO_TABLES && depth == 0
    {
      strings, objects, traits, depth := [], [], [], 0;
    }

    method ReadU8() returns (r: Option<byte>)
      requires Valid()
      modifies this`pos
      ensures Valid() && Took(TakeByte(old(Ahead())), r)
    {
      if pos >= |buf| {
        return None;
      }
      r := Some(buf[pos]);
      pos := pos + 1;
    }

    method ReadBytes(n: nat) returns (r: Option<seq<byte>>)
      requires Valid()
      modifies this`pos
      ensures Valid() && Took(Take(old(Ahead()), n), r)
    {
      if pos + n > |buf| {
        return None;
      }
      assert buf[pos..pos + n] == buf[pos..][..n] && buf[pos + n..] == buf[pos..][n..];
      r := Some(buf[pos..pos + n]);
      pos := pos + n;
    }

    /** An unsigned number in `n` octets. */
    method ReadUnsigned(n: nat) returns (r: Option<nat>)
      requires Valid()
      modifies this`pos
      ensures Valid() && Took(TakeBE(old(Ahead()), n), r)
    {
      hide UnBE;
      var b := ReadBytes(n);
      return if b.Some? then Some(UnBE(b.value)) else None;
    }

    method ReadU29Loop() returns (r: Option<nat>)
      requires Valid()
      modifies this`pos
      ensures Valid() && Took(ReadU29(old(Ahead())), r)
    {
      hide U29From, ReadU29;
      var value: nat := 0;
      U29FromStart(Ahead());
      for i := 0 to 3
        invariant Valid() && ReadU29(old(Ahead())) == U29From(i, value, Ahead())
      {
        U29Step(i, value, Ahead());
        var b := ReadU8();
        if b.None? {
          return None;
        }
        if b.value < 0x80 {
          return Some(value * 0x80 + b.value);
        }
        value := value * 0x80 + (b.value - 0x80);
      }
      U29Step(3, value, Ahead());
      var last := ReadU8();
      return if last.Some? then Some(value * 0x100 + last.value) else None;
    }

    method ReadUtf8(len: nat) returns (r: Option<seq<byte>>)
      requires Valid()
      modifies this`pos
      ensures Valid() && Took(ReadText(old(Ahead()), len), r)
    {
      hide ValidUtf8;
      var s := ReadBytes(len);
      if s.None? || !ValidUtf8(s.value) {
        return None;
      }
      return s;
    }

    method ReadStringRef() returns (r: Option<seq<byte>>)
      requires Valid()
      modifies this`pos, this`strings
      ensures Valid() && Did(ReadString(old(Ahead()), old(Known())), r, old(depth))
    {
      hide ReadU29, ReadText;
      var h := ReadU29Loop();
      if h.None? {
        return None;
      }
      if h.value % 2 == 0 {
        return if h.value / 2 < |strings| then Some(strings[h.value / 2]) else None;
      }
      var s := ReadUtf8(h.value / 2);
      if s.None? {
        return None;
      }
      if s.value != [] {
        strings := strings + [s.value];
      }
      return s;
    }

    method Lookup(idx: nat) returns (r: Option<Value>)
      requires Valid()
      ensures Did(LookupObject(Known(), idx, Ahead()), r, depth)
    {
      return if idx < |objects| then Some(objects[idx]) else None;
    }

    method ReadObjectString() returns (r: Option<seq<byte>>)
      requires Valid()
      modifies this`pos, this`objects
      ensures Valid() && Did(ReadXmlText(old(Ahead()), old(Known())), r, old(depth))
    {
      hide ReadU29, ReadText;
      var h := ReadU29Loop();
      if h.None? {
        return None;
      }
      if h.value % 2 == 0 {
        var v := Lookup(h.value / 2);
        return if v.Some? && (v.value.Xml? || v.value.XmlDocument?) then Some(v.value.text) else None;
      }
      var s := ReadUtf8(h.value / 2);
      if s.None? {
        return None;
      }
      objects := objects + [XmlDocument(s.value)];
      return s;
    }

    method DecodeDate() returns (r: Option<Value>)
      requires Valid()
      modifies this`pos, this`objects
      ensures Valid() && Did(ReadDate(old(Ahead()), old(Known())), r, old(depth))
    {
      hide ReadU29, UnBE;
      Widths();
      var h := ReadU29Loop();
      if h.None? {
        return None;
      }
      if h.value % 2 == 0 {
        r := Lookup(h.value / 2);
        return;
      }
      var bits := ReadUnsigned(8);
      if bits.None? {
        return None;
      }
      objects := objects + [Date(bits.value)];
      return Some(Date(bits.value));
    }

    method DecodeByteArray() returns (r: Option<Value>)
      requires Valid()
      modifies this`pos, this`objects
      ensures Valid() && Did(ReadByteArray(old(Ahead()), old(Known())), r, old(depth))
    {
      hide ReadU29;
      var h := ReadU29Loop();
      if h.None? {
        return None;
      }
      if h.value % 2 == 0 {
        r := Lookup(h.value / 2);
        return;
      }
      var b := ReadBytes(h.value / 2);
      if b.None? {
        return None;
      }
      objects := objects + [ByteArray(b.value)];
      return Some(ByteArray(b.value));
    }

    method CollectU32s(count: nat) returns (r: Option<seq<u32>>)
      requires Valid()
      modifies this`pos
      ensures Valid() && Took(ReadU32s(count, old(Ahead())), r)
    {
      hide TakeBE;
      Widths();
      var items: seq<u32> := [];
      MoreNothing(ReadU32s(count, Ahead()));
      for i := 0 to count
        invariant Valid()
        invariant ReadU32s(count, old(Ahead())) == More(items, ReadU32s(count - i, Ahead()))
      {
        var v := ReadUnsigned(4);
        if v.None? {
          return None;
        }
        MoreOne(items, v.value, ReadU32s(count - i - 1, Ahead()));
        items := items + [v.value];
      }
      assert items + [] == items;
      return Some(items);
    }

    method CollectU64s(count: nat) returns (r: Option<seq<u64>>)
      requires Valid()
      modifies this`pos
      ensures Valid() && Took(ReadU64s(count, old(Ahead())), r)
    {
      hide TakeBE;
      Widths();
      var items: seq<u64> := [];
      MoreNothing(ReadU64s(count, Ahead()));
      for i := 0 to count
        invariant Valid()
        invariant ReadU64s(count, old(Ahead())) == More(items, ReadU64s(count - i, Ahead()))
      {
        var v := ReadUnsigned(8);
        if v.None? {
          return None;
        }
        MoreOne(items, v.value, ReadU64s(count - i - 1, Ahead()));
        items := items + [v.value];
      }
      assert items + [] == items;
      return Some(items);
    }

    method DecodeVectorInt() returns (r: Option<Value>)
      requires Valid()
      modifies this`pos, this`objects
      ensures Valid() && Did(ReadVectorInt(old(Ahead()), old(Known())), r, old(depth))
    {
      hide ReadU29, ReadU32s;
      var h := ReadU29Loop();
      if h.None? {
        return None;
      }
      if h.value % 2 == 0 {
        r := Lookup(h.value / 2);
        return;
      }
      var fixed := ReadU8();
      if fixed.None? {
        return None;
      }
      var items := CollectU32s(h.value / 2);
      if items.None? {
        return None;
      }
      var v := VectorInt(fixed.value != 0, AsI32s(items.value));
      objects := objects + [v];
      return Some(v);
    }

    method DecodeVectorUInt() returns (r: Option<Value>)
      requires Valid()
      modifies this`pos, this`objects
      ensures Valid() && Did(ReadVectorUInt(old(Ahead()), old(Known())), r, old(depth))
    {
      hide ReadU29, ReadU32s;
      var h := ReadU29Loop();
      if h.None? {
        return None;
      }
      if h.value % 2 == 0 {
        r := Lookup(h.value / 2);
        return;
      }
      var fixed := ReadU8();
      if fixed.None? {
        return None;
      }
      var items := CollectU32s(h.value / 2);
      if items.None? {
        return None;
      }
      var v := VectorUInt(fixed.value != 0, items.value);
      objects := objects + [v];
      return Some(v);
    }

    method DecodeVectorDouble() returns (r: Option<Value>)
      requires Valid()
      modifies this`pos, this`objects
      ensures Valid() && Did(ReadVectorDouble(old(Ahead()), old(Known())), r, old(depth))
    {
      hide ReadU29, ReadU64s;
      var h := ReadU29Loop();
      if h.None? {
        return None;
      }
      if h.value % 2 == 0 {
        r := Lookup(h.value / 2);
        return;
      }
      var fixed := ReadU8();
      if fixed.None? {
        return None;
      }
      var items := CollectU64s(h.value / 2);
      if items.None? {
        return None;
      }
      var v := VectorDouble(fixed.value != 0, items.value);
      objects := objects + [v];
      return Some(v);
    }

    method DecodeNames(count: nat) returns (r: Option<seq<seq<byte>>>)
      requires Valid()
      modifies this`pos, this`strings
      ensures Valid() && Did(ReadNames(count, old(Ahead()), old(Known())), r, old(depth))
    {
      hide ReadString;
      var names: seq<seq<byte>> := [];
      AfterNothing(ReadNames(count, Ahead(), Known()));
      for i := 0 to count
        invariant Valid()
        invariant ReadNames(count, old(Ahead()), old(Known())) == After(names, ReadNames(count - i, Ahead(), Known()))
      {
        var s := ReadStringRef();
        if s.None? {
          return None;
        }
        AfterOne(names, s.value, ReadNames(count - i - 1, Ahead(), Known()));
        names := names + [s.value];
      }
      assert names + [] == names;
      return Some(names);
    }

    method DecodeTraits(h: nat) returns (r: Option<TraitDef>)
      requires Valid()
      modifies this`pos, this`strings, this`traits
      ensures Valid() && Did(ReadTraits(h, old(Ahead()), old(Known())), r, old(depth))
    {
      hide ReadString, ReadNames;
      if h / 2 % 2 == 0 {
        return if h / 4 < |traits| then Some(traits[h / 4]) else None;
      }
      var name := ReadStringRef();
      if name.None? {
        return None;
      }
      var names := DecodeNames(h / 16);
      if names.None? {
        return None;
      }
      var def := TraitDef(name.value, h / 8 % 2 != 0, h / 4 % 2 != 0, names.value);
      traits := traits + [def];
      return Some(def);
    }

    /** One value, one level deeper. */
    method DecodeValue() returns (r: Option<Value>)
      requires Valid()
      modifies this
      ensures Valid() && Did(Decode(old(Ahead()), old(depth), old(Known())), r, old(depth))
      decreases |buf| - pos, 1
    {
      if depth >= MAX_DEPTH {
        return None;
      }
      depth := depth + 1;
      r := DecodeInner();
      depth := depth - 1;
    }

    method DecodeInner() returns (r: Option<Value>)
      requires Valid() && 0 < depth <= MAX_DEPTH
      modifies this
      ensures Valid() && Did(Decode(old(Ahead()), old(depth) - 1, old(Known())), r, old(depth))
      decreases |buf| - pos, 0
    {
      hide ReadU29, UnBE, ReadString, ReadXmlText, ReadDate, ReadArray, ReadObject, ReadByteArray, ReadVectorInt, ReadVectorUInt,
        ReadVectorDouble, ReadVectorObject, ReadDictionary;
      Widths();
      var marker := ReadU8();
      if marker.None? {
        return None;
      }
      match marker.value {
        case 0x00 => return Some(Undefined);
        case 0x01 => return Some(Null);
        case 0x02 => return Some(Boolean(false));
        case 0x03 => return Some(Boolean(true));
        case 0x04 =>
          var v := ReadU29Loop();
          return if v.Some? then Some(Integer(FromU29(v.value))) else None;
        case 0x05 =>
          var bits := ReadUnsigned(8);
          return if bits.Some? then Some(Double(bits.value)) else None;
        case 0x06 =>
          var s := ReadStringRef();
          return if s.Some? then Some(Str(s.value)) else None;
        case 0x07 =>
          var s := ReadObjectString();
          return if s.Some? then Some(XmlDocument(s.value)) else None;
        case 0x08 => r := DecodeDate();
        case 0x09 => r := DecodeArray();
        case 0x0A => r := DecodeObject();
        case 0x0B =>
          var s := ReadObjectString();
          return if s.Some? then Some(Xml(s.value)) else None;
        case 0x0C => r := DecodeByteArray();
        case 0x0D => r := DecodeVectorInt();
        case 0x0E => r := DecodeVectorUInt();
        case 0x0F => r := DecodeVectorDouble();
        case 0x10 => r := DecodeVectorObject();
        case 0x11 => r := DecodeDictionary();
        case _ => return None;
      }
    }

    /** Overwrites a reserved slot. */
    method Fill(slot: nat, v: Value)
      modifies this`objects
      ensures Known() == Filled(old(Known()), slot, v)
    {
      if slot < |objects| {
        objects := objects[slot := v];
      }
    }

    method DecodeItems(count: nat) returns (r: Option<seq<Value>>)
      requires Valid()
      modifies this
      ensures Valid() && Did(DecodeAll(count, old(Ahead()), old(depth), old(Known())), r, old(depth))
      decreases |buf| - pos, 2
    {
      hide Decode;
      var items: seq<Value> := [];
      AfterNothing(DecodeAll(count, Ahead(), depth, Known()));
      for i := 0 to count
        invariant Valid() && pos >= old(pos) && depth == old(depth)
        invariant DecodeAll(count, old(Ahead()), depth, old(Known())) == After(items, DecodeAll(count - i, Ahead(), depth, Known()))
      {
        var v := DecodeValue();
        if v.None? {
          return None;
        }
        AfterOne(items, v.value, DecodeAll(count - i - 1, Ahead(), depth, Known()));
        items := items + [v.value];
      }
      assert items + [] == items;
      return Some(items);
    }

    /** Named values up to the empty name. */
    method DecodeNamed() returns (r: Option<seq<Member>>)
      requires Valid()
      modifies this
      ensures Valid() && Did(DecodeMembers(old(Ahead()), old(depth), old(Known())), r, old(depth))
      decreases |buf| - pos, 2
    {
      hide Decode, ReadString;
      var members: seq<Member> := [];
      AfterNothing(DecodeMembers(Ahead(), depth, Known()));
      while true
        invariant Valid() && pos >= old(pos) && depth == old(depth)
        invariant DecodeMembers(old(Ahead()), depth, old(Known())) == After(members, DecodeMembers(Ahead(), depth, Known()))
        decreases |buf| - pos
      {
        var k := ReadStringRef();
        if k.None? {
          return None;
        }
        if k.value == [] {
          assert members + [] == members;
          return Some(members);
        }
        var v := DecodeValue();
        if v.None? {
          return None;
        }
        AfterOne(members, Member(k.value, v.value), DecodeMembers(Ahead(), depth, Known()));
        members := members + [Member(k.value, v.value)];
      }
    }

    method DecodePairs(count: nat) returns (r: Option<seq<Entry>>)
      requires Valid()
      modifies this
      ensures Valid() && Did(DecodeEntries(count, old(Ahead()), old(depth), old(Known())), r, old(depth))
      decreases |buf| - pos, 2
    {
      hide Decode;
      var entries: seq<Entry> := [];
      AfterNothing(DecodeEntries(count, Ahead(), depth, Known()));
      for i := 0 to count
        invariant Valid() && pos >= old(pos) && depth == old(depth)
        invariant DecodeEntries(count, old(Ahead()), depth, old(Known())) == After(entries, DecodeEntries(count - i, Ahead(), depth, Known()))
      {
        var k := DecodeValue();
        if k.None? {
          return None;
        }
        var v := DecodeValue();
        if v.None? {
          return None;
        }
        AfterOne(entries, Entry(k.value, v.value), DecodeEntries(count - i - 1, Ahead(), depth, Known()));
        entries := entries + [Entry(k.value, v.value)];
      }
      assert entries + [] == entries;
      return Some(entries);
    }

    method DecodeArray() returns (r: Option<Value>)
      requires Valid()
      modifies this
      ensures Valid() && Did(ReadArray(old(Ahead()), old(depth), old(Known())), r, old(depth))
      decreases |buf| - pos, 0
    {
      hide ReadU29, DecodeMembers, DecodeAll;
      var h := ReadU29Loop();
      if h.None? {
        return None;
      }
      if h.value % 2 == 0 {
        r := Lookup(h.value / 2);
        return;
      }
      var slot := |objects|;
      objects := objects + [Null];
      var assoc := DecodeNamed();
      if assoc.None? {
        return None;
      }
      var dense := DecodeItems(h.value / 2);
      if dense.None? {
        return None;
      }
      var v := Array(dense.value, assoc.value);
      Fill(slot, v);
      return Some(v);
    }

    method DecodeObject() returns (r: Option<Value>)
      requires Valid()
      modifies this
      ensures Valid() && Did(ReadObject(old(Ahead()), old(depth), old(Known())), r, old(depth))
      decreases |buf| - pos, 0
    {
      hide ReadU29, ReadTraits, DecodeMembers, DecodeAll;
      var h := ReadU29Loop();
      if h.None? {
        return None;
      }
      if h.value % 2 == 0 {
        r := Lookup(h.value / 2);
        return;
      }
      var def := DecodeTraits(h.value);
      if def.None? {
        return None;
      }
      var slot := |objects|;
      objects := objects + [Null];
      if def.value.externalizable {
        return None;
      }
      var values := DecodeItems(|def.value.names|);
      if values.None? {
        return None;
      }
      var members: seq<Member> := [];
      if def.value.dynamic {
        var named := DecodeNamed();
        if named.None? {
          return None;
        }
        members := named.value;
      }
      var v := Object(def.value.className, def.value.dynamic, Zip(def.value.names, values.value), members, None);
      Fill(slot, v);
      return Some(v);
    }

    method DecodeVectorObject() returns (r: Option<Value>)
      requires Valid()
      modifies this
      ensures Valid() && Did(ReadVectorObject(old(Ahead()), old(depth), old(Known())), r, old(depth))
      decreases |buf| - pos, 0
    {
      hide ReadU29, ReadString, DecodeAll;
      var h := ReadU29Loop();
      if h.None? {
        return None;
      }
      if h.value % 2 == 0 {
        r := Lookup(h.value / 2);
        return;
      }
      var fixed := ReadU8();
      if fixed.None? {
        return None;
      }
      var name := ReadStringRef();
      if name.None? {
        return None;
      }
      var slot := |objects|;
      objects := objects + [Null];
      var items := DecodeItems(h.value / 2);
      if items.None? {
        return None;
      }
      var v := VectorObject(fixed.value != 0, name.value, items.value);
      Fill(slot, v);
      return Some(v);
    }

    method DecodeDictionary() returns (r: Option<Value>)
      requires Valid()
      modifies this
      ensures Valid() && Did(ReadDictionary(old(Ahead()), old(depth), old(Known())), r, old(depth))
      decreases |buf| - pos, 0
    {
      hide ReadU29, DecodeEntries;
      var h := ReadU29Loop();
      if h.None? {
        return None;
      }
      if h.value % 2 == 0 {
        r := Lookup(h.value / 2);
        return;
      }
      var weak := ReadU8();
      if weak.None? {
        return None;
      }
      var slot := |objects|;
      objects := objects + [Null];
      var entries := DecodePairs(h.value / 2);
      if entries.None? {
        return None;
      }
      var v := Dictionary(weak.value != 0, entries.value);
      Fill(slot, v);
      return Some(v);
    }

    /** All values up to the end, sharing their tables. */
    method DecodeRest() returns (r: Option<seq<Value>>)
      requires Valid() && depth == 0
      modifies this
      ensures r == DecodeBuffer(old(Ahead()), old(Known()))
    {
      hide Decode;
      var out: seq<Value> := [];
      Prepended([], DecodeBuffer(Ahead(), Known()));
      while pos < |buf|
        invariant Valid() && depth == 0
        invariant DecodeBuffer(old(Ahead()), old(Known())) == Prepend(out, DecodeBuffer(Ahead(), Known()))
        decreases |buf| - pos
      {
        var v := DecodeValue();
        if v.None? {
          return None;
        }
        PrependMore(out, v.value, DecodeBuffer(Ahead(), Known()));
        out := out + [v.value];
      }
      Prepended(out, Some([]));
      return Some(out);
    }

    /** The same where each value may have a switch marker in front. */
    method DecodeSwitched() returns (r: Option<seq<Value>>)
      requires Valid() && depth == 0
      modifies this
      ensures r == DecodeDataMessage(old(Ahead()), old(Known()))
    {
      hide Decode;
      var out: seq<Value> := [];
      Prepended([], DecodeDataMessage(Ahead(), Known()));
      while pos < |buf|
        invariant Valid() && depth == 0
        invariant DecodeDataMessage(old(Ahead()), old(Known())) == Prepend(out, DecodeDataMessage(Ahead(), Known()))
        decreases |buf| - pos
      {
        ghost var w := Ahead();
        if buf[pos] == SWITCH {
          pos := pos + 1;
          if pos >= |buf| {
            return None;
          }
          assert Ahead() == w[1..];
        }
        var v := DecodeValue();
        if v.None? {
          return None;
        }
        PrependMore(out, v.value, DecodeDataMessage(Ahead(), Known()));
        out := out + [v.value];
      }
      Prepended(out, Some([]));
      return Some(out);
    }
  }

  ghost function More<T>(out: seq<T>, g: Got<seq<T>>): Got<seq<T>> {
    match g
    case Got(more, w) => Got(out + more, w)
    case Short => Short
  }

  lemma MoreNothing<T>(g: Got<seq<T>>)
    ensures More([], g) == g
  {
    if g.Got? {
      assert [] + g.value == g.value;
    }
  }

  lemma MoreOne<T>(out: seq<T>, x: T, g: Got<seq<T>>)
    ensures More(out, More([x], g)) == More(out + [x], g)
  {
    if g.Got? {
      Assoc3(out, [x], g.value);
    }
  }

  /** All values of a packet. A list of values written out in full comes back exactly when each has a
      representation and none nests too deep. */
  method DecodeAllValues(buf: seq<byte>) returns (r: Option<seq<Value>>)
    ensures r == DecodeBuffer(buf, NO_TABLES)
    ensures forall vs :: buf == EncodeAll(vs) ==> (r == Some(vs) <==> AllEncodable(vs, 64))
  {
    hide Decode, DecodeBuffer, EncodeAll, AllEncodable;
    var d := new Decoder(buf);
    r := d.DecodeRest();
    forall vs | buf == EncodeAll(vs)
      ensures r == Some(vs) <==> AllEncodable(vs, 64)
    {
      BufferRoundTrip(vs, NO_TABLES);
    }
  }

  // --------------------------------------------------------------------- encoding

  class Encoder {
    var out: seq<byte>

    constructor ()
      ensures out == []
    {
      out := [];
    }

    method Push(b: byte)
      modifies this
      ensures out == old(out) + [b]
    {
      out := out + [b];
    }

    method Extend(s: seq<byte>)
      modifies this
      ensures out == old(out) + s
    {
      out := out + s;
    }

    method PushU29(x: nat)
      modifies this
      ensures out == old(out) + WriteU29(x)
    {
      var v := x % U29_MOD;
      if v < 0x80 {
        Push(v);
      } else if v < 0x4000 {
        Push(v / 0x80 + 0x80);
        Push(v % 0x80);
      } else if v < 0x20_0000 {
        Push(v / 0x4000 + 0x80);
        Push(v / 0x80 % 0x80 + 0x80);
        Push(v % 0x80);
      } else {
        Push(v / 0x40_0000 + 0x80);
        Push(v / 0x8000 % 0x80 + 0x80);
        Push(v / 0x100 % 0x80 + 0x80);
        Push(v % 0x100);
      }
    }

    method PushText(s: seq<byte>)
      modifies this
      ensures out == old(out) + EncodeText(s)
    {
      hide WriteU29;
      PushU29(2 * |s| + 1);
      Extend(s);
      Assoc3(old(out), Literal(|s|), s);
    }

    /** A marker and the header that announces `n` things given in full. */
    method Open(marker: byte, n: nat)
      modifies this
      ensures out == old(out) + ([marker] + Literal(n))
    {
      hide WriteU29;
      Push(marker);
      PushU29(2 * n + 1);
      Assoc3(old(out), [marker], Literal(n));
    }

    method PushWords(n: nat, vs: seq<nat>)
      modifies this
      ensures out == old(out) + Words(n, vs)
    {
      hide BE;
      assert vs[0..] == vs;
      for i := 0 to |vs|
        invariant old(out) + Words(n, vs) == out + Words(n, vs[i..])
      {
        ghost var was := out;
        Extend(BE(n, vs[i]));
        assert vs[i..][1..] == vs[i + 1..];
        Assoc3(was, BE(n, vs[i]), Words(n, vs[i + 1..]));
      }
      assert vs[|vs|..] == [] && out + [] == out;
    }

    method EncodeValue(v: Value)
      modifies this
      ensures out == old(out) + Encode(v)
      decreases v, 1
    {
      hide BE, WriteU29, EncodeText, Words, DoubleOfInt, Literal;
      ghost var was := out;
      match v {
        case Undefined => Push(0x00);
        case Null => Push(0x01);
        case Boolean(b) => Push(if b then 0x03 else 0x02);
        case Integer(n) =>
          if FitsI29(n) {
            Push(0x04);
            PushU29(n % U29_MOD);
            Assoc3(was, [0x04], WriteU29(n % U29_MOD));
          } else {
            Push(0x05);
            Extend(BE(8, DoubleOfInt(n)));
            Assoc3(was, [0x05], BE(8, DoubleOfInt(n)));
          }
        case Double(bits) =>
          Push(0x05);
          Extend(BE(8, bits));
          Assoc3(was, [0x05], BE(8, bits));
        case Str(s) =>
          Push(0x06);
          PushText(s);
          Assoc3(was, [0x06], EncodeText(s));
        case XmlDocument(s) =>
          Push(0x07);
          PushText(s);
          Assoc3(was, [0x07], EncodeText(s));
        case Xml(s) =>
          Push(0x0B);
          PushText(s);
          Assoc3(was, [0x0B], EncodeText(s));
        case Date(bits) =>
          Open(0x08, 0);
          Extend(BE(8, bits));
          Joined(was, [0x08], Literal(0), BE(8, bits));
        case ByteArray(b) =>
          Open(0x0C, |b|);
          Extend(b);
          Joined(was, [0x0C], Literal(|b|), b);
        case Array(dense, assoc) => EncodeArray(dense, assoc);
        case Object(name, dynamic, sealed, members, external) => EncodeObject(v);
        case VectorInt(fixed, ns) => EncodeWords(0x0D, 4, fixed, AsU32s(ns));
        case VectorUInt(fixed, ns) => EncodeWords(0x0E, 4, fixed, ns);
        case VectorDouble(fixed, ds) => EncodeWords(0x0F, 8, fixed, ds);
        case VectorObject(fixed, name, items) =>
          Open(0x10, |items|);
          Push(Flag(fixed));
          PushText(name);
          PushAll(items);
          Assoc3(was + ([0x10] + Literal(|items|)) + [Flag(fixed)], EncodeText(name), EncodeAll(items));
          Assoc3(was + ([0x10] + Literal(|items|)), [Flag(fixed)], EncodeText(name) + EncodeAll(items));
          Joined(was, [0x10], Literal(|items|), [Flag(fixed)] + (EncodeText(name) + EncodeAll(items)));
        case Dictionary(weak, entries) =>
          Open(0x11, |entries|);
          Push(Flag(weak));
          PushEntries(entries);
          Assoc3(was + ([0x11] + Literal(|entries|)), [Flag(weak)], EncodeEntries(entries));
          Joined(was, [0x11], Literal(|entries|), [Flag(weak)] + EncodeEntries(entries));
      }
    }

    method EncodeWords(marker: byte, n: nat, fixed: bool, vs: seq<nat>)
      modifies this
      ensures out == old(out) + ([marker] + (Literal(|vs|) + ([Flag(fixed)] + Words(n, vs))))
    {
      hide Words, Literal;
      ghost var was := out;
      Open(marker, |vs|);
      Push(Flag(fixed));
      PushWords(n, vs);
      Assoc3(was + ([marker] + Literal(|vs|)), [Flag(fixed)], Words(n, vs));
      Joined(was, [marker], Literal(|vs|), [Flag(fixed)] + Words(n, vs));
    }

    method EncodeArray(dense: seq<Value>, assoc: seq<Member>)
      modifies this
      ensures out == old(out) + ([0x09] + (Literal(|dense|) + (EncodeMembers(assoc) + (Literal(0) + EncodeAll(dense)))))
      decreases Array(dense, assoc), 0
    {
      hide Encode, WriteU29, EncodeAll, EncodeMembers;
      ghost var was := out;
      Open(0x09, |dense|);
      PushMembers(assoc);
      PushU29(1);
      PushAll(dense);
      ghost var head := was + ([0x09] + Literal(|dense|));
      Assoc4(head, EncodeMembers(assoc), Literal(0), EncodeAll(dense));
      Joined(was, [0x09], Literal(|dense|), EncodeMembers(assoc) + (Literal(0) + EncodeAll(dense)));
    }

    method EncodeObject(v: Value)
      requires v.Object?
      modifies this
      ensures out == old(out) + Encode(v)
      decreases v, 0
    {
      hide WriteU29, EncodeText, EncodeNames, EncodeValues, EncodeMembers, Literal;
      ghost var was := out;
      Push(0x0A);
      match v.external {
        case Some(body) =>
          PushU29(7);
          PushText(v.className);
          Extend(body);
          Assoc5(was, [0x0A], WriteU29(7), EncodeText(v.className), body);
        case None =>
          var h := 3 + (if v.dynamic then 8 else 0) + 16 * |v.sealed|;
          PushU29(h);
          PushText(v.className);
          PushNames(v.sealed);
          PushValues(v.sealed);
          ghost var values, head := out, was + [0x0A] + WriteU29(h) + EncodeText(v.className) + EncodeNames(v.sealed);
          ghost var dyn: seq<byte> := if v.dynamic then EncodeMembers(v.members) + Literal(0) else [];
          if v.dynamic {
            PushMembers(v.members);
            PushU29(1);
            LiteralZero();
            Assoc3(values, EncodeMembers(v.members), Literal(0));
          } else {
            assert values + [] == values;
          }
          assert out == values + dyn;
          Assoc3(head, EncodeValues(v.sealed), dyn);
          Assoc6(was, [0x0A], WriteU29(h), EncodeText(v.className), EncodeNames(v.sealed), EncodeValues(v.sealed) + dyn);
      }
    }

    method PushAll(vs: seq<Value>)
      modifies this
      ensures out == old(out) + EncodeAll(vs)
      decreases vs, 0
    {
      hide Encode;
      assert vs[0..] == vs;
      for i := 0 to |vs|
        invariant old(out) + EncodeAll(vs) == out + EncodeAll(vs[i..])
      {
        ghost var was := out;
        EncodeValue(vs[i]);
        assert vs[i..][1..] == vs[i + 1..];
        Assoc3(was, Encode(vs[i]), EncodeAll(vs[i + 1..]));
      }
      assert vs[|vs|..] == [] && out + [] == out;
    }

    method PushMembers(ms: seq<Member>)
      modifies this
      ensures out == old(out) + EncodeMembers(ms)
      decreases ms, 0
    {
      hide Encode, EncodeText;
      assert ms[0..] == ms;
      for i := 0 to |ms|
        invariant old(out) + EncodeMembers(ms) == out + EncodeMembers(ms[i..])
      {
        ghost var was := out;
        var m := ms[i];
        PushText(m.name);
        assert m.value < m;
        EncodeValue(m.value);
        assert ms[i..][1..] == ms[i + 1..];
        Assoc4(was, EncodeText(m.name), Encode(m.value), EncodeMembers(ms[i + 1..]));
      }
      assert ms[|ms|..] == [] && out + [] == out;
    }

    method PushNames(ms: seq<Member>)
      modifies this
      ensures out == old(out) + EncodeNames(ms)
    {
      hide EncodeText;
      assert ms[0..] == ms;
      for i := 0 to |ms|
        invariant old(out) + EncodeNames(ms) == out + EncodeNames(ms[i..])
      {
        ghost var was := out;
        PushText(ms[i].name);
        assert ms[i..][1..] == ms[i + 1..];
        Assoc3(was, EncodeText(ms[i].name), EncodeNames(ms[i + 1..]));
      }
      assert ms[|ms|..] == [] && out + [] == out;
    }

    method PushValues(ms: seq<Member>)
      modifies this
      ensures out == old(out) + EncodeValues(ms)
      decreases ms, 0
    {
      hide Encode;
      assert ms[0..] == ms;
      for i := 0 to |ms|
        invariant old(out) + EncodeValues(ms) == out + EncodeValues(ms[i..])
      {
        ghost var was := out;
        var m := ms[i];
        assert m.value < m;
        EncodeValue(m.value);
        assert ms[i..][1..] == ms[i + 1..];
        Assoc3(was, Encode(m.value), EncodeValues(ms[i + 1..]));
      }
      assert ms[|ms|..] == [] && out + [] == out;
    }

    method PushEntries(es: seq<Entry>)
      modifies this
      ensures out == old(out) + EncodeEntries(es)
      decreases es, 0
    {
      hide Encode;
      assert es[0..] == es;
      for i := 0 to |es|
        invariant old(out) + EncodeEntries(es) == out + EncodeEntries(es[i..])
      {
        ghost var was := out;
        var e := es[i];
        assert e.key < e && e.value < e;
        EncodeValue(e.key);
        EncodeValue(e.value);
        assert es[i..][1..] == es[i + 1..];
        Assoc4(was, Encode(e.key), Encode(e.value), EncodeEntries(es[i + 1..]));
      }
      assert es[|es|..] == [] && out + [] == out;
    }
  }

  lemma LiteralZero()
    ensures Literal(0) == WriteU29(1)
  {
  }

  lemma Joined(was: seq<byte>, m: seq<byte>, h: seq<byte>, body: seq<byte>)
    ensures was + (m + h) + body == was + (m + (h + body))
  {
  }
}
