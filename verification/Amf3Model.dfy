/** AMF 3: values, the encoder, which writes every value out in full, and the decoder, which also
    resolves references into three tables it builds as it goes. */
module Amf3Model {
  import opened Bytes
  import opened Text

  type i32 = n: int | -0x8000_0000 <= n < 0x8000_0000

  datatype Member = Member(name: seq<byte>, value: Value)
  datatype Entry = Entry(key: Value, value: Value)

  /** Doubles are held as their 64-bit patterns and strings as UTF-8 octets. */
  datatype Value =
    | Undefined
    | Null
    | Boolean(flag: bool)
    | Integer(n: i32)
    | Double(bits: u64)
    | Str(text: seq<byte>)
    | XmlDocument(text: seq<byte>)
    | Xml(text: seq<byte>)
    | Date(bits: u64)
    | Array(dense: seq<Value>, assoc: seq<Member>)
    | Object(className: seq<byte>, dynamic: bool, sealed: seq<Member>, members: seq<Member>,
             external: Option<seq<byte>>)
    | ByteArray(octets: seq<byte>)
    | VectorInt(fixed: bool, ints: seq<i32>)
    | VectorUInt(fixed: bool, uints: seq<u32>)
    | VectorDouble(fixed: bool, doubles: seq<u64>)
    | VectorObject(fixed: bool, typeName: seq<byte>, items: seq<Value>)
    | Dictionary(weakKeys: bool, entries: seq<Entry>)

  /** Values nested deeper than this are refused. */
  const MAX_DEPTH := 64

  // ------------------------------------------------------- variable-length integers

  const U29_MOD := 0x2000_0000
  const I28_MOD := 0x1000_0000

  function WriteU29(x: nat): seq<byte> {
    var v := x % U29_MOD;
    if v < 0x80 then [v]
    else if v < 0x4000 then [v / 0x80 + 0x80, v % 0x80]
    else if v < 0x20_0000 then [v / 0x4000 + 0x80, v / 0x80 % 0x80 + 0x80, v % 0x80]
    else [v / 0x40_0000 + 0x80, v / 0x8000 % 0x80 + 0x80, v / 0x100 % 0x80 + 0x80, v % 0x100]
  }

  function ReadU29(w: seq<byte>): (r: Got<nat>)
    ensures r.Got? ==> r.value < U29_MOD && |r.rest| < |w|
  {
    var (b0, w1) :- TakeByte(w);
    if b0 < 0x80 then Got(b0, w1)
    else
      var (b1, w2) :- TakeByte(w1);
      if b1 < 0x80 then Got((b0 - 0x80) * 0x80 + b1, w2)
      else
        var (b2, w3) :- TakeByte(w2);
        if b2 < 0x80 then Got((b0 - 0x80) * 0x4000 + (b1 - 0x80) * 0x80 + b2, w3)
        else
          var (b3, w4) :- TakeByte(w3);
          Got((b0 - 0x80) * 0x40_0000 + (b1 - 0x80) * 0x8000 + (b2 - 0x80) * 0x100 + b3, w4)
  }

  lemma ReadU29Two(b0: byte, b1: byte, tail: seq<byte>)
    requires b0 >= 0x80 > b1
    ensures ReadU29([b0, b1] + tail) == Got((b0 - 0x80) * 0x80 + b1, tail)
  {
    assert [b0, b1] + tail == [b0] + ([b1] + tail);
  }

  lemma ReadU29Three(b0: byte, b1: byte, b2: byte, tail: seq<byte>)
    requires b0 >= 0x80 && b1 >= 0x80 > b2
    ensures ReadU29([b0, b1, b2] + tail) == Got((b0 - 0x80) * 0x4000 + (b1 - 0x80) * 0x80 + b2, tail)
  {
    assert [b0, b1, b2] + tail == [b0] + ([b1] + ([b2] + tail));
  }

  lemma ReadU29Four(b0: byte, b1: byte, b2: byte, b3: byte, tail: seq<byte>)
    requires b0 >= 0x80 && b1 >= 0x80 && b2 >= 0x80
    ensures ReadU29([b0, b1, b2, b3] + tail)
         == Got((b0 - 0x80) * 0x40_0000 + (b1 - 0x80) * 0x8000 + (b2 - 0x80) * 0x100 + b3, tail)
  {
    assert [b0, b1, b2, b3] + tail == [b0] + ([b1] + ([b2] + ([b3] + tail)));
  }

  lemma DigitsThree(v: nat)
    ensures v == v / 0x4000 * 0x4000 + v / 0x80 % 0x80 * 0x80 + v % 0x80
  {
    var q := v / 0x80;
    assert v / 0x4000 == q / 0x80;
  }

  lemma DigitsFour(v: nat)
    ensures v == v / 0x40_0000 * 0x40_0000 + v / 0x8000 % 0x80 * 0x8000 + v / 0x100 % 0x80 * 0x100 + v % 0x100
  {
    var q := v / 0x100;
    DigitsThree(q);
    assert v / 0x8000 == q / 0x80;
    assert v / 0x40_0000 == q / 0x4000;
  }

  lemma ReadU29One(b0: byte, tail: seq<byte>)
    requires b0 < 0x80
    ensures ReadU29([b0] + tail) == Got(b0, tail)
  {
  }

  lemma WriteU29Cases(v: nat)
    requires v < U29_MOD
    ensures WriteU29(v)
         == if v < 0x80 then [v]
            else if v < 0x4000 then [v / 0x80 + 0x80, v % 0x80]
            else if v < 0x20_0000 then [v / 0x4000 + 0x80, v / 0x80 % 0x80 + 0x80, v % 0x80]
            else [v / 0x40_0000 + 0x80, v / 0x8000 % 0x80 + 0x80, v / 0x100 % 0x80 + 0x80, v % 0x100]
  {
    assert v % U29_MOD == v;
  }

  /** Each of the four lengths is read back. */
  lemma U29RoundTrip(v: nat, tail: seq<byte>)
    requires v < 0x2000_0000
    ensures ReadU29(WriteU29(v) + tail) == Got(v, tail)
  {
    hide ReadU29, WriteU29;
    WriteU29Cases(v);
    if v < 0x80 {
      ReadU29One(v, tail);
    } else if v < 0x4000 {
      ReadU29Two(v / 0x80 + 0x80, v % 0x80, tail);
    } else if v < 0x20_0000 {
      DigitsThree(v);
      ReadU29Three(v / 0x4000 + 0x80, v / 0x80 % 0x80 + 0x80, v % 0x80, tail);
    } else {
      DigitsFour(v);
      ReadU29Four(v / 0x40_0000 + 0x80, v / 0x8000 % 0x80 + 0x80, v / 0x100 % 0x80 + 0x80, v % 0x100, tail);
    }
  }

  /** Sign extension of a 29-bit number. */
  function FromU29(v: nat): i32
    requires v < U29_MOD
  {
    if v >= I28_MOD then v - U29_MOD else v
  }

  predicate FitsI29(n: i32) {
    -I28_MOD <= n < I28_MOD
  }

  function FromU32(v: u32): i32 {
    if v >= 0x8000_0000 then v - U32_MOD else v
  }

  function ToU32(n: i32): u32 {
    n % U32_MOD
  }

  // ----------------------------------------------------------------- encoding

  /** The pattern of the double equal to a 32-bit integer. */
  function DoubleOfInt(n: int): u64
    requires -0x8000_0000 <= n < 0x1_0000_0000
  {
    if n == 0 then 0
    else
      var mag := if n < 0 then -n else n;
      var e := Exponent(mag, 0);
      (if n < 0 then 0x8000_0000_0000_0000 else 0) + Scaled(mag, e)
  }

  /** The position of the leading bit. */
  function Exponent(mag: nat, e: nat): (r: nat)
    requires mag > 0
    ensures r >= e
    decreases mag
  {
    if mag == 1 then e else Exponent(mag / 2, e + 1)
  }

  function Scaled(mag: nat, e: nat): (r: nat)
    ensures r < 0x8000_0000_0000_0000
  {
    ((1023 + e) * 0x10_0000_0000_0000 + mag * Pow2(if e <= 52 then 52 - e else 0) % 0x10_0000_0000_0000)
    % 0x8000_0000_0000_0000
  }

  function Pow2(n: nat): nat {
    if n == 0 then 1 else 2 * Pow2(n - 1)
  }

  /** A header that announces `n` things given in full. */
  function Literal(n: nat): seq<byte> {
    WriteU29(2 * n + 1)
  }

  function EncodeText(s: seq<byte>): seq<byte> {
    Literal(|s|) + s
  }

  function Flag(b: bool): byte {
    if b then 1 else 0
  }

  function Words(n: nat, vs: seq<nat>): seq<byte> {
    if vs == [] then [] else BE(n, vs[0]) + Words(n, vs[1..])
  }

  function AsU32s(ns: seq<i32>): (vs: seq<u32>) {
    seq(|ns|, i requires 0 <= i < |ns| => ToU32(ns[i]))
  }

  function Encode(v: Value): seq<byte>
    decreases v, 1
  {
    match v
    case Undefined => [0x00]
    case Null => [0x01]
    case Boolean(b) => [if b then 0x03 else 0x02]
    case Integer(n) =>
      if FitsI29(n) then [0x04] + WriteU29(n % U29_MOD) else [0x05] + BE(8, DoubleOfInt(n))
    case Double(bits) => [0x05] + BE(8, bits)
    case Str(s) => [0x06] + EncodeText(s)
    case XmlDocument(s) => [0x07] + EncodeText(s)
    case Date(bits) => [0x08] + (Literal(0) + BE(8, bits))
    case Array(dense, assoc) =>
      [0x09] + (Literal(|dense|) + (EncodeMembers(assoc) + (Literal(0) + EncodeAll(dense))))
    case Object(name, dynamic, sealed, members, external) =>
      (match external
       case Some(body) => [0x0A] + (WriteU29(7) + (EncodeText(name) + body))
       case None =>
         [0x0A] + (WriteU29(3 + (if dynamic then 8 else 0) + 16 * |sealed|)
           + (EncodeText(name) + (EncodeNames(sealed) + (EncodeValues(sealed)
           + (if dynamic then EncodeMembers(members) + Literal(0) else []))))))
    case Xml(s) => [0x0B] + EncodeText(s)
    case ByteArray(b) => [0x0C] + (Literal(|b|) + b)
    case VectorInt(fixed, ns) => [0x0D] + (Literal(|ns|) + ([Flag(fixed)] + Words(4, AsU32s(ns))))
    case VectorUInt(fixed, ns) => [0x0E] + (Literal(|ns|) + ([Flag(fixed)] + Words(4, ns)))
    case VectorDouble(fixed, ds) => [0x0F] + (Literal(|ds|) + ([Flag(fixed)] + Words(8, ds)))
    case VectorObject(fixed, name, items) =>
      [0x10] + (Literal(|items|) + ([Flag(fixed)] + (EncodeText(name) + EncodeAll(items))))
    case Dictionary(weak, entries) =>
      [0x11] + (Literal(|entries|) + ([Flag(weak)] + EncodeEntries(entries)))
  }

  function EncodeAll(vs: seq<Value>): seq<byte>
    decreases vs, 0
  {
    if vs == [] then [] else Encode(vs[0]) + EncodeAll(vs[1..])
  }

  /** Names and values alternating. */
  function EncodeMembers(ms: seq<Member>): seq<byte>
    decreases ms, 0
  {
    if ms == [] then [] else EncodeText(ms[0].name) + (Encode(ms[0].value) + EncodeMembers(ms[1..]))
  }

  function EncodeNames(ms: seq<Member>): seq<byte> {
    if ms == [] then [] else EncodeText(ms[0].name) + EncodeNames(ms[1..])
  }

  function EncodeValues(ms: seq<Member>): seq<byte>
    decreases ms, 0
  {
    if ms == [] then [] else Encode(ms[0].value) + EncodeValues(ms[1..])
  }

  function EncodeEntries(es: seq<Entry>): seq<byte>
    decreases es, 0
  {
    if es == [] then []
    else
      assert es[0].key < es[0] && es[0].value < es[0];
      Encode(es[0].key) + (Encode(es[0].value) + EncodeEntries(es[1..]))
  }

  // ----------------------------------------------------------------- decoding

  datatype TraitDef = TraitDef(className: seq<byte>, dynamic: bool, externalizable: bool, names: seq<seq<byte>>)

  datatype Tables = Tables(strings: seq<seq<byte>>, objects: seq<Value>, traits: seq<TraitDef>)

  const NO_TABLES := Tables([], [], [])

  datatype Dec<+T> = Ok(value: T, rest: seq<byte>, t: Tables) | Bad {
    predicate IsFailure() {
      Bad?
    }
    function PropagateFailure<U>(): Dec<U>
      requires Bad?
    {
      Bad
    }
    function Extract(): (T, seq<byte>, Tables)
      requires Ok?
    {
      (value, rest, t)
    }
  }

  /** A read that does not involve the tables. */
  function Plain<T>(g: Got<T>, t: Tables): Dec<T> {
    match g
    case Short => Bad
    case Got(v, w) => Ok(v, w, t)
  }

  function Pushed(t: Tables, v: Value): Tables {
    t.(objects := t.objects + [v])
  }

  /** Overwrites the slot reserved for a container with the finished container. */
  function Filled(t: Tables, slot: nat, v: Value): Tables {
    if slot < |t.objects| then t.(objects := t.objects[slot := v]) else t
  }

  function LookupObject(t: Tables, idx: nat, w: seq<byte>): Dec<Value> {
    if idx < |t.objects| then Ok(t.objects[idx], w, t) else Bad
  }

  function ReadText(w: seq<byte>, len: nat): (r: Got<seq<byte>>)
    ensures r.Got? ==> |r.value| == len && |r.rest| == |w| - len
  {
    var (s, w1) :- Take(w, len);
    if ValidUtf8(s) then Got(s, w1) else Short
  }

  function ReadString(w: seq<byte>, t: Tables): (r: Dec<seq<byte>>)
    ensures r.Ok? ==> |r.rest| < |w|
  {
    var (h, w1, _) :- Plain(ReadU29(w), t);
    if h % 2 == 0 then
      if h / 2 < |t.strings| then Ok(t.strings[h / 2], w1, t) else Bad
    else
      var (s, w2, _) :- Plain(ReadText(w1, h / 2), t);
      Ok(s, w2, if s == [] then t else t.(strings := t.strings + [s]))
  }

  /** The text of an XML value, which lives in the object table whatever its marker. */
  function ReadXmlText(w: seq<byte>, t: Tables): (r: Dec<seq<byte>>)
    ensures r.Ok? ==> |r.rest| < |w|
  {
    var (h, w1, _) :- Plain(ReadU29(w), t);
    if h % 2 == 0 then
      var (v, _, _) :- LookupObject(t, h / 2, w1);
      if v.Xml? || v.XmlDocument? then Ok(v.text, w1, t) else Bad
    else
      var (s, w2, _) :- Plain(ReadText(w1, h / 2), t);
      Ok(s, w2, Pushed(t, XmlDocument(s)))
  }

  function ReadDate(w: seq<byte>, t: Tables): (r: Dec<Value>)
    ensures r.Ok? ==> |r.rest| < |w|
  {
    Widths();
    var (h, w1, _) :- Plain(ReadU29(w), t);
    if h % 2 == 0 then LookupObject(t, h / 2, w1)
    else
      var (bits, w2, _) :- Plain(TakeBE(w1, 8), t);
      Ok(Date(bits), w2, Pushed(t, Date(bits)))
  }

  function ReadByteArray(w: seq<byte>, t: Tables): (r: Dec<Value>)
    ensures r.Ok? ==> |r.rest| < |w|
  {
    var (h, w1, _) :- Plain(ReadU29(w), t);
    if h % 2 == 0 then LookupObject(t, h / 2, w1)
    else
      var (b, w2, _) :- Plain(Take(w1, h / 2), t);
      Ok(ByteArray(b), w2, Pushed(t, ByteArray(b)))
  }

  function ReadU32s(count: nat, w: seq<byte>): (r: Got<seq<u32>>)
    ensures r.Got? ==> |r.value| == count && |r.rest| <= |w|
    decreases count
  {
    Widths();
    if count == 0 then Got([], w)
    else
      var (v, w1) :- TakeBE(w, 4);
      var (vs, w2) :- ReadU32s(count - 1, w1);
      Got([v] + vs, w2)
  }

  function ReadU64s(count: nat, w: seq<byte>): (r: Got<seq<u64>>)
    ensures r.Got? ==> |r.value| == count && |r.rest| <= |w|
    decreases count
  {
    Widths();
    if count == 0 then Got([], w)
    else
      var (v, w1) :- TakeBE(w, 8);
      var (vs, w2) :- ReadU64s(count - 1, w1);
      Got([v] + vs, w2)
  }

  function AsI32s(vs: seq<u32>): seq<i32> {
    seq(|vs|, i requires 0 <= i < |vs| => FromU32(vs[i]))
  }

  function ReadVectorInt(w: seq<byte>, t: Tables): (r: Dec<Value>)
    ensures r.Ok? ==> |r.rest| < |w|
  {
    var (h, w1, _) :- Plain(ReadU29(w), t);
    if h % 2 == 0 then LookupObject(t, h / 2, w1)
    else
      var (fixed, w2, _) :- Plain(TakeByte(w1), t);
      var (ns, w3, _) :- Plain(ReadU32s(h / 2, w2), t);
      var v := VectorInt(fixed != 0, AsI32s(ns));
      Ok(v, w3, Pushed(t, v))
  }

  function ReadVectorUInt(w: seq<byte>, t: Tables): (r: Dec<Value>)
    ensures r.Ok? ==> |r.rest| < |w|
  {
    var (h, w1, _) :- Plain(ReadU29(w), t);
    if h % 2 == 0 then LookupObject(t, h / 2, w1)
    else
      var (fixed, w2, _) :- Plain(TakeByte(w1), t);
      var (ns, w3, _) :- Plain(ReadU32s(h / 2, w2), t);
      var v := VectorUInt(fixed != 0, ns);
      Ok(v, w3, Pushed(t, v))
  }

  function ReadVectorDouble(w: seq<byte>, t: Tables): (r: Dec<Value>)
    ensures r.Ok? ==> |r.rest| < |w|
  {
    var (h, w1, _) :- Plain(ReadU29(w), t);
    if h % 2 == 0 then LookupObject(t, h / 2, w1)
    else
      var (fixed, w2, _) :- Plain(TakeByte(w1), t);
      var (ds, w3, _) :- Plain(ReadU64s(h / 2, w2), t);
      var v := VectorDouble(fixed != 0, ds);
      Ok(v, w3, Pushed(t, v))
  }

  function ReadNames(count: nat, w: seq<byte>, t: Tables): (r: Dec<seq<seq<byte>>>)
    ensures r.Ok? ==> |r.value| == count && |r.rest| <= |w|
    decreases count
  {
    if count == 0 then Ok([], w, t)
    else
      var (s, w1, t1) :- ReadString(w, t);
      var (ss, w2, t2) :- ReadNames(count - 1, w1, t1);
      Ok([s] + ss, w2, t2)
  }

  /** The traits of an object whose header is `h`: one met before, or one given in full. */
  function ReadTraits(h: nat, w: seq<byte>, t: Tables): (r: Dec<TraitDef>)
    ensures r.Ok? ==> |r.rest| <= |w|
  {
    if h / 2 % 2 == 0 then
      if h / 4 < |t.traits| then Ok(t.traits[h / 4], w, t) else Bad
    else
      var (name, w1, t1) :- ReadString(w, t);
      var (names, w2, t2) :- ReadNames(h / 16, w1, t1);
      var def := TraitDef(name, h / 8 % 2 != 0, h / 4 % 2 != 0, names);
      Ok(def, w2, t2.(traits := t2.traits + [def]))
  }

  /** One value; `depth` containers are open around it. */
  function Decode(w: seq<byte>, depth: nat, t: Tables): (r: Dec<Value>)
    ensures r.Ok? ==> |r.rest| < |w|
    decreases |w|, 0
  {
    Widths();
    if depth >= MAX_DEPTH || w == [] then Bad
    else
      var m, w1 := w[0], w[1..];
      if m == 0x00 then Ok(Undefined, w1, t)
      else if m == 0x01 then Ok(Null, w1, t)
      else if m == 0x02 then Ok(Boolean(false), w1, t)
      else if m == 0x03 then Ok(Boolean(true), w1, t)
      else if m == 0x04 then
        var (v, w2, _) :- Plain(ReadU29(w1), t);
        Ok(Integer(FromU29(v)), w2, t)
      else if m == 0x05 then
        var (bits, w2, _) :- Plain(TakeBE(w1, 8), t);
        Ok(Double(bits), w2, t)
      else if m == 0x06 then
        var (s, w2, t1) :- ReadString(w1, t);
        Ok(Str(s), w2, t1)
      else if m == 0x07 then
        var (s, w2, t1) :- ReadXmlText(w1, t);
        Ok(XmlDocument(s), w2, t1)
      else if m == 0x08 then ReadDate(w1, t)
      else if m == 0x09 then ReadArray(w1, depth + 1, t)
      else if m == 0x0A then ReadObject(w1, depth + 1, t)
      else if m == 0x0B then
        var (s, w2, t1) :- ReadXmlText(w1, t);
        Ok(Xml(s), w2, t1)
      else if m == 0x0C then ReadByteArray(w1, t)
      else if m == 0x0D then ReadVectorInt(w1, t)
      else if m == 0x0E then ReadVectorUInt(w1, t)
      else if m == 0x0F then ReadVectorDouble(w1, t)
      else if m == 0x10 then ReadVectorObject(w1, depth + 1, t)
      else if m == 0x11 then ReadDictionary(w1, depth + 1, t)
      else Bad
  }

  function ReadArray(w: seq<byte>, depth: nat, t: Tables): (r: Dec<Value>)
    ensures r.Ok? ==> |r.rest| < |w|
    decreases |w|, 0
  {
    var (h, w1, _) :- Plain(ReadU29(w), t);
    if h % 2 == 0 then LookupObject(t, h / 2, w1)
    else
      var (assoc, w2, t2) :- DecodeMembers(w1, depth, Pushed(t, Null));
      var (dense, w3, t3) :- DecodeAll(h / 2, w2, depth, t2);
      var v := Array(dense, assoc);
      Ok(v, w3, Filled(t3, |t.objects|, v))
  }

  function ReadObject(w: seq<byte>, depth: nat, t: Tables): (r: Dec<Value>)
    ensures r.Ok? ==> |r.rest| < |w|
    decreases |w|, 0
  {
    var (h, w1, _) :- Plain(ReadU29(w), t);
    if h % 2 == 0 then LookupObject(t, h / 2, w1)
    else
      var (def, w2, t2) :- ReadTraits(h, w1, t);
      if def.externalizable then Bad
      else
        var (values, w3, t3) :- DecodeAll(|def.names|, w2, depth, Pushed(t2, Null));
        var (members, w4, t4) :- if def.dynamic then DecodeMembers(w3, depth, t3) else Ok([], w3, t3);
        var v := Object(def.className, def.dynamic, Zip(def.names, values), members, None);
        Ok(v, w4, Filled(t4, |t2.objects|, v))
  }

  function Zip(names: seq<seq<byte>>, values: seq<Value>): seq<Member>
    requires |names| == |values|
  {
    seq(|names|, i requires 0 <= i < |names| => Member(names[i], values[i]))
  }

  function ReadVectorObject(w: seq<byte>, depth: nat, t: Tables): (r: Dec<Value>)
    ensures r.Ok? ==> |r.rest| < |w|
    decreases |w|, 0
  {
    var (h, w1, _) :- Plain(ReadU29(w), t);
    if h % 2 == 0 then LookupObject(t, h / 2, w1)
    else
      var (fixed, w2, _) :- Plain(TakeByte(w1), t);
      var (name, w3, t3) :- ReadString(w2, t);
      var (items, w4, t4) :- DecodeAll(h / 2, w3, depth, Pushed(t3, Null));
      var v := VectorObject(fixed != 0, name, items);
      Ok(v, w4, Filled(t4, |t3.objects|, v))
  }

  function ReadDictionary(w: seq<byte>, depth: nat, t: Tables): (r: Dec<Value>)
    ensures r.Ok? ==> |r.rest| < |w|
    decreases |w|, 0
  {
    var (h, w1, _) :- Plain(ReadU29(w), t);
    if h % 2 == 0 then LookupObject(t, h / 2, w1)
    else
      var (weak, w2, _) :- Plain(TakeByte(w1), t);
      var (entries, w3, t3) :- DecodeEntries(h / 2, w2, depth, Pushed(t, Null));
      var v := Dictionary(weak != 0, entries);
      Ok(v, w3, Filled(t3, |t.objects|, v))
  }

  function DecodeAll(count: nat, w: seq<byte>, depth: nat, t: Tables): (r: Dec<seq<Value>>)
    ensures r.Ok? ==> |r.value| == count && |r.rest| <= |w|
    decreases |w|, 1
  {
    if count == 0 then Ok([], w, t)
    else
      var (v, w1, t1) :- Decode(w, depth, t);
      var (vs, w2, t2) :- DecodeAll(count - 1, w1, depth, t1);
      Ok([v] + vs, w2, t2)
  }

  /** Named values up to the empty name. */
  function DecodeMembers(w: seq<byte>, depth: nat, t: Tables): (r: Dec<seq<Member>>)
    ensures r.Ok? ==> |r.rest| < |w|
    decreases |w|, 1
  {
    var (k, w1, t1) :- ReadString(w, t);
    if k == [] then Ok([], w1, t1)
    else
      var (v, w2, t2) :- Decode(w1, depth, t1);
      var (ms, w3, t3) :- DecodeMembers(w2, depth, t2);
      Ok([Member(k, v)] + ms, w3, t3)
  }

  function DecodeEntries(count: nat, w: seq<byte>, depth: nat, t: Tables): (r: Dec<seq<Entry>>)
    ensures r.Ok? ==> |r.value| == count && |r.rest| <= |w|
    decreases |w|, 1
  {
    if count == 0 then Ok([], w, t)
    else
      var (k, w1, t1) :- Decode(w, depth, t);
      var (v, w2, t2) :- Decode(w1, depth, t1);
      var (es, w3, t3) :- DecodeEntries(count - 1, w2, depth, t2);
      Ok([Entry(k, v)] + es, w3, t3)
  }
}
