/** AMF 0: values, the encoder, which writes every value out in full, and the decoder, which
    resolves references into a table of the containers met so far and hands values introduced by
    the switch marker to the AMF 3 decoder. */
module Amf0Model {
  import opened Bytes
  import opened Text
  import Amf3 = Amf3Model

  type i16 = n: int | -0x8000 <= n < 0x8000

  datatype Prop = Prop(key: seq<byte>, value: Value)

  /** Doubles are held as their 64-bit patterns and strings as UTF-8 octets. */
  datatype Value =
    | Number(bits: u64)
    | Boolean(flag: bool)
    | Str(text: seq<byte>)
    | Object(props: seq<Prop>)
    | Null
    | Undefined
    | EcmaArray(props: seq<Prop>)
    | StrictArray(items: seq<Value>)
    | Date(bits: u64, timezone: i16)
    | Unsupported
    | XmlDocument(text: seq<byte>)
    | TypedObject(className: seq<byte>, props: seq<Prop>)

  const MAX_DEPTH := 64

  // ----------------------------------------------------------------- encoding

  function ShortText(s: seq<byte>): seq<byte> {
    BE(2, |s|) + s
  }

  function LongText(s: seq<byte>): seq<byte> {
    BE(4, |s|) + s
  }

  /** The empty key and the end marker. */
  const OBJECT_END: seq<byte> := [0x00, 0x00, 0x09]

  function Encode(v: Value): seq<byte>
    decreases v, 1
  {
    match v
    case Number(bits) => [0x00] + BE(8, bits)
    case Boolean(b) => [0x01] + [if b then 1 else 0]
    case Str(s) => if |s| <= 0xFFFF then [0x02] + ShortText(s) else [0x0C] + LongText(s)
    case Null => [0x05]
    case Undefined => [0x06]
    case Object(props) => [0x03] + (EncodeProps(props) + OBJECT_END)
    case EcmaArray(props) => [0x08] + (BE(4, |props|) + (EncodeProps(props) + OBJECT_END))
    case StrictArray(items) => [0x0A] + (BE(4, |items|) + EncodeAll(items))
    case Date(bits, tz) => [0x0B] + (BE(8, bits) + BE(2, tz % 0x1_0000))
    case Unsupported => [0x0D]
    case XmlDocument(s) => [0x0F] + LongText(s)
    case TypedObject(name, props) => [0x10] + (ShortText(name) + (EncodeProps(props) + OBJECT_END))
  }

  function EncodeProps(ps: seq<Prop>): seq<byte>
    decreases ps, 0
  {
    if ps == [] then [] else ShortText(ps[0].key) + (Encode(ps[0].value) + EncodeProps(ps[1..]))
  }

  function EncodeAll(vs: seq<Value>): seq<byte>
    decreases vs, 0
  {
    if vs == [] then [] else Encode(vs[0]) + EncodeAll(vs[1..])
  }

  // ---------------------------------------------------- AMF 3 values seen as AMF 0

  /** Decimal digits. */
  function Digits(n: nat): seq<byte> {
    if n < 10 then [48 + n] else Digits(n / 10) + [48 + n % 10]
  }

  function ShowInt(n: int): seq<byte> {
    if n < 0 then [45] + Digits(-n) else Digits(n)
  }

  const SHOWN_TRUE: seq<byte> := [116, 114, 117, 101]
  const SHOWN_FALSE: seq<byte> := [102, 97, 108, 115, 101]
  const SHOWN_NULL: seq<byte> := [110, 117, 108, 108]
  const SHOWN_UNDEFINED: seq<byte> := [117, 110, 100, 101, 102, 105, 110, 101, 100]
  const SHOWN_OBJECT: seq<byte> := [91, 111, 98, 106, 101, 99, 116, 93]

  /** How a double is printed is left open. */
  type ShowDouble = u64 -> seq<byte>

  function KeyText(k: Amf3.Value, show: ShowDouble): seq<byte> {
    match k
    case Str(s) => s
    case Xml(s) => s
    case XmlDocument(s) => s
    case Integer(n) => ShowInt(n)
    case Double(bits) => show(bits)
    case Boolean(b) => if b then SHOWN_TRUE else SHOWN_FALSE
    case Null => SHOWN_NULL
    case Undefined => SHOWN_UNDEFINED
    case _ => SHOWN_OBJECT
  }

  function ToAmf0(v: Amf3.Value, show: ShowDouble): Value
    decreases v, 1
  {
    match v
    case Undefined => Undefined
    case Null => Null
    case Boolean(b) => Boolean(b)
    case Integer(n) => Number(Amf3.DoubleOfInt(n))
    case Double(bits) => Number(bits)
    case Str(s) => Str(s)
    case XmlDocument(s) => Str(s)
    case Xml(s) => Str(s)
    case Date(bits) => Date(bits, 0)
    case Array(dense, assoc) => EcmaArray(IndexedToAmf0(dense, 0, show) + MembersToAmf0(assoc, show))
    case Object(_, _, sealed, members, _) => Object(MembersToAmf0(sealed, show) + MembersToAmf0(members, show))
    case ByteArray(b) => StrictArray(seq(|b|, i requires 0 <= i < |b| => Number(Amf3.DoubleOfInt(b[i]))))
    case VectorInt(_, ns) => StrictArray(seq(|ns|, i requires 0 <= i < |ns| => Number(Amf3.DoubleOfInt(ns[i]))))
    case VectorUInt(_, ns) => StrictArray(seq(|ns|, i requires 0 <= i < |ns| => Number(Amf3.DoubleOfInt(ns[i]))))
    case VectorDouble(_, ds) => StrictArray(seq(|ds|, i requires 0 <= i < |ds| => Number(ds[i])))
    case VectorObject(_, _, items) => StrictArray(AllToAmf0(items, show))
    case Dictionary(_, entries) => EcmaArray(EntriesToAmf0(entries, show))
  }

  function AllToAmf0(vs: seq<Amf3.Value>, show: ShowDouble): (r: seq<Value>)
    ensures |r| == |vs|
    decreases vs, 0
  {
    if vs == [] then [] else [ToAmf0(vs[0], show)] + AllToAmf0(vs[1..], show)
  }

  function IndexedToAmf0(vs: seq<Amf3.Value>, i: nat, show: ShowDouble): seq<Prop>
    decreases vs, 0
  {
    if vs == [] then [] else [Prop(ShowInt(i), ToAmf0(vs[0], show))] + IndexedToAmf0(vs[1..], i + 1, show)
  }

  function MembersToAmf0(ms: seq<Amf3.Member>, show: ShowDouble): seq<Prop>
    decreases ms, 0
  {
    if ms == [] then [] else [Prop(ms[0].name, ToAmf0(ms[0].value, show))] + MembersToAmf0(ms[1..], show)
  }

  function EntriesToAmf0(es: seq<Amf3.Entry>, show: ShowDouble): seq<Prop>
    decreases es, 0
  {
    if es == [] then []
    else
      assert es[0].value < es[0];
      [Prop(KeyText(es[0].key, show), ToAmf0(es[0].value, show))] + EntriesToAmf0(es[1..], show)
  }

  // ----------------------------------------------------------------- decoding

  type Refs = seq<Value>

  datatype Dec<+T> = Ok(value: T, rest: seq<byte>, refs: Refs) | Bad {
    predicate IsFailure() {
      Bad?
    }
    function PropagateFailure<U>(): Dec<U>
      requires Bad?
    {
      Bad
    }
    function Extract(): (T, seq<byte>, Refs)
      requires Ok?
    {
      (value, rest, refs)
    }
  }

  function Plain<T>(g: Got<T>, refs: Refs): Dec<T> {
    match g
    case Short => Bad
    case Got(v, w) => Ok(v, w, refs)
  }

  /** A text behind its length in `n` octets. */
  function ReadText(w: seq<byte>, n: nat): (r: Got<seq<byte>>)
    ensures r.Got? ==> |r.rest| + n + |r.value| == |w| && |r.value| < Pow256(n) && ValidUtf8(r.value)
    ensures r.Got? ==> w == BE(n, |r.value|) + r.value + r.rest
  {
    var (len, w1) :- TakeBE(w, n);
    var (s, w2) :- Take(w1, len);
    BEInvertsUnBE(w[..n]);
    assert w == w[..n] + w1;
    if ValidUtf8(s) then Got(s, w2) else Short
  }

  function Signed16(v: nat): i16
    requires v < 0x1_0000
  {
    if v >= 0x8000 then v - 0x1_0000 else v
  }

  /** Overwrites the slot reserved for a container with the finished container. */
  function Filled(refs: Refs, slot: nat, v: Value): Refs {
    if slot < |refs| then refs[slot := v] else refs
  }

  /** One value; `depth` containers are open around it. */
  function Decode(w: seq<byte>, depth: nat, refs: Refs, show: ShowDouble): (r: Dec<Value>)
    ensures r.Ok? ==> |r.rest| < |w|
    decreases |w|, 0
  {
    Widths();
    if depth >= MAX_DEPTH || w == [] then Bad
    else
      var m, w1 := w[0], w[1..];
      if m == 0x00 then
        var (bits, w2, _) :- Plain(TakeBE(w1, 8), refs);
        Ok(Number(bits), w2, refs)
      else if m == 0x01 then
        var (b, w2, _) :- Plain(TakeByte(w1), refs);
        Ok(Boolean(b != 0), w2, refs)
      else if m == 0x02 then
        var (s, w2, _) :- Plain(ReadText(w1, 2), refs);
        Ok(Str(s), w2, refs)
      else if m == 0x0C then
        var (s, w2, _) :- Plain(ReadText(w1, 4), refs);
        Ok(Str(s), w2, refs)
      else if m == 0x05 then Ok(Null, w1, refs)
      else if m == 0x06 then Ok(Undefined, w1, refs)
      else if m == 0x03 then ReadObject(w1, depth + 1, refs, show)
      else if m == 0x08 then ReadEcmaArray(w1, depth + 1, refs, show)
      else if m == 0x0A then ReadStrictArray(w1, depth + 1, refs, show)
      else if m == 0x0B then
        var (bits, w2, _) :- Plain(TakeBE(w1, 8), refs);
        var (tz, w3, _) :- Plain(TakeBE(w2, 2), refs);
        Ok(Date(bits, Signed16(tz)), w3, refs)
      else if m == 0x11 then ReadAmf3(w1, refs, show)
      else if m == 0x0D then Ok(Unsupported, w1, refs)
      else if m == 0x0F then
        var (s, w2, _) :- Plain(ReadText(w1, 4), refs);
        Ok(XmlDocument(s), w2, refs)
      else if m == 0x10 then ReadTypedObject(w1, depth + 1, refs, show)
      else if m == 0x07 then ReadReference(w1, refs)
      else Bad
  }

  /** A value in AMF 3, with tables of its own. */
  function ReadAmf3(w: seq<byte>, refs: Refs, show: ShowDouble): (r: Dec<Value>)
    ensures r.Ok? ==> |r.rest| < |w|
  {
    match Amf3.Decode(w, 0, Amf3.NO_TABLES)
    case Bad => Bad
    case Ok(v, w1, _) => Ok(ToAmf0(v, show), w1, refs)
  }

  function ReadReference(w: seq<byte>, refs: Refs): (r: Dec<Value>)
    ensures r.Ok? ==> |r.rest| < |w|
  {
    var (idx, w1, _) :- Plain(TakeBE(w, 2), refs);
    if idx < |refs| then Ok(refs[idx], w1, refs) else Bad
  }

  function ReadObject(w: seq<byte>, depth: nat, refs: Refs, show: ShowDouble): (r: Dec<Value>)
    ensures r.Ok? ==> |r.rest| <= |w|
    decreases |w|, 2
  {
    var (props, w1, refs1) :- DecodeProps(w, depth, refs + [Object([])], show);
    var v := Object(props);
    Ok(v, w1, Filled(refs1, |refs|, v))
  }

  function ReadEcmaArray(w: seq<byte>, depth: nat, refs: Refs, show: ShowDouble): (r: Dec<Value>)
    ensures r.Ok? ==> |r.rest| <= |w|
    decreases |w|, 2
  {
    var (_, w1, _) :- Plain(TakeBE(w, 4), refs);
    var (props, w2, refs1) :- DecodeProps(w1, depth, refs + [EcmaArray([])], show);
    var v := EcmaArray(props);
    Ok(v, w2, Filled(refs1, |refs|, v))
  }

  function ReadStrictArray(w: seq<byte>, depth: nat, refs: Refs, show: ShowDouble): (r: Dec<Value>)
    ensures r.Ok? ==> |r.rest| <= |w|
    decreases |w|, 2
  {
    var (count, w1, _) :- Plain(TakeBE(w, 4), refs);
    var (items, w2, refs1) :- DecodeAll(count, w1, depth, refs + [StrictArray([])], show);
    var v := StrictArray(items);
    Ok(v, w2, Filled(refs1, |refs|, v))
  }

  function ReadTypedObject(w: seq<byte>, depth: nat, refs: Refs, show: ShowDouble): (r: Dec<Value>)
    ensures r.Ok? ==> |r.rest| <= |w|
    decreases |w|, 2
  {
    var (name, w1, _) :- Plain(ReadText(w, 2), refs);
    var (props, w2, refs1) :- DecodeProps(w1, depth, refs + [TypedObject(name, [])], show);
    var v := TypedObject(name, props);
    Ok(v, w2, Filled(refs1, |refs|, v))
  }

  /** Keyed values up to the empty key, which must be followed by the end marker. */
  function DecodeProps(w: seq<byte>, depth: nat, refs: Refs, show: ShowDouble): (r: Dec<seq<Prop>>)
    ensures r.Ok? ==> |r.rest| < |w|
    decreases |w|, 1
  {
    var (k, w1, _) :- Plain(ReadText(w, 2), refs);
    if k == [] then
      var (end, w2, _) :- Plain(TakeByte(w1), refs);
      if end == 0x09 then Ok([], w2, refs) else Bad
    else
      var (v, w2, refs2) :- Decode(w1, depth, refs, show);
      var (ps, w3, refs3) :- DecodeProps(w2, depth, refs2, show);
      Ok([Prop(k, v)] + ps, w3, refs3)
  }

  function DecodeAll(count: nat, w: seq<byte>, depth: nat, refs: Refs, show: ShowDouble): (r: Dec<seq<Value>>)
    ensures r.Ok? ==> |r.value| == count && |r.rest| <= |w|
    decreases |w|, 1
  {
    if count == 0 then Ok([], w, refs)
    else
      var (v, w1, refs1) :- Decode(w, depth, refs, show);
      var (vs, w2, refs2) :- DecodeAll(count - 1, w1, depth, refs1, show);
      Ok([v] + vs, w2, refs2)
  }

  /** All values of a packet, sharing one table. */
  function DecodeBuffer(w: seq<byte>, refs: Refs, show: ShowDouble): Option<seq<Value>>
    decreases |w|
  {
    if w == [] then Some([])
    else
      match Decode(w, 0, refs, show)
      case Bad => None
      case Ok(v, w1, refs1) =>
        match DecodeBuffer(w1, refs1, show)
        case None => None
        case Some(vs) => Some([v] + vs)
  }
}
