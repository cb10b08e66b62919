/** The reference table of the AMF 0 decoder, which reserves a slot when a container opens and
    overwrites it when the container closes, seen from outside: the values of the containers in
    the order they open. Consequences for reading back what was decoded. */
module Amf0References {
  import opened Bytes
  import opened Text
  import opened Amf0Model
  import opened Amf0RoundTrip
  import Amf3Model
  import Amf3Tail

  /** What a decoded value was on the wire: a value without slots, a reference, or a container. */
  datatype Node =
    | Leaf(octets: seq<byte>, value: Value)
    | Ref(index: u16, value: Value)
    | Group(head: seq<byte>, parts: seq<Part>, value: Value)

  /** A part of a container; items of strict arrays have no names. */
  datatype Part = Part(name: seq<byte>, node: Node)

  // ------------------------------------------------------- what a tree stands for

  predicate Keyed(head: seq<byte>)
    requires head != []
  {
    head[0] != 0x0A
  }

  /** The octets a tree was read from. */
  function Spell(n: Node): seq<byte>
    decreases n, 1
  {
    match n
    case Leaf(octets, _) => octets
    case Ref(index, _) => [0x07] + BE(2, index)
    case Group(head, parts, _) =>
      if head == [] then []
      else if Keyed(head) then head + (SpellProps(parts) + OBJECT_END)
      else head + SpellItems(parts)
  }

  function SpellProps(parts: seq<Part>): seq<byte>
    decreases parts, 0
  {
    if parts == [] then [] else ShortText(parts[0].name) + (Spell(parts[0].node) + SpellProps(parts[1..]))
  }

  function SpellItems(parts: seq<Part>): seq<byte>
    decreases parts, 0
  {
    if parts == [] then [] else Spell(parts[0].node) + SpellItems(parts[1..])
  }

  /** The values of the containers, in the order they open. */
  function Slots(n: Node): seq<Value>
    decreases n, 1
  {
    if n.Group? then [n.value] + SlotsOfParts(n.parts) else []
  }

  function SlotsOfParts(parts: seq<Part>): seq<Value>
    decreases parts, 0
  {
    if parts == [] then [] else Slots(parts[0].node) + SlotsOfParts(parts[1..])
  }

  /** The container markers a tree was read from, in order. */
  function Markers(n: Node): seq<byte>
    decreases n, 1
  {
    if n.Group? && n.head != [] then [n.head[0]] + MarkersOfParts(n.parts) else []
  }

  function MarkersOfParts(parts: seq<Part>): seq<byte>
    decreases parts, 0
  {
    if parts == [] then [] else Markers(parts[0].node) + MarkersOfParts(parts[1..])
  }

  function PropsOf(parts: seq<Part>): (ps: seq<Prop>)
    ensures |ps| == |parts|
  {
    seq(|parts|, i requires 0 <= i < |parts| => Prop(parts[i].name, parts[i].node.value))
  }

  function ItemsOf(parts: seq<Part>): (vs: seq<Value>)
    ensures |vs| == |parts|
  {
    seq(|parts|, i requires 0 <= i < |parts| => parts[i].node.value)
  }

  /** A container without its contents. */
  function Hollow(v: Value): Value {
    match v
    case Object(_) => Object([])
    case EcmaArray(_) => EcmaArray([])
    case StrictArray(_) => StrictArray([])
    case TypedObject(name, _) => TypedObject(name, [])
    case _ => v
  }

  /** A container's value is made of its parts' values, behind the head that announces it. */
  predicate Assembled(head: seq<byte>, parts: seq<Part>, v: Value) {
    match v
    case Object(ps) => head == [0x03] && ps == PropsOf(parts)
    case EcmaArray(ps) => |head| == 5 && head[0] == 0x08 && ps == PropsOf(parts)
    case StrictArray(vs) => head == [0x0A] + BE(4, |parts|) && |parts| < U32_MOD && vs == ItemsOf(parts)
    case TypedObject(name, ps) =>
      head == [0x10] + ShortText(name) && |name| <= 0xFFFF && ValidUtf8(name) && ps == PropsOf(parts)
    case _ => false
  }

  /** The octets spell one value without parts, and nothing else. */
  predicate OneScalar(octets: seq<byte>, v: Value) {
    match v
    case Number(bits) => octets == [0x00] + BE(8, bits)
    case Boolean(flag) => |octets| == 2 && octets[0] == 0x01 && flag == (octets[1] != 0)
    case Str(s) => (|s| <= 0xFFFF && octets == [0x02] + ShortText(s)) || octets == [0x0C] + LongText(s)
    case Null => octets == [0x05]
    case Undefined => octets == [0x06]
    case Date(bits, tz) => octets == [0x0B] + (BE(8, bits) + BE(2, tz % 0x1_0000))
    case Unsupported => octets == [0x0D]
    case XmlDocument(s) => octets == [0x0F] + LongText(s)
    case _ => false
  }

  /** The octets are taken for one AMF 3 value, whatever stands behind them. */
  ghost predicate OneSwitched(octets: seq<byte>) {
    octets != [] && octets[0] == 0x11 && exists tail :: SwitchedBefore(octets[1..], tail)
  }

  predicate SwitchedBefore(octets: seq<byte>, tail: seq<byte>) {
    var r := Amf3Model.Decode(octets + tail, 0, Amf3Model.NO_TABLES);
    r.Ok? && r.rest == tail
  }

  /** `n` is a possible reading of its octets against the table `refs`: references mean the slot
      they name; while a container is open its own slot holds the hollow container, and the slots
      of what has closed before hold the finished values. */
  ghost predicate Linked(n: Node, refs: Refs)
    decreases n, 1
  {
    match n
    case Leaf(octets, v) => OneSwitched(octets) || (OneScalar(octets, v) && WellFormed(v) && Nesting(v) == 1)
    case Ref(index, v) => index < |refs| && v == refs[index]
    case Group(head, parts, v) =>
      && Assembled(head, parts, v)
      && (!v.StrictArray? ==> NamesOk(parts))
      && LinkedParts(parts, refs + [Hollow(v)])
  }

  predicate NamesOk(parts: seq<Part>) {
    parts == [] || (KeyOk(parts[0].name) && NamesOk(parts[1..]))
  }

  ghost predicate LinkedParts(parts: seq<Part>, refs: Refs)
    decreases parts, 0
  {
    parts == [] || (Linked(parts[0].node, refs) && LinkedParts(parts[1..], refs + Slots(parts[0].node)))
  }

  // ------------------------------------------------------------- every decoding

  /** The outcome of decoding, described by the tree `n`. */
  ghost predicate Describes(n: Node, w: seq<byte>, refs: Refs, r: Dec<Value>) {
    && r.Ok? && n.value == r.value
    && w == Spell(n) + r.rest
    && Linked(n, refs)
    && r.refs == refs + Slots(n)
  }

  lemma LeafOutcome(m: byte, x: seq<byte>, depth: nat, refs: Refs, show: ShowDouble)
    requires depth < MAX_DEPTH && m !in {0x03, 0x07, 0x08, 0x0A, 0x10} && Decode([m] + x, depth, refs, show).Ok?
    ensures var r := Decode([m] + x, depth, refs, show);
            && r.refs == refs && Tail(r.rest, x)
            && (m != 0x11 ==> WellFormed(r.value) && Nesting(r.value) == 1)
  {
    hide Decode, ReadText, UnBE, ReadReference, ReadObject, ReadEcmaArray, ReadStrictArray, ReadTypedObject, ValidUtf8;
    Widths();
    if m in {0x02, 0x0C, 0x0F} {
      DecodeText(m, x, depth, refs, show);
    } else if m in {0x00, 0x01, 0x0B} {
      DecodeNumber(m, x, depth, refs, show);
    } else {
      DecodeContainer(m, x, depth, refs, show);
      Amf3Tail.DecodeTail(x, 0, Amf3Model.NO_TABLES);
    }
  }

  /** What was taken off the front. */
  function Taken(x: seq<byte>, rest: seq<byte>): seq<byte>
    requires |rest| <= |x|
  {
    x[..|x| - |rest|]
  }

  lemma TextTaken(x: seq<byte>, n: nat)
    ensures var g := ReadText(x, n);
            g.Got? ==> Taken(x, g.rest) == BE(n, |g.value|) + g.value && |g.value| < Pow256(n)
  {
    var g := ReadText(x, n);
    if g.Got? {
      hide ReadText, BE;
      SplitAt(BE(n, |g.value|) + g.value, g.rest);
    }
  }

  lemma UnsignedTaken(x: seq<byte>, n: nat)
    ensures var g := TakeBE(x, n);
            g.Got? ==> Taken(x, g.rest) == BE(n, g.value)
  {
    if TakeBE(x, n).Got? {
      BEInvertsUnBE(x[..n]);
    }
  }

  lemma DateTaken(x: seq<byte>, w: seq<byte>, w1: seq<byte>)
    requires TakeBE(x, 8).Got? && w == TakeBE(x, 8).rest && TakeBE(w, 2).Got? && w1 == TakeBE(w, 2).rest
    ensures TakeBE(w, 2).value < 0x1_0000
    ensures Taken(x, w1) == BE(8, TakeBE(x, 8).value) + BE(2, Signed16(TakeBE(w, 2).value) % 0x1_0000)
  {
    Widths();
    UnsignedTaken(x, 8);
    UnsignedTaken(w, 2);
    hide BE, UnBE;
    assert Taken(x, w1) == Taken(x, w) + Taken(w, w1);
  }

  /** The octets a leaf takes are those of one scalar, or of one AMF 3 value. */
  lemma LeafOctets(m: byte, x: seq<byte>, depth: nat, refs: Refs, show: ShowDouble)
    requires depth < MAX_DEPTH && m !in {0x03, 0x07, 0x08, 0x0A, 0x10} && Decode([m] + x, depth, refs, show).Ok?
    ensures var r := Decode([m] + x, depth, refs, show);
            && |r.rest| <= |x|
            && (if m == 0x11 then SwitchedBefore(Taken(x, r.rest), r.rest) else OneScalar([m] + Taken(x, r.rest), r.value))
  {
    hide Decode, ReadText, UnBE, BE, TakeBE, ReadReference, ReadObject, ReadEcmaArray, ReadStrictArray, ReadTypedObject, ValidUtf8,
      Amf3Model.Decode;
    var r := Decode([m] + x, depth, refs, show);
    Widths();
    if m in {0x02, 0x0C, 0x0F} {
      DecodeText(m, x, depth, refs, show);
      TextTaken(x, if m == 0x02 then 2 else 4);
    } else if m in {0x00, 0x01, 0x0B} {
      DecodeNumber(m, x, depth, refs, show);
      UnsignedTaken(x, 8);
      if m == 0x0B {
        DateTaken(x, TakeBE(x, 8).rest, r.rest);
      }
    } else {
      DecodeContainer(m, x, depth, refs, show);
      Amf3Tail.DecodeTail(x, 0, Amf3Model.NO_TABLES);
      assert Taken(x, r.rest) + r.rest == x;
    }
  }

  lemma LeafDescribes(w: seq<byte>, depth: nat, refs: Refs, show: ShowDouble) returns (n: Node)
    requires w != [] && w[0] !in {0x03, 0x07, 0x08, 0x0A, 0x10} && Decode(w, depth, refs, show).Ok?
    ensures Describes(n, w, refs, Decode(w, depth, refs, show))
  {
    assert depth < MAX_DEPTH;
    hide Decode, WellFormed, Nesting;
    var r := Decode(w, depth, refs, show);
    assert w == [w[0]] + w[1..];
    LeafOutcome(w[0], w[1..], depth, refs, show);
    LeafOctets(w[0], w[1..], depth, refs, show);
    hide OneScalar, SwitchedBefore;
    var octets := [w[0]] + Taken(w[1..], r.rest);
    n := Leaf(octets, r.value);
    assert octets[1..] == Taken(w[1..], r.rest);
    assert w == octets + r.rest && refs + [] == refs;
  }

  lemma ReferenceDescribes(w: seq<byte>, depth: nat, refs: Refs, show: ShowDouble) returns (n: Node)
    requires w != [] && w[0] == 0x07 && Decode(w, depth, refs, show).Ok?
    ensures Describes(n, w, refs, Decode(w, depth, refs, show))
  {
    assert depth < MAX_DEPTH;
    hide Decode, BE, UnBE;
    var x := w[1..];
    assert w == [0x07] + x;
    DecodeContainer(0x07, x, depth, refs, show);
    Widths();
    var index := UnBE(x[..2]);
    n := Ref(index, refs[index]);
    BEInvertsUnBE(x[..2]);
    assert x == x[..2] + x[2..] && refs + [] == refs;
    Assoc3([0x07], x[..2], x[2..]);
  }

  /** Filling the slot that was reserved puts the finished container in its place. */
  lemma SlotFilled(refs: Refs, hollow: Value, more: seq<Value>, v: Value)
    ensures Filled(refs + [hollow] + more, |refs|, v) == refs + ([v] + more)
  {
    assert (refs + [hollow] + more)[|refs| := v] == refs + ([v] + more);
  }

  /** The outcome of reading properties, described by `parts`. */
  ghost predicate DescribesProps(parts: seq<Part>, w: seq<byte>, refs: Refs, r: Dec<seq<Prop>>) {
    && r.Ok? && r.value == PropsOf(parts)
    && w == SpellProps(parts) + (OBJECT_END + r.rest)
    && NamesOk(parts) && LinkedParts(parts, refs)
    && r.refs == refs + SlotsOfParts(parts)
  }

  ghost predicate DescribesItems(parts: seq<Part>, w: seq<byte>, refs: Refs, r: Dec<seq<Value>>) {
    && r.Ok? && r.value == ItemsOf(parts)
    && w == SpellItems(parts) + r.rest
    && LinkedParts(parts, refs)
    && r.refs == refs + SlotsOfParts(parts)
  }

  lemma {:induction false} PropsDescribed(w: seq<byte>, depth: nat, refs: Refs, show: ShowDouble) returns (parts: seq<Part>)
    requires DecodeProps(w, depth, refs, show).Ok?
    ensures DescribesProps(parts, w, refs, DecodeProps(w, depth, refs, show))
    decreases |w|, 1
  {
    hide Decode, Spell, Linked, ReadText, Slots, ValidUtf8;
    Widths();
    var k := ReadText(w, 2);
    if k.value == [] {
      parts := [];
      NoProps(w, depth, refs, show);
    } else {
      hide DescribesProps;
      var r := Decode(k.rest, depth, refs, show);
      var n := Described(k.rest, depth, refs, show);
      var others := PropsDescribed(r.rest, depth, r.refs, show);
      parts := [Part(k.value, n)] + others;
      PropsExtended(k.value, n, others, w, refs, r, DecodeProps(r.rest, depth, r.refs, show));
    }
  }

  /** Only the end of a keyed container. */
  lemma NoProps(w: seq<byte>, depth: nat, refs: Refs, show: ShowDouble)
    requires DecodeProps(w, depth, refs, show).Ok? && ReadText(w, 2).value == []
    ensures DescribesProps([], w, refs, DecodeProps(w, depth, refs, show))
  {
    hide Decode, Spell, Linked, ReadText, Slots, ValidUtf8;
    var k := ReadText(w, 2);
    assert k.rest == [0x09] + k.rest[1..] && BE(2, 0) == [0, 0];
    assert w == OBJECT_END + k.rest[1..];
    assert [] + (OBJECT_END + k.rest[1..]) == OBJECT_END + k.rest[1..];
    assert refs + [] == refs;
  }

  lemma PropsExtended(
    name: seq<byte>, n: Node, others: seq<Part>, w: seq<byte>, refs: Refs, r: Dec<Value>, r1: Dec<seq<Prop>>)
    requires KeyOk(name) && r.Ok? && r1.Ok? && DescribesProps(others, r.rest, r.refs, r1)
    requires |w| >= 2 + |name| && w == ShortText(name) + w[2 + |name|..] && Describes(n, w[2 + |name|..], refs, r)
    ensures DescribesProps([Part(name, n)] + others, w, refs, Ok([Prop(name, r.value)] + r1.value, r1.rest, r1.refs))
  {
    hide Spell, Linked, Slots, ShortText, KeyOk;
    var parts := [Part(name, n)] + others;
    assert parts[0] == Part(name, n) && parts[1..] == others;
    Assoc3(refs, Slots(n), SlotsOfParts(others));
    Assoc3(Spell(n), SpellProps(others), OBJECT_END + r1.rest);
    Assoc3(ShortText(name), Spell(n) + SpellProps(others), OBJECT_END + r1.rest);
  }

  lemma {:induction false} ItemsDescribed(count: nat, w: seq<byte>, depth: nat, refs: Refs, show: ShowDouble)
    returns (parts: seq<Part>)
    requires DecodeAll(count, w, depth, refs, show).Ok?
    ensures DescribesItems(parts, w, refs, DecodeAll(count, w, depth, refs, show))
    decreases |w|, 1
  {
    hide Decode, Spell, Linked, Slots;
    if count == 0 {
      parts := [];
      assert [] + w == w && refs + [] == refs;
    } else {
      var r := Decode(w, depth, refs, show);
      var n := Described(w, depth, refs, show);
      var others := ItemsDescribed(count - 1, r.rest, depth, r.refs, show);
      parts := [Part([], n)] + others;
      assert parts[0] == Part([], n) && parts[1..] == others;
      Assoc3(refs, Slots(n), SlotsOfParts(others));
      Assoc3(Spell(n), SpellItems(others), DecodeAll(count - 1, r.rest, depth, r.refs, show).rest);
    }
  }

  /** A keyed container: its head, its properties, its slot. */
  lemma KeyedGroup(head: seq<byte>, parts: seq<Part>, v: Value, w: seq<byte>, x: seq<byte>, refs: Refs, r: Dec<seq<Prop>>)
    requires r.Ok? && head != [] && Keyed(head) && Assembled(head, parts, v) && !v.StrictArray?
    requires w == head + x && DescribesProps(parts, x, refs + [Hollow(v)], r)
    ensures Describes(Group(head, parts, v), w, refs, Ok(v, r.rest, Filled(r.refs, |refs|, v)))
  {
    hide SpellProps, LinkedParts, NamesOk, SlotsOfParts, Assembled, Filled;
    SlotFilled(refs, Hollow(v), SlotsOfParts(parts), v);
    Assoc3(SpellProps(parts), OBJECT_END, r.rest);
    Assoc3(head, SpellProps(parts) + OBJECT_END, r.rest);
  }

  lemma {:induction false} Described(w: seq<byte>, depth: nat, refs: Refs, show: ShowDouble) returns (n: Node)
    requires Decode(w, depth, refs, show).Ok?
    ensures Describes(n, w, refs, Decode(w, depth, refs, show))
    decreases |w|, 0
  {
    if w[0] !in {0x03, 0x07, 0x08, 0x0A, 0x10} {
      n := LeafDescribes(w, depth, refs, show);
    } else if w[0] == 0x07 {
      n := ReferenceDescribes(w, depth, refs, show);
    } else {
      n := GroupDescribes(w, depth, refs, show);
    }
  }

  lemma ObjectDescribed(x: seq<byte>, depth: nat, refs: Refs, show: ShowDouble) returns (n: Node)
    requires ReadObject(x, depth, refs, show).Ok?
    ensures Describes(n, [0x03] + x, refs, ReadObject(x, depth, refs, show))
    decreases |x|, 2
  {
    hide DecodeProps, Describes, LinkedParts, SpellProps, NamesOk, SlotsOfParts;
    var parts := PropsDescribed(x, depth, refs + [Object([])], show);
    var r := DecodeProps(x, depth, refs + [Object([])], show);
    n := Group([0x03], parts, Object(r.value));
    KeyedGroup([0x03], parts, n.value, [0x03] + x, x, refs, r);
  }

  lemma EcmaArrayDescribed(x: seq<byte>, depth: nat, refs: Refs, show: ShowDouble) returns (n: Node)
    requires ReadEcmaArray(x, depth, refs, show).Ok?
    ensures Describes(n, [0x08] + x, refs, ReadEcmaArray(x, depth, refs, show))
    decreases |x|, 2
  {
    hide DecodeProps, Describes, LinkedParts, SpellProps, NamesOk, SlotsOfParts, UnBE;
    var count, body := x[..4], x[4..];
    var parts := PropsDescribed(body, depth, refs + [EcmaArray([])], show);
    var r := DecodeProps(body, depth, refs + [EcmaArray([])], show);
    n := Group([0x08] + count, parts, EcmaArray(r.value));
    assert x == count + body;
    Assoc3([0x08], count, body);
    KeyedGroup([0x08] + count, parts, n.value, [0x08] + x, body, refs, r);
  }

  lemma TypedObjectDescribed(x: seq<byte>, depth: nat, refs: Refs, show: ShowDouble) returns (n: Node)
    requires ReadTypedObject(x, depth, refs, show).Ok?
    ensures Describes(n, [0x10] + x, refs, ReadTypedObject(x, depth, refs, show))
    decreases |x|, 2
  {
    hide DecodeProps, Describes, LinkedParts, SpellProps, NamesOk, SlotsOfParts, ReadText, ValidUtf8, BE;
    Widths();
    var k := ReadText(x, 2);
    var hollow := TypedObject(k.value, []);
    var parts := PropsDescribed(k.rest, depth, refs + [hollow], show);
    var r := DecodeProps(k.rest, depth, refs + [hollow], show);
    var head := [0x10] + ShortText(k.value);
    n := Group(head, parts, TypedObject(k.value, r.value));
    Assoc3([0x10], ShortText(k.value), k.rest);
    KeyedGroup(head, parts, n.value, [0x10] + x, k.rest, refs, r);
  }

  lemma StrictArrayDescribed(x: seq<byte>, depth: nat, refs: Refs, show: ShowDouble) returns (n: Node)
    requires ReadStrictArray(x, depth, refs, show).Ok?
    ensures Describes(n, [0x0A] + x, refs, ReadStrictArray(x, depth, refs, show))
    decreases |x|, 2
  {
    hide DecodeAll, LinkedParts, SpellItems, SlotsOfParts, UnBE, BE, Filled;
    Widths();
    var count, body := UnBE(x[..4]), x[4..];
    var parts := ItemsDescribed(count, body, depth, refs + [StrictArray([])], show);
    var r := DecodeAll(count, body, depth, refs + [StrictArray([])], show);
    var v := StrictArray(r.value);
    n := Group([0x0A] + BE(4, count), parts, v);
    BEInvertsUnBE(x[..4]);
    assert x == x[..4] + body;
    Assoc3([0x0A], BE(4, count), body);
    Assoc3([0x0A] + BE(4, count), SpellItems(parts), r.rest);
    SlotFilled(refs, Hollow(v), SlotsOfParts(parts), v);
  }

  lemma GroupDescribes(w: seq<byte>, depth: nat, refs: Refs, show: ShowDouble) returns (n: Node)
    requires w != [] && w[0] in {0x03, 0x08, 0x0A, 0x10} && Decode(w, depth, refs, show).Ok?
    ensures Describes(n, w, refs, Decode(w, depth, refs, show))
    decreases |w|, -1
  {
    assert depth < MAX_DEPTH;
    hide Decode, Describes, ReadObject, ReadEcmaArray, ReadStrictArray, ReadTypedObject;
    var x := w[1..];
    assert w == [w[0]] + x;
    DecodeContainer(w[0], x, depth, refs, show);
    if w[0] == 0x03 {
      n := ObjectDescribed(x, depth + 1, refs, show);
    } else if w[0] == 0x08 {
      n := EcmaArrayDescribed(x, depth + 1, refs, show);
    } else if w[0] == 0x0A {
      n := StrictArrayDescribed(x, depth + 1, refs, show);
    } else {
      n := TypedObjectDescribed(x, depth + 1, refs, show);
    }
  }

  // ---------------------------------------------------------------- the table

  lemma {:induction false} OneSlotPerMarker(n: Node, refs: Refs)
    requires Linked(n, refs)
    ensures |Slots(n)| == |Markers(n)| && forall m <- Markers(n) :: m in {0x03, 0x08, 0x0A, 0x10}
    decreases n, 1
  {
    if n.Group? {
      OneSlotPerMarkerOfParts(n.parts, refs + [Hollow(n.value)]);
    }
  }

  lemma {:induction false} OneSlotPerMarkerOfParts(parts: seq<Part>, refs: Refs)
    requires LinkedParts(parts, refs)
    ensures |SlotsOfParts(parts)| == |MarkersOfParts(parts)|
    ensures forall m <- MarkersOfParts(parts) :: m in {0x03, 0x08, 0x0A, 0x10}
    decreases parts, 0
  {
    if parts != [] {
      OneSlotPerMarker(parts[0].node, refs);
      OneSlotPerMarkerOfParts(parts[1..], refs + Slots(parts[0].node));
    }
  }

  /** Decoding only adds to the table: one slot for each container marker consumed, in the order
      the markers occur, holding the value the container turned out to have. */
  lemma TableInPreorder(w: seq<byte>, depth: nat, refs: Refs, show: ShowDouble) returns (n: Node)
    requires Decode(w, depth, refs, show).Ok?
    ensures var r := Decode(w, depth, refs, show);
            && w == Spell(n) + r.rest && Linked(n, refs) && n.value == r.value
            && refs <= r.refs && r.refs[|refs|..] == Slots(n)
            && |r.refs| - |refs| == |Markers(n)|
            && (n.Group? ==> r.refs[|refs|] == r.value)
  {
    hide Decode, Linked, Spell;
    n := Described(w, depth, refs, show);
    OneSlotPerMarker(n, refs);
  }

  /** Every reference to slot `k` inside `n` stands for `v`. */
  predicate AllRefsAre(n: Node, k: nat, v: Value)
    decreases n, 1
  {
    match n
    case Leaf(_, _) => true
    case Ref(index, value) => index == k ==> value == v
    case Group(_, parts, _) => AllRefsInPartsAre(parts, k, v)
  }

  predicate AllRefsInPartsAre(parts: seq<Part>, k: nat, v: Value)
    decreases parts, 0
  {
    parts == [] || (AllRefsAre(parts[0].node, k, v) && AllRefsInPartsAre(parts[1..], k, v))
  }

  lemma {:induction false} RefsSeeTable(n: Node, refs: Refs, k: nat)
    requires Linked(n, refs) && k < |refs|
    ensures AllRefsAre(n, k, refs[k])
    decreases n, 1
  {
    if n.Group? {
      RefsInPartsSeeTable(n.parts, refs + [Hollow(n.value)], k);
    }
  }

  lemma {:induction false} RefsInPartsSeeTable(parts: seq<Part>, refs: Refs, k: nat)
    requires LinkedParts(parts, refs) && k < |refs|
    ensures AllRefsInPartsAre(parts, k, refs[k])
    decreases parts, 0
  {
    if parts != [] {
      RefsSeeTable(parts[0].node, refs, k);
      RefsInPartsSeeTable(parts[1..], refs + Slots(parts[0].node), k);
    }
  }

  /** A reference to a container from inside it stands for the container without its contents. */
  lemma OpenContainerIsHollow(n: Node, refs: Refs)
    requires n.Group? && Linked(n, refs)
    ensures AllRefsInPartsAre(n.parts, |refs|, Hollow(n.value))
  {
    RefsInPartsSeeTable(n.parts, refs + [Hollow(n.value)], |refs|);
  }

  /** A reference to a container from after it stands for the finished container. */
  lemma ClosedContainerIsWhole(parts: seq<Part>, i: nat, refs: Refs)
    requires i < |parts| && LinkedParts(parts, refs) && parts[i].node.Group?
    ensures AllRefsInPartsAre(parts[i + 1..], |refs| + |SlotsOfParts(parts[..i])|, parts[i].node.value)
    decreases i
  {
    if i == 0 {
      assert parts[..0] == [];
      var n := parts[0].node;
      RefsInPartsSeeTable(parts[1..], refs + Slots(n), |refs|);
    } else {
      ClosedContainerIsWhole(parts[1..], i - 1, refs + Slots(parts[0].node));
      assert parts[1..][i..] == parts[i + 1..];
      assert parts[..i][1..] == parts[1..][..i - 1] && parts[..i][0] == parts[0];
    }
  }

  // ------------------------------------------------- doing without references

  /** No part was handed to the AMF 3 decoder. */
  predicate NoSwitch(n: Node)
    decreases n, 1
  {
    match n
    case Leaf(octets, _) => octets != [] && octets[0] != 0x11
    case Ref(_, _) => true
    case Group(_, parts, _) => NoSwitchInParts(parts)
  }

  predicate NoSwitchInParts(parts: seq<Part>)
    decreases parts, 0
  {
    parts == [] || (NoSwitch(parts[0].node) && NoSwitchInParts(parts[1..]))
  }

  ghost predicate TableWellFormed(refs: Refs) {
    forall v <- refs :: WellFormed(v)
  }

  lemma {:induction false} DecodedIsWellFormed(n: Node, refs: Refs)
    requires Linked(n, refs) && NoSwitch(n) && TableWellFormed(refs)
    ensures WellFormed(n.value) && TableWellFormed(Slots(n))
    decreases n, 1
  {
    if n.Ref? {
      assert n.value in refs;
    } else if n.Group? {
      hide ValidUtf8;
      assert WellFormed(Hollow(n.value));
      PartsAreWellFormed(n.parts, refs + [Hollow(n.value)]);
      if n.value.StrictArray? {
        ItemsWellFormed(n.parts);
      } else {
        PropsAreWellFormed(n.parts);
      }
    }
  }

  ghost predicate NodesWellFormed(parts: seq<Part>) {
    forall i :: 0 <= i < |parts| ==> WellFormed(parts[i].node.value)
  }

  lemma {:induction false} PartsAreWellFormed(parts: seq<Part>, refs: Refs)
    requires LinkedParts(parts, refs) && NoSwitchInParts(parts) && TableWellFormed(refs)
    ensures NodesWellFormed(parts) && TableWellFormed(SlotsOfParts(parts))
    decreases parts, 0
  {
    hide WellFormed, Linked, NoSwitch, Slots;
    if parts != [] {
      DecodedIsWellFormed(parts[0].node, refs);
      PartsAreWellFormed(parts[1..], refs + Slots(parts[0].node));
    }
  }

  lemma {:induction false} ItemsWellFormed(parts: seq<Part>)
    requires NodesWellFormed(parts)
    ensures AllWellFormed(ItemsOf(parts))
  {
    hide WellFormed;
    if parts != [] {
      ItemsWellFormed(parts[1..]);
      assert ItemsOf(parts)[1..] == ItemsOf(parts[1..]);
    }
  }

  lemma {:induction false} PropsAreWellFormed(parts: seq<Part>)
    requires NodesWellFormed(parts) && NamesOk(parts)
    ensures PropsWellFormed(PropsOf(parts))
  {
    hide WellFormed, KeyOk;
    if parts != [] {
      PropsAreWellFormed(parts[1..]);
      assert PropsOf(parts)[1..] == PropsOf(parts[1..]);
    }
  }

  /** A packet, described value by value. */
  ghost predicate DescribesPacket(nodes: seq<Node>, w: seq<byte>, refs: Refs, vs: seq<Value>)
    decreases |nodes|
  {
    if nodes == [] then w == [] && vs == []
    else
      && vs != [] && nodes[0].value == vs[0] && Linked(nodes[0], refs)
      && |w| >= |Spell(nodes[0])| && w[..|Spell(nodes[0])|] == Spell(nodes[0])
      && DescribesPacket(nodes[1..], w[|Spell(nodes[0])|..], refs + Slots(nodes[0]), vs[1..])
  }

  lemma {:induction false} PacketDescribed(w: seq<byte>, refs: Refs, show: ShowDouble) returns (nodes: seq<Node>)
    requires DecodeBuffer(w, refs, show).Some?
    ensures DescribesPacket(nodes, w, refs, DecodeBuffer(w, refs, show).value)
    decreases |w|
  {
    hide Decode, Linked, Spell, Slots;
    if w == [] {
      nodes := [];
    } else {
      var r := Decode(w, 0, refs, show);
      var n := Described(w, 0, refs, show);
      var others := PacketDescribed(r.rest, r.refs, show);
      nodes := [n] + others;
      SplitAt(Spell(n), r.rest);
      var vs := DecodeBuffer(w, refs, show).value;
      assert nodes[0] == n && nodes[1..] == others && vs[0] == r.value;
      assert vs[1..] == DecodeBuffer(r.rest, r.refs, show).value;
    }
  }

  lemma {:induction false} PacketIsWellFormed(nodes: seq<Node>, w: seq<byte>, refs: Refs, vs: seq<Value>)
    requires DescribesPacket(nodes, w, refs, vs) && TableWellFormed(refs) && forall n <- nodes :: NoSwitch(n)
    ensures AllWellFormed(vs)
    decreases |nodes|
  {
    hide WellFormed, Linked, NoSwitch, Slots, Spell;
    if nodes != [] {
      DecodedIsWellFormed(nodes[0], refs);
      PacketIsWellFormed(nodes[1..], w[|Spell(nodes[0])|..], refs + Slots(nodes[0]), vs[1..]);
    }
  }

  /** Writing out in full what a packet with references decoded to gives a packet that decodes to
      the same values, exactly when no value nests deeper than the decoder goes. */
  lemma ExpansionKeepsMeaning(nodes: seq<Node>, w: seq<byte>, vs: seq<Value>, refs: Refs, show: ShowDouble)
    requires DecodeBuffer(w, [], show) == Some(vs)
    requires DescribesPacket(nodes, w, [], vs) && forall n <- nodes :: NoSwitch(n)
    ensures DecodeBuffer(EncodeAll(vs), refs, show) == Some(vs) <==> AllNesting(vs) <= 64
  {
    hide DescribesPacket, DecodeBuffer, EncodeAll, AllWellFormed, AllNesting;
    PacketIsWellFormed(nodes, w, [], vs);
    Amf0RoundTrip.BufferRoundTrip(vs, refs, show);
  }

  /** Arrays nested `n` deep. */
  function Deep(n: nat): Value {
    StrictArray(if n <= 1 then [] else [Deep(n - 1)])
  }

  lemma OneItem(v: Value)
    ensures AllNesting([v]) == Nesting(v) && (AllWellFormed([v]) <==> WellFormed(v))
  {
    hide Nesting, WellFormed;
    var vs := [v];
    assert vs[0] == v && vs[1..] == [];
  }

  lemma {:induction false} DeepNesting(n: nat)
    requires n > 0
    ensures WellFormed(Deep(n)) && Nesting(Deep(n)) == n
  {
    if n > 1 {
      DeepNesting(n - 1);
      OneItem(Deep(n - 1));
    }
  }

  const REFERENCE_0: seq<byte> := [0x07, 0x00, 0x00]

  /** An array of one item that refers to the first container of the packet. */
  const ONE_REFERENCE: seq<byte> := [0x0A] + (BE(4, 1) + REFERENCE_0)

  lemma FirstContainer(depth: nat, refs: Refs, show: ShowDouble)
    requires depth < MAX_DEPTH && |refs| > 0
    ensures Decode(REFERENCE_0, depth, refs, show) == Ok(refs[0], [], refs)
  {
    var zero := BE(2, 0);
    assert zero == [0, 0];
    hide Decode, BE, UnBE;
    Widths();
    assert REFERENCE_0 == [0x07] + zero && zero + [] == zero;
    DecodeContainer(0x07, zero, depth, refs, show);
    TakeBEPrefix(2, 0, []);
  }

  lemma OneReference(depth: nat, refs: Refs, show: ShowDouble)
    requires depth < MAX_DEPTH - 1 && |refs| > 0
    ensures var r := Decode(ONE_REFERENCE, depth, refs, show);
            r.Ok? && r.value == StrictArray([refs[0]]) && r.rest == []
  {
    hide Decode, BE, UnBE;
    Widths();
    var refs1 := refs + [StrictArray([])];
    DecodeContainer(0x0A, BE(4, 1) + REFERENCE_0, depth, refs, show);
    TakeBEPrefix(4, 1, REFERENCE_0);
    FirstContainer(depth + 1, refs1, show);
    assert DecodeAll(0, [], depth + 1, refs1, show) == Ok([], [], refs1);
    assert DecodeAll(1, REFERENCE_0, depth + 1, refs1, show) == Ok([refs[0]] + [], [], refs1);
    assert [refs[0]] + [] == [refs[0]];
  }

  /** A packet whose values cannot be written out in full: the reference takes one level on the
      wire, and 64 once it is expanded. */
  lemma ExpansionCanFail(show: ShowDouble)
    ensures var w := Encode(Deep(64)) + ONE_REFERENCE;
            var vs := [Deep(64), StrictArray([Deep(64)])];
            DecodeBuffer(w, [], show) == Some(vs) && DecodeBuffer(EncodeAll(vs), [], show) != Some(vs)
  {
    var v := Deep(64);
    assert v.StrictArray? && v.items != [];
    hide Decode, Encode, Deep, WellFormed, Nesting, Linked, Spell, Slots, EncodeAll;
    var w := Encode(v) + ONE_REFERENCE;
    EncodeNonEmpty(v);
    DeepNesting(64);
    Exact(v, 0, [], show, ONE_REFERENCE);
    var r := Decode(w, 0, [], show);
    var n := TableInPreorder(w, 0, [], show);
    DeepIsGroup(n, ONE_REFERENCE, r.rest);
    OneReference(0, r.refs, show);
    TwoValues(w, v, ONE_REFERENCE, StrictArray([v]), show);
    TooDeep(v);
    Amf0RoundTrip.BufferRoundTrip([v, StrictArray([v])], [], show);
  }

  lemma TwoValues(w: seq<byte>, v: Value, w1: seq<byte>, v1: Value, show: ShowDouble)
    requires w != [] && w1 != []
    requires var r := Decode(w, 0, [], show);
             && r.Ok? && r.value == v && r.rest == w1
             && var r1 := Decode(w1, 0, r.refs, show);
                r1.Ok? && r1.value == v1 && r1.rest == []
    ensures DecodeBuffer(w, [], show) == Some([v, v1])
  {
    hide Decode;
    var r := Decode(w, 0, [], show);
    var r1 := Decode(w1, 0, r.refs, show);
    assert DecodeBuffer([], r1.refs, show) == Some([]);
    assert DecodeBuffer(w1, r.refs, show) == Some([v1] + []);
    assert [v] + ([v1] + []) == [v, v1];
  }

  lemma DeepIsGroup(n: Node, tail: seq<byte>, rest: seq<byte>)
    requires Linked(n, []) && n.value.StrictArray? && n.value.items != []
    requires Encode(n.value) + tail == Spell(n) + rest
    ensures n.Group?
  {
    assert AllNesting(n.value.items) >= Nesting(n.value.items[0]);
    assert (Encode(n.value) + tail)[0] == 0x0A;
  }

  lemma TooDeep(v: Value)
    requires Nesting(v) == 64
    ensures !AllEncodable([v, StrictArray([v])], MAX_DEPTH)
  {
    OneItem(v);
    OneItem(StrictArray([v]));
    var vs := [v, StrictArray([v])];
    assert vs[1..] == [StrictArray([v])];
    assert Nesting(StrictArray([v])) == 65;
    assert AllNesting(vs) == Max(Nesting(vs[0]), AllNesting(vs[1..]));
  }
}
