/** Every tree that describes octets is decoded: with what every decoding is described by, the trees
    are exactly what the AMF 0 decoder accepts. */
module Amf0Grammar {
  import opened Bytes
  import opened Text
  import opened Amf0Model
  import opened Amf0RoundTrip
  import opened Amf0References

  /** How deep the containers written out in a tree nest; a reference counts as one. */
  function Height(n: Node): (h: nat)
    ensures h > 0
    decreases n, 1
  {
    if n.Group? then 1 + HeightOfParts(n.parts) else 1
  }

  function HeightOfParts(parts: seq<Part>): nat
    decreases parts, 0
  {
    if parts == [] then 0 else Max(Height(parts[0].node), HeightOfParts(parts[1..]))
  }

  lemma ScalarDecodes(octets: seq<byte>, v: Value, depth: nat, refs: Refs, show: ShowDouble, tail: seq<byte>)
    requires depth < MAX_DEPTH && OneScalar(octets, v) && WellFormed(v)
    ensures Decode(octets + tail, depth, refs, show) == Ok(v, tail, refs)
  {
    hide Decode, ReadText, ShortText, LongText, ValidUtf8, BE, UnBE, TakeBE;
    var m, x := octets[0], octets[1..];
    assert octets + tail == [m] + (x + tail);
    match v {
      case Boolean(_) =>
        DecodeNumber(m, x + tail, depth, refs, show);
        assert x + tail == [octets[1]] + tail;
      case Number(bits) =>
        NumberExact(v, depth, refs, show, tail);
        DecodeNumber(m, x + tail, depth, refs, show);
      case Date(_, _) =>
        assert Encode(v) == octets;
        DateExact(v, depth, refs, show, tail);
        DecodeNumber(m, x + tail, depth, refs, show);
      case Str(s) =>
        DecodeText(m, x + tail, depth, refs, show);
        if m == 0x02 {
          ShortTextRead(s, tail);
        } else {
          LongTextRead(s, tail);
        }
      case XmlDocument(s) =>
        DecodeText(m, x + tail, depth, refs, show);
        LongTextRead(s, tail);
      case Null => BareDecodes(0x05, depth, refs, show, tail);
      case Undefined => BareDecodes(0x06, depth, refs, show, tail);
      case Unsupported => BareDecodes(0x0D, depth, refs, show, tail);
      case _ =>
    }
  }

  lemma BareDecodes(m: byte, depth: nat, refs: Refs, show: ShowDouble, tail: seq<byte>)
    requires depth < MAX_DEPTH && m in {0x05, 0x06, 0x0D}
    ensures Decode([m] + tail, depth, refs, show)
         == Ok(if m == 0x05 then Null else if m == 0x06 then Undefined else Unsupported, tail, refs)
  {
    hide Decode;
    DecodeContainer(m, tail, depth, refs, show);
  }

  lemma ReferenceDecodes(index: u16, depth: nat, refs: Refs, show: ShowDouble, tail: seq<byte>)
    requires depth < MAX_DEPTH
    ensures Decode([0x07] + BE(2, index) + tail, depth, refs, show)
         == if index < |refs| then Ok(refs[index], tail, refs) else Bad
  {
    hide Decode, BE, UnBE, TakeBE;
    Widths();
    Assoc3([0x07], BE(2, index), tail);
    DecodeContainer(0x07, BE(2, index) + tail, depth, refs, show);
    TakeBEPrefix(2, index, tail);
  }

  lemma {:induction false} PropsDecode(parts: seq<Part>, depth: nat, refs: Refs, show: ShowDouble, tail: seq<byte>)
    requires NamesOk(parts) && LinkedParts(parts, refs) && NoSwitchInParts(parts) && depth + HeightOfParts(parts) <= MAX_DEPTH
    ensures DecodeProps(SpellProps(parts) + (OBJECT_END + tail), depth, refs, show)
         == Ok(PropsOf(parts), tail, refs + SlotsOfParts(parts))
    decreases parts, 0
  {
    hide Decode, ReadText, ShortText, ValidUtf8, Linked, NoSwitch, Spell, Slots, Height;
    if parts == [] {
      assert SpellProps(parts) + (OBJECT_END + tail) == OBJECT_END + tail && refs + [] == refs;
      EmptyKeyRead(tail);
    } else {
      var p, more := parts[0], parts[1..];
      assert p.node < p;
      var rest2 := SpellProps(more) + (OBJECT_END + tail);
      var rest1 := Spell(p.node) + rest2;
      Assoc4(ShortText(p.name), Spell(p.node), SpellProps(more), OBJECT_END + tail);
      Assoc3(ShortText(p.name), Spell(p.node), SpellProps(more));
      ShortTextRead(p.name, rest1);
      TreeDecodes(p.node, depth, refs, show, rest2);
      PropsDecode(more, depth, refs + Slots(p.node), show, tail);
      Assoc3(refs, Slots(p.node), SlotsOfParts(more));
      assert [Prop(p.name, p.node.value)] + PropsOf(more) == PropsOf(parts);
    }
  }

  lemma {:induction false} ItemsDecode(parts: seq<Part>, depth: nat, refs: Refs, show: ShowDouble, tail: seq<byte>)
    requires LinkedParts(parts, refs) && NoSwitchInParts(parts) && depth + HeightOfParts(parts) <= MAX_DEPTH
    ensures DecodeAll(|parts|, SpellItems(parts) + tail, depth, refs, show) == Ok(ItemsOf(parts), tail, refs + SlotsOfParts(parts))
    decreases parts, 0
  {
    hide Decode, Linked, NoSwitch, Spell, Slots, Height;
    if parts == [] {
      assert SpellItems(parts) + tail == tail && refs + [] == refs;
    } else {
      var p, more := parts[0], parts[1..];
      assert p.node < p;
      Assoc3(Spell(p.node), SpellItems(more), tail);
      TreeDecodes(p.node, depth, refs, show, SpellItems(more) + tail);
      ItemsDecode(more, depth, refs + Slots(p.node), show, tail);
      Assoc3(refs, Slots(p.node), SlotsOfParts(more));
      assert [p.node.value] + ItemsOf(more) == ItemsOf(parts);
    }
  }

  lemma GroupDecodes(n: Node, depth: nat, refs: Refs, show: ShowDouble, tail: seq<byte>)
    requires n.Group? && Linked(n, refs) && NoSwitch(n) && depth + Height(n) <= MAX_DEPTH
    ensures Decode(Spell(n) + tail, depth, refs, show) == Ok(n.value, tail, refs + Slots(n))
    decreases n, 0
  {
    hide Decode, DecodeProps, DecodeAll, ReadText, ShortText, ValidUtf8, BE, UnBE, TakeBE, Filled, LinkedParts, NoSwitchInParts,
      SpellProps, SpellItems, SlotsOfParts, HeightOfParts, PropsOf, ItemsOf;
    var v, parts, end := n.value, n.parts, OBJECT_END + tail;
    var refs1 := refs + [Hollow(v)];
    SlotFilled(refs, Hollow(v), SlotsOfParts(parts), v);
    Widths();
    if v.StrictArray? {
      var x := SpellItems(parts) + tail;
      Assoc4([0x0A], BE(4, |parts|), SpellItems(parts), tail);
      DecodeContainer(0x0A, BE(4, |parts|) + x, depth, refs, show);
      TakeBEPrefix(4, |parts|, x);
      ItemsDecode(parts, depth + 1, refs1, show, tail);
    } else {
      var x := SpellProps(parts) + end;
      PropsDecode(parts, depth + 1, refs1, show, tail);
      Assoc3(n.head, SpellProps(parts) + OBJECT_END, tail);
      Assoc3(SpellProps(parts), OBJECT_END, tail);
      match v {
        case Object(_) => DecodeContainer(0x03, x, depth, refs, show);
        case EcmaArray(_) =>
          var count := n.head[1..];
          assert n.head + x == [0x08] + (count + x);
          DecodeContainer(0x08, count + x, depth, refs, show);
          CountTaken(count, x);
        case TypedObject(name, _) =>
          Assoc3([0x10], ShortText(name), x);
          DecodeContainer(0x10, ShortText(name) + x, depth, refs, show);
          ShortTextRead(name, x);
      }
    }
  }

  lemma CountTaken(count: seq<byte>, x: seq<byte>)
    requires |count| == 4
    ensures TakeBE(count + x, 4).Got? && TakeBE(count + x, 4).rest == x
  {
    hide UnBE;
    TakePrefix(count, x);
  }

  /** Whatever a tree stands for is decoded from its octets: its value, exactly its octets, its slots
      added to the table. */
  lemma {:induction false} TreeDecodes(n: Node, depth: nat, refs: Refs, show: ShowDouble, tail: seq<byte>)
    requires Linked(n, refs) && NoSwitch(n) && depth + Height(n) <= MAX_DEPTH
    ensures Decode(Spell(n) + tail, depth, refs, show) == Ok(n.value, tail, refs + Slots(n))
    decreases n, 1
  {
    match n {
      case Leaf(octets, v) =>
        hide OneScalar, WellFormed, Decode, Nesting;
        ScalarDecodes(octets, v, depth, refs, show, tail);
        assert refs + [] == refs;
      case Ref(index, v) =>
        ReferenceDecodes(index, depth, refs, show, tail);
        assert refs + [] == refs;
      case Group(_, _, _) =>
        GroupDecodes(n, depth, refs, show, tail);
    }
  }
}
