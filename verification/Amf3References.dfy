/** Whatever the AMF 3 decoder accepts is a tree: so the string table grows by the literal strings met,
    in order, the object and traits tables likewise, and a reference means what stands at its index. */
module Amf3References {
  import opened Bytes
  import opened Text
  import opened Amf3Model
  import opened Amf3RoundTrip
  import opened Amf3Trees

  /** The outcome of decoding, described by a tree. */
  ghost predicate Describes(n: Node, w: seq<byte>, depth: nat, t: Tables, r: Dec<Value>) {
    && r.Ok? && ValueOf(n) == r.value
    && w == Spell(n) + r.rest
    && Linked(n, depth, t)
    && r.t == Plus(t, Adds(n))
  }

  // --------------------------------------------------------------------- headers

  /** The header at the front of `w`. */
  lemma HeadTaken(w: seq<byte>) returns (head: seq<byte>)
    requires ReadU29(w).Got?
    ensures IsHead(head) && HeadOf(head) == ReadU29(w).value && w == head + ReadU29(w).rest
  {
    var r := ReadU29(w);
    head := w[..|w| - |r.rest|];
    if |head| == 1 {
      assert w == [w[0]] + w[1..];
      ReadU29One(w[0], []);
      assert head == [w[0]] + [];
    } else if |head| == 2 {
      assert w == [w[0], w[1]] + w[2..];
      ReadU29Two(w[0], w[1], []);
      assert head == [w[0], w[1]] + [];
    } else if |head| == 3 {
      assert w == [w[0], w[1], w[2]] + w[3..];
      ReadU29Three(w[0], w[1], w[2], []);
      assert head == [w[0], w[1], w[2]] + [];
    } else {
      assert w == [w[0], w[1], w[2], w[3]] + w[4..];
      ReadU29Four(w[0], w[1], w[2], w[3], []);
      assert head == [w[0], w[1], w[2], w[3]] + [];
    }
  }

  lemma WordDescribed(w: seq<byte>, t: Tables) returns (word: Word)
    requires ReadString(w, t).Ok?
    ensures var r := ReadString(w, t);
            && WordLinked(word, t) && word.text == r.value && w == SpellWord(word) + r.rest && r.t == Plus(t, AddsWord(word))
  {
    hide ReadU29, ValidUtf8, IsHead, HeadOf;
    var head := HeadTaken(w);
    word := Word(head, ReadString(w, t).value);
    PlusNone(t);
    if HeadOf(head) % 2 == 1 {
      Assoc3(head, word.text, ReadString(w, t).rest);
      assert t.objects + [] == t.objects && t.traits + [] == t.traits;
    } else {
      assert head + [] == head;
    }
  }

  lemma {:induction false} WordsDescribed(count: nat, w: seq<byte>, t: Tables) returns (ws: seq<Word>)
    requires ReadNames(count, w, t).Ok?
    ensures var r := ReadNames(count, w, t);
            && |ws| == count && WordsLinked(ws, t) && TextsOf(ws) == r.value
            && w == SpellWords(ws) + r.rest && r.t == Plus(t, AddsWords(ws))
    decreases count
  {
    hide ReadString, WordLinked, SpellWord, AddsWord, Plus;
    PlusNone(t);
    if count == 0 {
      ws := [];
      assert [] + w == w;
    } else {
      var s := ReadString(w, t);
      var word := WordDescribed(w, t);
      var more := WordsDescribed(count - 1, s.rest, s.t);
      ws := [word] + more;
      assert ws[0] == word && ws[1..] == more;
      Assoc3(SpellWord(word), SpellWords(more), ReadNames(count, w, t).rest);
      PlusAssoc(t, AddsWord(word), AddsWords(more));
    }
  }

  lemma TraitsDescribed(h: nat, w: seq<byte>, t: Tables) returns (inline: Option<Inline>)
    requires h % 2 == 1 && ReadTraits(h, w, t).Ok?
    ensures var r := ReadTraits(h, w, t);
            && TraitsLinked(h, inline, r.value, t) && w == SpellInline(inline) + r.rest && r.t == Plus(t, AddsInline(inline, r.value))
  {
    hide ReadString, ReadNames, WordLinked, WordsLinked, SpellWord, SpellWords, AddsWord, AddsWords, TextsOf;
    if h / 2 % 2 == 0 {
      inline := None;
      PlusNone(t);
      assert [] + w == w;
    } else {
      var s := ReadString(w, t);
      var ns := ReadNames(h / 16, s.rest, s.t);
      var name := WordDescribed(w, t);
      var names := WordsDescribed(h / 16, s.rest, s.t);
      inline := Some(Inline(name, names));
      var def := ReadTraits(h, w, t).value;
      Assoc3(SpellWord(name), SpellWords(names), ns.rest);
      assert ns.t.(traits := ns.t.traits + [def]) == Plus(ns.t, OneTraits(def));
      PlusAssoc(t, AddsWord(name), AddsWords(names));
      PlusAssoc(t, Plus(AddsWord(name), AddsWords(names)), OneTraits(def));
      PlusAssoc(AddsWord(name), AddsWords(names), OneTraits(def));
    }
  }

  // ----------------------------------------------------------------------- lists

  lemma {:induction false} NodesDescribed(count: nat, w: seq<byte>, depth: nat, t: Tables) returns (ns: seq<Node>)
    requires DecodeAll(count, w, depth, t).Ok?
    ensures var r := DecodeAll(count, w, depth, t);
            && |ns| == count && NodesLinked(ns, depth, t) && ValuesIn(ns) == r.value
            && w == SpellNodes(ns) + r.rest && r.t == Plus(t, AddsNodes(ns))
    decreases |w|, 1
  {
    hide Decode, Linked, Spell, ValueOf, Adds, Plus;
    PlusNone(t);
    if count == 0 {
      ns := [];
      assert [] + w == w;
    } else {
      var d := Decode(w, depth, t);
      var n := Described(w, depth, t);
      var more := NodesDescribed(count - 1, d.rest, depth, d.t);
      ns := [n] + more;
      assert ns[0] == n && ns[1..] == more;
      Assoc3(Spell(n), SpellNodes(more), DecodeAll(count, w, depth, t).rest);
      PlusAssoc(t, Adds(n), AddsNodes(more));
    }
  }

  lemma {:induction false} PairsDescribed(count: nat, w: seq<byte>, depth: nat, t: Tables) returns (ns: seq<Node>)
    requires DecodeEntries(count, w, depth, t).Ok?
    ensures var r := DecodeEntries(count, w, depth, t);
            && |ns| == 2 * count && NodesLinked(ns, depth, t) && Paired(ValuesIn(ns)) == r.value
            && w == SpellNodes(ns) + r.rest && r.t == Plus(t, AddsNodes(ns))
    decreases |w|, 1
  {
    hide Decode, Linked, Spell, ValueOf, Adds, Plus;
    PlusNone(t);
    if count == 0 {
      ns := [];
      assert [] + w == w;
    } else {
      var d := Decode(w, depth, t);
      var e := Decode(d.rest, depth, d.t);
      var a := Described(w, depth, t);
      var b := Described(d.rest, depth, d.t);
      var more := PairsDescribed(count - 1, e.rest, depth, e.t);
      ns := PairInFront(a, b, more, depth, t);
      var rest := DecodeEntries(count, w, depth, t).rest;
      Assoc3(Spell(b), SpellNodes(more), rest);
      Assoc3(Spell(a), Spell(b) + SpellNodes(more), rest);
    }
  }

  lemma PairInFront(a: Node, b: Node, more: seq<Node>, depth: nat, t: Tables) returns (ns: seq<Node>)
    requires Linked(a, depth, t) && Linked(b, depth, Plus(t, Adds(a)))
    requires NodesLinked(more, depth, Plus(Plus(t, Adds(a)), Adds(b)))
    ensures ns == [a, b] + more && NodesLinked(ns, depth, t)
    ensures ValuesIn(ns) == [ValueOf(a), ValueOf(b)] + ValuesIn(more)
    ensures Paired(ValuesIn(ns)) == [Entry(ValueOf(a), ValueOf(b))] + Paired(ValuesIn(more))
    ensures SpellNodes(ns) == Spell(a) + (Spell(b) + SpellNodes(more))
    ensures Plus(t, AddsNodes(ns)) == Plus(Plus(Plus(t, Adds(a)), Adds(b)), AddsNodes(more))
  {
    hide Linked, Spell, ValueOf, Adds, Plus;
    ns := [a, b] + more;
    var tail := [b] + more;
    assert ns[0] == a && ns[1..] == tail && tail[0] == b && tail[1..] == more;
    assert NodesLinked(tail, depth, Plus(t, Adds(a)));
    assert ValuesIn(tail) == [ValueOf(b)] + ValuesIn(more);
    assert ValuesIn(ns)[2..] == ValuesIn(more);
    PlusAssoc(Plus(t, Adds(a)), Adds(b), AddsNodes(more));
    PlusAssoc(t, Adds(a), Plus(Adds(b), AddsNodes(more)));
  }

  lemma {:induction false} NamedDescribed(w: seq<byte>, depth: nat, t: Tables) returns (ms: seq<Named>, end: Word)
    requires DecodeMembers(w, depth, t).Ok?
    ensures var r := DecodeMembers(w, depth, t);
            && NamedLinked(ms, depth, t) && EndLinked(end, Plus(t, AddsNamed(ms))) && MembersIn(ms) == r.value
            && w == SpellNamed(ms) + (SpellWord(end) + r.rest) && r.t == Plus(Plus(t, AddsNamed(ms)), AddsWord(end))
    decreases |w|, 1
  {
    hide Decode, Linked, Spell, ValueOf, Adds, Plus, ReadString, WordLinked, SpellWord, AddsWord;
    PlusNone(t);
    var k := ReadString(w, t);
    var word := WordDescribed(w, t);
    if k.value == [] {
      ms, end := [], word;
      assert [] + (SpellWord(end) + k.rest) == SpellWord(end) + k.rest;
    } else {
      var d := Decode(k.rest, depth, k.t);
      var n := Described(k.rest, depth, k.t);
      var more, last := NamedDescribed(d.rest, depth, d.t);
      end := last;
      var m := Named(word, n);
      ms := [m] + more;
      assert ms[0] == m && ms[1..] == more && m.node < m;
      var rest := SpellWord(end) + DecodeMembers(w, depth, t).rest;
      Assoc3(Spell(n), SpellNamed(more), rest);
      Assoc3(SpellWord(word), Spell(n) + SpellNamed(more), rest);
      PlusAssoc(k.t, Adds(n), AddsNamed(more));
      PlusAssoc(t, AddsWord(word), Plus(Adds(n), AddsNamed(more)));
    }
  }

  // ------------------------------------------------------------------- by marker

  lemma AtomDescribed(m: byte, x: seq<byte>, depth: nat, t: Tables) returns (n: Node)
    requires depth < MAX_DEPTH && m <= 0x05 && Decode([m] + x, depth, t).Ok?
    ensures Describes(n, [m] + x, depth, t, Decode([m] + x, depth, t))
  {
    hide Decode, ReadU29, IsHead, HeadOf, BE, UnBE;
    Widths();
    PlusNone(t);
    DecodeMarkerPlain(m, x, depth, t);
    var r := Decode([m] + x, depth, t);
    var octets: seq<byte> := [];
    if m == 0x04 {
      octets := HeadTaken(x);
    } else if m == 0x05 {
      octets := x[..8];
      BEInvertsUnBE(x[..8]);
      assert x == x[..8] + x[8..];
    } else {
      assert [] + x == x;
    }
    n := Atom(m, octets, r.value);
    Assoc3([m], octets, r.rest);
  }

  lemma TextDescribed(x: seq<byte>, depth: nat, t: Tables) returns (n: Node)
    requires depth < MAX_DEPTH && Decode([0x06] + x, depth, t).Ok?
    ensures Describes(n, [0x06] + x, depth, t, Decode([0x06] + x, depth, t))
  {
    hide Decode, ReadString, WordLinked, SpellWord, AddsWord, Plus;
    DecodeMarkerText(0x06, x, depth, t);
    var word := WordDescribed(x, t);
    n := Text(word);
    Assoc3([0x06], SpellWord(word), Decode([0x06] + x, depth, t).rest);
  }

  /** An even header: a reference. */
  lemma BackOutcome(m: byte, x: seq<byte>, depth: nat, t: Tables)
    requires depth < MAX_DEPTH && 0x07 <= m <= 0x11 && Decode([m] + x, depth, t).Ok?
    requires ReadU29(x).Got? && ReadU29(x).value % 2 == 0
    ensures var r := Decode([m] + x, depth, t);
            var i := ReadU29(x).value / 2;
            && i < |t.objects| && r.rest == ReadU29(x).rest && r.t == t
            && (if m == 0x07 || m == 0x0B then
                  && (t.objects[i].Xml? || t.objects[i].XmlDocument?)
                  && r.value == (if m == 0x07 then XmlDocument(t.objects[i].text) else Xml(t.objects[i].text))
                else r.value == t.objects[i])
  {
    hide Decode, ReadU29;
    DecodeMarker(m, x, depth, t);
    DecodeMarkerText(m, x, depth, t);
    BackMeans(x, depth + 1, t);
  }

  lemma BackDescribed(m: byte, x: seq<byte>, depth: nat, t: Tables) returns (n: Node)
    requires depth < MAX_DEPTH && 0x07 <= m <= 0x11 && Decode([m] + x, depth, t).Ok?
    requires ReadU29(x).Got? && ReadU29(x).value % 2 == 0
    ensures Describes(n, [m] + x, depth, t, Decode([m] + x, depth, t))
  {
    hide Decode, ReadU29, HeadOf, Plus;
    BackOutcome(m, x, depth, t);
    var head := HeadTaken(x);
    PlusNone(t);
    n := Back(m, head, ReadU29(x).value / 2, Decode([m] + x, depth, t).value);
    Assoc3([m], head, ReadU29(x).rest);
  }

  /** What every reader makes of an even header. */
  lemma BackMeans(w: seq<byte>, depth: nat, t: Tables)
    requires ReadU29(w).Got? && ReadU29(w).value % 2 == 0
    ensures var (i, rest) := (ReadU29(w).value / 2, ReadU29(w).rest);
            var r := if i < |t.objects| then Ok(t.objects[i], rest, t) else Bad;
            && ReadDate(w, t) == r && ReadByteArray(w, t) == r && ReadVectorInt(w, t) == r && ReadVectorUInt(w, t) == r
            && ReadVectorDouble(w, t) == r && ReadArray(w, depth, t) == r && ReadObject(w, depth, t) == r
            && ReadVectorObject(w, depth, t) == r && ReadDictionary(w, depth, t) == r
            && ReadXmlText(w, t) == (if i < |t.objects| && (t.objects[i].Xml? || t.objects[i].XmlDocument?)
                                     then Ok(t.objects[i].text, rest, t) else Bad)
  {
    hide ReadU29;
  }

  lemma NeedsHead(m: byte, x: seq<byte>, depth: nat, t: Tables)
    requires depth < MAX_DEPTH && 0x07 <= m && Decode([m] + x, depth, t).Ok?
    ensures m <= 0x11 && ReadU29(x).Got?
  {
    hide Decode, ReadU29;
    DecodeMarker(m, x, depth, t);
    DecodeMarkerText(m, x, depth, t);
    UnknownBad(m, x, depth, t);
  }

  lemma UnknownBad(m: byte, x: seq<byte>, depth: nat, t: Tables)
    ensures m > 0x11 ==> Decode([m] + x, depth, t) == Bad
  {
  }

  lemma {:induction false} U32sTaken(count: nat, w: seq<byte>)
    requires ReadU32s(count, w).Got?
    ensures w == Words(4, ReadU32s(count, w).value) + ReadU32s(count, w).rest
    decreases count
  {
    hide BE, UnBE;
    if count > 0 {
      var g := TakeBE(w, 4);
      var more := ReadU32s(count - 1, g.rest);
      U32sTaken(count - 1, g.rest);
      BEInvertsUnBE(w[..4]);
      assert w == w[..4] + w[4..];
      assert ReadU32s(count, w).value[1..] == more.value;
      Assoc3(w[..4], Words(4, more.value), more.rest);
    }
  }

  lemma {:induction false} U64sTaken(count: nat, w: seq<byte>)
    requires ReadU64s(count, w).Got?
    ensures w == Words(8, ReadU64s(count, w).value) + ReadU64s(count, w).rest
    decreases count
  {
    hide BE, UnBE;
    if count > 0 {
      var g := TakeBE(w, 8);
      var more := ReadU64s(count - 1, g.rest);
      U64sTaken(count - 1, g.rest);
      BEInvertsUnBE(w[..8]);
      assert w == w[..8] + w[8..];
      assert ReadU64s(count, w).value[1..] == more.value;
      Assoc3(w[..8], Words(8, more.value), more.rest);
    }
  }

  lemma UnsignedBack(vs: seq<u32>)
    ensures AsU32s(AsI32s(vs)) == vs
  {
  }

  /** What stands between a header and what is left over. */
  function Between(w1: seq<byte>, rest: seq<byte>): seq<byte> {
    if |rest| <= |w1| then w1[..|w1| - |rest|] else []
  }

  lemma XmlTextTaken(x: seq<byte>, t: Tables)
    requires ReadXmlText(x, t).Ok? && ReadU29(x).value % 2 == 1
    ensures var r := ReadXmlText(x, t);
            && ReadU29(x).Got? && |r.value| == ReadU29(x).value / 2 && ValidUtf8(r.value)
            && ReadU29(x).rest == r.value + r.rest && r.t == Pushed(t, XmlDocument(r.value))
  {
    hide ReadU29, ValidUtf8;
  }

  /** The body of a text, behind an odd header. */
  lemma XmlBodyTaken(m: byte, x: seq<byte>, depth: nat, t: Tables)
    requires depth < MAX_DEPTH && m in {0x07, 0x0B} && Decode([m] + x, depth, t).Ok?
    requires ReadU29(x).Got? && ReadU29(x).value % 2 == 1
    ensures var r := Decode([m] + x, depth, t);
            var (h, w1) := (ReadU29(x).value, ReadU29(x).rest);
            var body := Between(w1, r.rest);
            && FlatBody(m, h, body, r.value) && w1 == body + r.rest
            && r.t == Pushed(t, if r.value.Xml? then XmlDocument(r.value.text) else r.value)
  {
    hide Decode, ReadU29, ValidUtf8, ReadXmlText, Pushed;
    DecodeMarkerText(m, x, depth, t);
    XmlTextTaken(x, t);
    var text := ReadXmlText(x, t).value;
    SplitAt(text, ReadXmlText(x, t).rest);
  }

  /** The body of a date or a byte array. */
  lemma PlainBodyTaken(m: byte, x: seq<byte>, depth: nat, t: Tables)
    requires depth < MAX_DEPTH && m in {0x08, 0x0C} && Decode([m] + x, depth, t).Ok?
    requires ReadU29(x).Got? && ReadU29(x).value % 2 == 1
    ensures var r := Decode([m] + x, depth, t);
            var (h, w1) := (ReadU29(x).value, ReadU29(x).rest);
            var body := Between(w1, r.rest);
            && FlatBody(m, h, body, r.value) && w1 == body + r.rest && r.t == Pushed(t, r.value) && !r.value.Xml?
  {
    hide Decode, ReadU29, BE, UnBE;
    Widths();
    DecodeMarker(m, x, depth, t);
    var w1 := ReadU29(x).rest;
    if m == 0x08 {
      BEInvertsUnBE(w1[..8]);
    }
  }

  /** The body of a vector of numbers: an octet, then the numbers. */
  lemma VectorBodyTaken(m: byte, x: seq<byte>, depth: nat, t: Tables)
    requires depth < MAX_DEPTH && m in {0x0D, 0x0E, 0x0F} && Decode([m] + x, depth, t).Ok?
    requires ReadU29(x).Got? && ReadU29(x).value % 2 == 1
    ensures var r := Decode([m] + x, depth, t);
            var (h, w1) := (ReadU29(x).value, ReadU29(x).rest);
            var body := Between(w1, r.rest);
            && FlatBody(m, h, body, r.value) && w1 == body + r.rest && r.t == Pushed(t, r.value)
  {
    hide Decode, ReadU29, Words, ReadU32s, ReadU64s;
    DecodeMarker(m, x, depth, t);
    var r := Decode([m] + x, depth, t);
    var h, w1 := ReadU29(x).value, ReadU29(x).rest;
    var w2 := w1[1..];
    assert w1 == [w1[0]] + w2;
    if m == 0x0F {
      U64sTaken(h / 2, w2);
      NumbersBetween(w1[0], Words(8, ReadU64s(h / 2, w2).value), r.rest);
    } else {
      U32sTaken(h / 2, w2);
      UnsignedBack(ReadU32s(h / 2, w2).value);
      NumbersBetween(w1[0], Words(4, ReadU32s(h / 2, w2).value), r.rest);
    }
  }

  lemma NumbersBetween(fixed: byte, words: seq<byte>, rest: seq<byte>)
    ensures var w1 := [fixed] + (words + rest);
            && Between(w1, rest) == [fixed] + words && w1 == Between(w1, rest) + rest && Between(w1, rest)[1..] == words
  {
    Assoc3([fixed], words, rest);
    SplitAt([fixed] + words, rest);
  }

  lemma FlatDescribed(m: byte, x: seq<byte>, depth: nat, t: Tables) returns (n: Node)
    requires depth < MAX_DEPTH && m in {0x07, 0x08, 0x0B, 0x0C, 0x0D, 0x0E, 0x0F} && Decode([m] + x, depth, t).Ok?
    requires ReadU29(x).Got? && ReadU29(x).value % 2 == 1
    ensures Describes(n, [m] + x, depth, t, Decode([m] + x, depth, t))
  {
    hide Decode, ReadU29, IsHead, HeadOf, FlatBody, Plus, Pushed, Between;
    var head := HeadTaken(x);
    var r := Decode([m] + x, depth, t);
    var body := Between(ReadU29(x).rest, r.rest);
    if m in {0x07, 0x0B} {
      XmlBodyTaken(m, x, depth, t);
    } else if m in {0x08, 0x0C} {
      PlainBodyTaken(m, x, depth, t);
    } else {
      VectorBodyTaken(m, x, depth, t);
      NumbersAreNotXml(m, HeadOf(head), body, r.value);
    }
    PushedPlus(t, if r.value.Xml? then XmlDocument(r.value.text) else r.value);
    n := Flat(m, head + body, r.value);
    Assoc3(head, body, r.rest);
    Assoc3([m], head + body, r.rest);
  }

  lemma NumbersAreNotXml(m: byte, h: nat, body: seq<byte>, v: Value)
    requires m in {0x0D, 0x0E, 0x0F} && FlatBody(m, h, body, v)
    ensures !v.Xml?
  {
  }

  lemma ArrayDescribed(x: seq<byte>, depth: nat, t: Tables) returns (n: Node)
    requires depth < MAX_DEPTH && Decode([0x09] + x, depth, t).Ok? && ReadU29(x).Got? && ReadU29(x).value % 2 == 1
    ensures Describes(n, [0x09] + x, depth, t, Decode([0x09] + x, depth, t))
    decreases |x|, 2
  {
    hide Decode, DecodeMembers, DecodeAll, ReadU29, IsHead, HeadOf, SpellNamed, SpellNodes, SpellWord, NamedLinked, NodesLinked, EndLinked,
      ValuesIn, MembersIn, AddsNamed, AddsWord, AddsNodes, Plus, Filled, Pushed;
    DecodeMarker(0x09, x, depth, t);
    var h := ReadU29(x);
    var head := HeadTaken(x);
    PushedPlus(t, Null);
    var t1 := Plus(t, OneObject(Null));
    var r1 := DecodeMembers(h.rest, depth + 1, t1);
    var assoc, end := NamedDescribed(h.rest, depth + 1, t1);
    var r2 := DecodeAll(h.value / 2, r1.rest, depth + 1, r1.t);
    var dense := NodesDescribed(h.value / 2, r1.rest, depth + 1, r1.t);
    n := ArrayNode(head, assoc, end, dense);
    var t2 := Plus(t1, AddsNamed(assoc));
    PlusAssoc(t2, AddsWord(end), AddsNodes(dense));
    PlusAssoc(t1, AddsNamed(assoc), Plus(AddsWord(end), AddsNodes(dense)));
    FilledPlus(t, Plus(AddsNamed(assoc), Plus(AddsWord(end), AddsNodes(dense))), ValueOf(n));
    Assoc3([0x09], head + (SpellNamed(assoc) + (SpellWord(end) + SpellNodes(dense))), r2.rest);
    Assoc3(head, SpellNamed(assoc) + (SpellWord(end) + SpellNodes(dense)), r2.rest);
    Assoc3(SpellNamed(assoc), SpellWord(end) + SpellNodes(dense), r2.rest);
    Assoc3(SpellWord(end), SpellNodes(dense), r2.rest);
  }

  /** The dynamic members, or none. */
  lemma MembersDescribed(dynamic: bool, w: seq<byte>, depth: nat, t: Tables) returns (ms: seq<Named>, close: Option<Word>)
    requires dynamic ==> DecodeMembers(w, depth, t).Ok?
    ensures var r := if dynamic then DecodeMembers(w, depth, t) else Ok([], w, t);
            && (close.Some? <==> dynamic) && (!dynamic ==> ms == [])
            && NamedLinked(ms, depth, t) && (close.Some? ==> EndLinked(close.value, Plus(t, AddsNamed(ms))))
            && MembersIn(ms) == r.value && w == SpellNamed(ms) + (SpellEnd(close) + r.rest)
            && r.t == Plus(t, Plus(AddsNamed(ms), AddsEnd(close)))
    decreases |w|, 3
  {
    hide DecodeMembers, SpellWord, EndLinked, AddsWord, Plus;
    PlusNone(t);
    PlusNone(NO_TABLES);
    if dynamic {
      var named, end := NamedDescribed(w, depth, t);
      ms, close := named, Some(end);
      PlusAssoc(t, AddsNamed(ms), AddsWord(end));
    } else {
      ms, close := [], None;
      assert [] + ([] + w) == w;
    }
  }

  lemma ObjectDescribed(x: seq<byte>, depth: nat, t: Tables) returns (n: Node)
    requires depth < MAX_DEPTH && Decode([0x0A] + x, depth, t).Ok? && ReadU29(x).Got? && ReadU29(x).value % 2 == 1
    ensures Describes(n, [0x0A] + x, depth, t, Decode([0x0A] + x, depth, t))
    decreases |x|, 2
  {
    hide Decode, DecodeMembers, DecodeAll, ReadU29, ReadTraits, IsHead, HeadOf, SpellNamed, SpellNodes, SpellInline, SpellEnd, NamedLinked,
      NodesLinked, TraitsLinked, EndLinked, ValuesIn, MembersIn, AddsNamed, AddsInline, AddsEnd, AddsNodes, Plus, Filled, Pushed, Zip,
      NamedBy;
    DecodeMarker(0x0A, x, depth, t);
    var h := ReadU29(x);
    var head := HeadTaken(x);
    var r0 := ReadTraits(h.value, h.rest, t);
    var def := r0.value;
    var inline := TraitsDescribed(h.value, h.rest, t);
    var t0 := Plus(t, AddsInline(inline, def));
    PushedPlus(t0, Null);
    var t1 := Plus(t0, OneObject(Null));
    var r1 := DecodeAll(|def.names|, r0.rest, depth + 1, t1);
    var sealed := NodesDescribed(|def.names|, r0.rest, depth + 1, t1);
    var members, close := MembersDescribed(def.dynamic, r1.rest, depth + 1, r1.t);
    n := ObjectNode(head, inline, def, sealed, members, close);
    var rest := Decode([0x0A] + x, depth, t).rest;
    NamedZip(def.names, ValuesIn(sealed));
    var a := Plus(AddsNodes(sealed), Plus(AddsNamed(members), AddsEnd(close)));
    PlusAssoc(t1, AddsNodes(sealed), Plus(AddsNamed(members), AddsEnd(close)));
    FilledPlus(t0, a, ValueOf(n));
    PlusAssoc(t, AddsInline(inline, def), Plus(OneObject(ValueOf(n)), a));
    var y := SpellNodes(sealed) + (SpellNamed(members) + SpellEnd(close));
    Assoc3([0x0A], head + (SpellInline(inline) + y), rest);
    Assoc3(head, SpellInline(inline) + y, rest);
    Assoc3(SpellInline(inline), y, rest);
    Assoc3(SpellNodes(sealed), SpellNamed(members) + SpellEnd(close), rest);
    Assoc3(SpellNamed(members), SpellEnd(close), rest);
  }

  lemma VectorObjectDescribed(x: seq<byte>, depth: nat, t: Tables) returns (n: Node)
    requires depth < MAX_DEPTH && Decode([0x10] + x, depth, t).Ok? && ReadU29(x).Got? && ReadU29(x).value % 2 == 1
    ensures Describes(n, [0x10] + x, depth, t, Decode([0x10] + x, depth, t))
    decreases |x|, 2
  {
    hide Decode, DecodeAll, ReadU29, ReadString, IsHead, HeadOf, SpellNodes, SpellWord, WordLinked, NodesLinked, ValuesIn, AddsWord,
      AddsNodes, Plus, Filled, Pushed;
    DecodeMarker(0x10, x, depth, t);
    var h := ReadU29(x);
    var head := HeadTaken(x);
    var fixed, w2 := h.rest[0], h.rest[1..];
    var r0 := ReadString(w2, t);
    var typeName := WordDescribed(w2, t);
    var t0 := Plus(t, AddsWord(typeName));
    PushedPlus(t0, Null);
    WordAddsNoObject(typeName, t);
    var t1 := Plus(t0, OneObject(Null));
    var items := NodesDescribed(h.value / 2, r0.rest, depth + 1, t1);
    n := VectorNode(head, fixed, typeName, items);
    var rest := Decode([0x10] + x, depth, t).rest;
    FilledPlus(t0, AddsNodes(items), ValueOf(n));
    PlusAssoc(t, AddsWord(typeName), Plus(OneObject(ValueOf(n)), AddsNodes(items)));
    assert h.rest == [fixed] + w2;
    Assoc3([0x10], head + ([fixed] + (SpellWord(typeName) + SpellNodes(items))), rest);
    Assoc3(head, [fixed] + (SpellWord(typeName) + SpellNodes(items)), rest);
    Assoc3([fixed], SpellWord(typeName) + SpellNodes(items), rest);
    Assoc3(SpellWord(typeName), SpellNodes(items), rest);
  }

  lemma DictionaryDescribed(x: seq<byte>, depth: nat, t: Tables) returns (n: Node)
    requires depth < MAX_DEPTH && Decode([0x11] + x, depth, t).Ok? && ReadU29(x).Got? && ReadU29(x).value % 2 == 1
    ensures Describes(n, [0x11] + x, depth, t, Decode([0x11] + x, depth, t))
    decreases |x|, 2
  {
    hide Decode, DecodeEntries, ReadU29, IsHead, HeadOf, SpellNodes, NodesLinked, ValuesIn, AddsNodes, Plus, Filled, Pushed, Paired;
    DecodeMarker(0x11, x, depth, t);
    var h := ReadU29(x);
    var head := HeadTaken(x);
    var weak, w2 := h.rest[0], h.rest[1..];
    PushedPlus(t, Null);
    var entries := PairsDescribed(h.value / 2, w2, depth + 1, Plus(t, OneObject(Null)));
    n := DictionaryNode(head, weak, entries);
    var rest := Decode([0x11] + x, depth, t).rest;
    FilledPlus(t, AddsNodes(entries), ValueOf(n));
    assert h.rest == [weak] + w2;
    Assoc3([0x11], head + ([weak] + SpellNodes(entries)), rest);
    Assoc3(head, [weak] + SpellNodes(entries), rest);
    Assoc3([weak], SpellNodes(entries), rest);
  }

  lemma BehindMarker(m: byte, x: seq<byte>, depth: nat, t: Tables) returns (n: Node)
    requires depth < MAX_DEPTH && Decode([m] + x, depth, t).Ok?
    ensures Describes(n, [m] + x, depth, t, Decode([m] + x, depth, t))
    decreases |x|, 3
  {
    hide Decode, Describes, ReadU29;
    if m <= 0x05 {
      n := AtomDescribed(m, x, depth, t);
    } else if m == 0x06 {
      n := TextDescribed(x, depth, t);
    } else {
      NeedsHead(m, x, depth, t);
      if ReadU29(x).value % 2 == 0 {
        n := BackDescribed(m, x, depth, t);
      } else if m == 0x09 {
        n := ArrayDescribed(x, depth, t);
      } else if m == 0x0A {
        n := ObjectDescribed(x, depth, t);
      } else if m == 0x10 {
        n := VectorObjectDescribed(x, depth, t);
      } else if m == 0x11 {
        n := DictionaryDescribed(x, depth, t);
      } else {
        n := FlatDescribed(m, x, depth, t);
      }
    }
  }

  /** Whatever decodes is a tree: it spells exactly the octets consumed, stands for the value, and what
      it adds is what the tables grew by. */
  lemma {:induction false} Described(w: seq<byte>, depth: nat, t: Tables) returns (n: Node)
    requires Decode(w, depth, t).Ok?
    ensures Describes(n, w, depth, t, Decode(w, depth, t))
    decreases |w|, 0
  {
    assert depth < MAX_DEPTH && w != [];
    hide Decode, Describes;
    var m, x := w[0], w[1..];
    assert w == [m] + x;
    n := BehindMarker(m, x, depth, t);
  }

  // ------------------------------------------------------------------ what it means

  /** The decoder accepts exactly the trees, and means by them what they stand for. */
  lemma AcceptsTreesOnly(w: seq<byte>, depth: nat, t: Tables, v: Value, rest: seq<byte>, t1: Tables)
    ensures Decode(w, depth, t) == Ok(v, rest, t1) <==>
            exists n :: Linked(n, depth, t) && w == Spell(n) + rest && v == ValueOf(n) && t1 == Plus(t, Adds(n))
  {
    hide Decode, Linked, Spell, ValueOf, Adds, Plus;
    if Decode(w, depth, t) == Ok(v, rest, t1) {
      var n := Described(w, depth, t);
      assert Linked(n, depth, t) && w == Spell(n) + rest && v == ValueOf(n) && t1 == Plus(t, Adds(n));
    }
    if n :| Linked(n, depth, t) && w == Spell(n) + rest && v == ValueOf(n) && t1 == Plus(t, Adds(n)) {
      TreeDecodes(n, depth, t, rest);
    }
  }

  /** The octets of a string reference with index i decode to the i-th string, or not at all. */
  lemma StringReference(head: seq<byte>, i: nat, depth: nat, t: Tables, tail: seq<byte>)
    requires depth < MAX_DEPTH && Spells(head, 2 * i)
    ensures Decode([0x06] + head + tail, depth, t) == if i < |t.strings| then Ok(Str(t.strings[i]), tail, t) else Bad
  {
    hide Decode, ReadU29, HeadOf;
    Assoc3([0x06], head, tail);
    HeadIs(head, 2 * i);
    HeadRead(head, tail);
    DecodeMarkerText(0x06, head + tail, depth, t);
  }

  lemma HeadIs(head: seq<byte>, h: nat)
    requires Spells(head, h)
    ensures IsHead(head) && HeadOf(head) == h
  {
  }

  /** The octets of an object reference with index i decode to the i-th object behind any marker of an
      object, and behind an XML marker to its text if it is XML; or not at all. */
  lemma ObjectReference(m: byte, head: seq<byte>, i: nat, depth: nat, t: Tables, tail: seq<byte>)
    requires depth < MAX_DEPTH && Spells(head, 2 * i) && 0x07 <= m <= 0x11
    ensures Decode([m] + head + tail, depth, t) ==
            if i >= |t.objects| then Bad
            else if m == 0x07 || m == 0x0B then
              (if t.objects[i].Xml? || t.objects[i].XmlDocument?
               then Ok(if m == 0x07 then XmlDocument(t.objects[i].text) else Xml(t.objects[i].text), tail, t) else Bad)
            else Ok(t.objects[i], tail, t)
  {
    hide Decode, ReadU29, HeadOf;
    Assoc3([m], head, tail);
    HeadIs(head, 2 * i);
    HeadRead(head, tail);
    DecodeMarker(m, head + tail, depth, t);
    DecodeMarkerText(m, head + tail, depth, t);
    BackMeans(head + tail, depth + 1, t);
  }

  /** An object whose header refers to traits with index i has the class and the sealed names of the
      i-th traits; then follow its sealed values, and its dynamic members if those traits allow any. */
  lemma TraitsReference(
    head: seq<byte>, i: nat, sealed: seq<Node>, members: seq<Named>, close: Option<Word>, depth: nat, t: Tables, tail: seq<byte>)
    requires depth < MAX_DEPTH && Spells(head, 4 * i + 1) && i < |t.traits| && !t.traits[i].externalizable
    requires |sealed| == |t.traits[i].names| && NodesLinked(sealed, depth + 1, Plus(t, OneObject(Null)))
    requires (close.Some? <==> t.traits[i].dynamic) && (!t.traits[i].dynamic ==> members == [])
    requires var t2 := Plus(Plus(t, OneObject(Null)), AddsNodes(sealed));
             NamedLinked(members, depth + 1, t2) && (close.Some? ==> EndLinked(close.value, Plus(t2, AddsNamed(members))))
    ensures var def := t.traits[i];
            var r := Decode([0x0A] + (head + (SpellNodes(sealed) + (SpellNamed(members) + SpellEnd(close)))) + tail, depth, t);
            && r.Ok? && r.rest == tail
            && r.value == Object(def.className, def.dynamic, NamedBy(def.names, ValuesIn(sealed)), MembersIn(members), None)
            && r.t.traits == t.traits + (AddsNodes(sealed).traits + (AddsNamed(members).traits + AddsEnd(close).traits))
  {
    var n := ObjectNode(head, None, t.traits[i], sealed, members, close);
    ReferringLinked(n, i, depth, t);
    ReferringMeans(n);
    hide Decode, Spells, NodesLinked, NamedLinked, EndLinked, SpellNodes, SpellNamed, SpellEnd, ValuesIn, MembersIn, AddsNodes,
      AddsNamed, AddsEnd, Linked, Spell, ValueOf, Adds, NamedBy;
    TreeDecodes(n, depth, t, tail);
  }

  lemma ReferringLinked(n: Node, i: nat, depth: nat, t: Tables)
    requires depth < MAX_DEPTH && n.ObjectNode? && n.inline == None
    requires Spells(n.head, 4 * i + 1) && i < |t.traits| && n.def == t.traits[i] && !n.def.externalizable
    requires |n.sealed| == |n.def.names| && NodesLinked(n.sealed, depth + 1, Plus(t, OneObject(Null)))
    requires (n.close.Some? <==> n.def.dynamic) && (!n.def.dynamic ==> n.members == [])
    requires var t2 := Plus(Plus(t, OneObject(Null)), AddsNodes(n.sealed));
             NamedLinked(n.members, depth + 1, t2) && (n.close.Some? ==> EndLinked(n.close.value, Plus(t2, AddsNamed(n.members))))
    ensures Linked(n, depth, t)
  {
    hide Spells, IsHead, HeadOf, NodesLinked, NamedLinked, EndLinked, AddsNodes, AddsNamed, Plus, TraitsLinked;
    HeadIs(n.head, 4 * i + 1);
    ReferredTraits(i, t);
    PlusNone(t);
    assert AddsInline(None, n.def) == NO_TABLES;
  }

  lemma ReferredTraits(i: nat, t: Tables)
    requires i < |t.traits|
    ensures TraitsLinked(4 * i + 1, None, t.traits[i], t)
  {
  }

  lemma ReferringMeans(n: Node)
    requires n.ObjectNode? && n.inline == None
    ensures Spell(n) == [0x0A] + (n.head + (SpellNodes(n.sealed) + (SpellNamed(n.members) + SpellEnd(n.close))))
    ensures ValueOf(n) == Object(n.def.className, n.def.dynamic, NamedBy(n.def.names, ValuesIn(n.sealed)), MembersIn(n.members), None)
    ensures Adds(n).traits == AddsNodes(n.sealed).traits + (AddsNamed(n.members).traits + AddsEnd(n.close).traits)
  {
    hide SpellNodes, SpellNamed, SpellEnd, ValuesIn, MembersIn, AddsNodes, AddsNamed, AddsEnd, NamedBy;
    var x := SpellNodes(n.sealed) + (SpellNamed(n.members) + SpellEnd(n.close));
    assert [] + x == x;
    var a := AddsNodes(n.sealed).traits + (AddsNamed(n.members).traits + AddsEnd(n.close).traits);
    assert [] + ([] + a) == a;
  }

  /** Traits that are not there are refused. */
  lemma MissingTraits(head: seq<byte>, i: nat, depth: nat, t: Tables, tail: seq<byte>)
    requires Spells(head, 4 * i + 1) && i >= |t.traits|
    ensures Decode([0x0A] + head + tail, depth, t) == Bad
  {
    hide Decode, ReadU29, HeadOf, DecodeAll, DecodeMembers, ReadString, ReadNames;
    Assoc3([0x0A], head, tail);
    HeadIs(head, 4 * i + 1);
    HeadRead(head, tail);
    if depth < MAX_DEPTH {
      DecodeMarker(0x0A, head + tail, depth, t);
    } else {
      TooDeep([0x0A] + head + tail, depth, t);
    }
  }

  lemma TooDeep(w: seq<byte>, depth: nat, t: Tables)
    requires depth >= MAX_DEPTH
    ensures Decode(w, depth, t) == Bad
  {
  }

  /** A packet of strings written out in full, and then a reference. */
  function Texts(texts: seq<seq<byte>>): seq<Value> {
    if texts == [] then [] else [Str(texts[0])] + Texts(texts[1..])
  }

  lemma {:induction false} StringsThenReference(texts: seq<seq<byte>>, i: nat, t: Tables)
    requires forall s <- texts :: s != [] && TextOk(s)
    requires i < |t.strings| + |texts| && i < 0x1000_0000
    ensures DecodeBuffer(EncodeAll(Texts(texts)) + ([0x06] + WriteU29(2 * i)), t) == Some(Texts(texts) + [Str((t.strings + texts)[i])])
    decreases |texts|
  {
    hide Decode, WriteU29, ReadU29, Encode, TextOk, Spells;
    var last := [0x06] + WriteU29(2 * i);
    if texts == [] {
      U29RoundTrip(2 * i, []);
      SpelledU29(2 * i);
      StringReference(WriteU29(2 * i), i, 0, t, []);
      assert EncodeAll(Texts(texts)) + last == last && last + [] == last;
      assert DecodeBuffer([], t) == Some([]);
      assert [] + [Str((t.strings + texts)[i])] == [Str(t.strings[i])] + [];
    } else {
      var s, more := texts[0], texts[1..];
      assert s in texts && forall x <- more :: x in texts;
      var rest := EncodeAll(Texts(more)) + last;
      assert Texts(texts)[0] == Str(s) && Texts(texts)[1..] == Texts(more);
      Assoc3(Encode(Str(s)), EncodeAll(Texts(more)), last);
      LiteralString(s, t, rest);
      var t1 := Plus(t, OneString(s));
      assert t1.strings + more == t.strings + texts;
      StringsThenReference(more, i, t1);
      assert ([Str(s)] + Texts(more)) + [Str((t.strings + texts)[i])] == [Str(s)] + (Texts(more) + [Str((t.strings + texts)[i])]);
    }
  }

  lemma SpelledU29(v: nat)
    requires v < U29_MOD
    ensures Spells(WriteU29(v), v)
  {
    hide WriteU29, ReadU29;
    U29RoundTrip(v, []);
    assert WriteU29(v) + [] == WriteU29(v);
  }

  lemma LiteralString(s: seq<byte>, t: Tables, tail: seq<byte>)
    requires s != [] && TextOk(s)
    ensures Encode(Str(s)) != [] && Decode(Encode(Str(s)) + tail, 0, t) == Ok(Str(s), tail, Plus(t, OneString(s)))
  {
    hide Decode, WriteU29, ReadU29, HeadOf, ValidUtf8;
    var w := Word(WriteU29(2 * |s| + 1), s);
    TextLength(s);
    SpelledU29(2 * |s| + 1);
    HeadIs(w.head, 2 * |s| + 1);
    TextDecodes(w, 0, t, tail);
  }

  lemma TextLength(s: seq<byte>)
    requires TextOk(s)
    ensures 2 * |s| + 1 < U29_MOD && ValidUtf8(s)
  {
  }
}
