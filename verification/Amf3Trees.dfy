/** Trees that AMF 3 octets can be read as, references and all, and that each of them is decoded to
    what it stands for. */
module Amf3Trees {
  import opened Bytes
  import opened Text
  import opened Amf3Model
  import opened Amf3RoundTrip

  /** A string on the wire: its header, and its text, which is there or stands in the string table. */
  datatype Word = Word(head: seq<byte>, text: seq<byte>)

  /** A named value. */
  datatype Named = Named(word: Word, node: Node)

  /** Traits given in full: the name of the class and those of its sealed members. */
  datatype Inline = Inline(name: Word, names: seq<Word>)

  /** Values without parts, references into the object table, and containers. */
  datatype Node =
    | Atom(marker: byte, octets: seq<byte>, value: Value)
    | Text(word: Word)
    | Back(marker: byte, head: seq<byte>, index: nat, value: Value)
    | Flat(marker: byte, octets: seq<byte>, value: Value)
    | ArrayNode(head: seq<byte>, assoc: seq<Named>, end: Word, dense: seq<Node>)
    | ObjectNode(head: seq<byte>, inline: Option<Inline>, def: TraitDef, sealed: seq<Node>, members: seq<Named>, close: Option<Word>)
    | VectorNode(head: seq<byte>, fixed: byte, typeName: Word, items: seq<Node>)
    | DictionaryNode(head: seq<byte>, weak: byte, entries: seq<Node>)

  // ---------------------------------------------------------------------- octets

  /** `head` spells the number `h`, in any of the lengths allowed. */
  predicate Spells(head: seq<byte>, h: nat) {
    ReadU29(head) == Got(h, [])
  }

  /** The number a header spells. */
  function HeadOf(head: seq<byte>): nat {
    match ReadU29(head)
    case Got(h, _) => h
    case Short => 0
  }

  predicate IsHead(head: seq<byte>) {
    Spells(head, HeadOf(head))
  }

  /** A string is literal when its header is odd. */
  predicate Literally(w: Word) {
    HeadOf(w.head) % 2 == 1
  }

  function SpellWord(w: Word): seq<byte> {
    w.head + (if Literally(w) then w.text else [])
  }

  function SpellWords(ws: seq<Word>): seq<byte> {
    if ws == [] then [] else SpellWord(ws[0]) + SpellWords(ws[1..])
  }

  function Spell(n: Node): seq<byte>
    decreases n, 1
  {
    match n
    case Atom(m, octets, _) => [m] + octets
    case Text(w) => [0x06] + SpellWord(w)
    case Back(m, head, _, _) => [m] + head
    case Flat(m, octets, _) => [m] + octets
    case ArrayNode(head, assoc, end, dense) => [0x09] + (head + (SpellNamed(assoc) + (SpellWord(end) + SpellNodes(dense))))
    case ObjectNode(head, inline, _, sealed, members, end) =>
      [0x0A] + (head + (SpellInline(inline) + (SpellNodes(sealed) + (SpellNamed(members) + SpellEnd(end)))))
    case VectorNode(head, fixed, typeName, items) => [0x10] + (head + ([fixed] + (SpellWord(typeName) + SpellNodes(items))))
    case DictionaryNode(head, weak, entries) => [0x11] + (head + ([weak] + SpellNodes(entries)))
  }

  function SpellInline(inline: Option<Inline>): seq<byte> {
    match inline
    case None => []
    case Some(i) => SpellWord(i.name) + SpellWords(i.names)
  }

  function SpellEnd(end: Option<Word>): seq<byte> {
    match end
    case None => []
    case Some(w) => SpellWord(w)
  }

  function SpellNodes(ns: seq<Node>): seq<byte>
    decreases ns, 0
  {
    if ns == [] then [] else Spell(ns[0]) + SpellNodes(ns[1..])
  }

  function SpellNamed(ms: seq<Named>): seq<byte>
    decreases ms, 0
  {
    if ms == [] then []
    else
      assert ms[0].node < ms[0];
      SpellWord(ms[0].word) + (Spell(ms[0].node) + SpellNamed(ms[1..]))
  }

  // ---------------------------------------------------------------------- values

  function ValueOf(n: Node): Value
    decreases n, 1
  {
    match n
    case Atom(_, _, v) => v
    case Text(w) => Str(w.text)
    case Back(_, _, _, v) => v
    case Flat(_, _, v) => v
    case ArrayNode(_, assoc, _, dense) => Array(ValuesIn(dense), MembersIn(assoc))
    case ObjectNode(_, _, def, sealed, members, _) =>
      Object(def.className, def.dynamic, NamedBy(def.names, ValuesIn(sealed)), MembersIn(members), None)
    case VectorNode(_, fixed, typeName, items) => VectorObject(fixed != 0, typeName.text, ValuesIn(items))
    case DictionaryNode(_, weak, entries) => Dictionary(weak != 0, Paired(ValuesIn(entries)))
  }

  function ValuesIn(ns: seq<Node>): (vs: seq<Value>)
    ensures |vs| == |ns|
    decreases ns, 0
  {
    if ns == [] then [] else [ValueOf(ns[0])] + ValuesIn(ns[1..])
  }

  function MembersIn(ms: seq<Named>): (r: seq<Member>)
    ensures |r| == |ms|
    decreases ms, 0
  {
    if ms == [] then []
    else
      assert ms[0].node < ms[0];
      [Member(ms[0].word.text, ValueOf(ms[0].node))] + MembersIn(ms[1..])
  }

  /** The i-th value under the i-th name. */
  function NamedBy(names: seq<seq<byte>>, values: seq<Value>): seq<Member> {
    seq(Min(|names|, |values|), i requires 0 <= i < Min(|names|, |values|) => Member(names[i], values[i]))
  }

  /** Keys and values alternating. */
  function Paired(vs: seq<Value>): seq<Entry> {
    if |vs| < 2 then [] else [Entry(vs[0], vs[1])] + Paired(vs[2..])
  }

  // ---------------------------------------------------------------------- tables

  /** Adding to the end of each table. */
  function Plus(t: Tables, a: Tables): Tables {
    Tables(t.strings + a.strings, t.objects + a.objects, t.traits + a.traits)
  }

  function OneString(s: seq<byte>): Tables {
    Tables([s], [], [])
  }

  function OneObject(v: Value): Tables {
    Tables([], [v], [])
  }

  function OneTraits(def: TraitDef): Tables {
    Tables([], [], [def])
  }

  /** A literal string is added unless it is empty. */
  function AddsWord(w: Word): Tables {
    if Literally(w) && w.text != [] then OneString(w.text) else NO_TABLES
  }

  function AddsWords(ws: seq<Word>): Tables {
    if ws == [] then NO_TABLES else Plus(AddsWord(ws[0]), AddsWords(ws[1..]))
  }

  /** What a value adds: literal strings and traits in the order they are met, and complete objects in
      the order they begin, an XML text as a document. */
  function Adds(n: Node): Tables
    decreases n, 1
  {
    match n
    case Atom(_, _, _) => NO_TABLES
    case Text(w) => AddsWord(w)
    case Back(_, _, _, _) => NO_TABLES
    case Flat(_, _, v) => OneObject(if v.Xml? then XmlDocument(v.text) else v)
    case ArrayNode(_, assoc, end, dense) =>
      Plus(OneObject(ValueOf(n)), Plus(AddsNamed(assoc), Plus(AddsWord(end), AddsNodes(dense))))
    case ObjectNode(_, inline, def, sealed, members, end) =>
      Plus(AddsInline(inline, def), Plus(OneObject(ValueOf(n)), Plus(AddsNodes(sealed), Plus(AddsNamed(members), AddsEnd(end)))))
    case VectorNode(_, _, typeName, items) => Plus(AddsWord(typeName), Plus(OneObject(ValueOf(n)), AddsNodes(items)))
    case DictionaryNode(_, _, entries) => Plus(OneObject(ValueOf(n)), AddsNodes(entries))
  }

  function AddsInline(inline: Option<Inline>, def: TraitDef): Tables {
    match inline
    case None => NO_TABLES
    case Some(i) => Plus(AddsWord(i.name), Plus(AddsWords(i.names), OneTraits(def)))
  }

  function AddsEnd(end: Option<Word>): Tables {
    match end
    case None => NO_TABLES
    case Some(w) => AddsWord(w)
  }

  function AddsNodes(ns: seq<Node>): Tables
    decreases ns, 0
  {
    if ns == [] then NO_TABLES else Plus(Adds(ns[0]), AddsNodes(ns[1..]))
  }

  function AddsNamed(ms: seq<Named>): Tables
    decreases ms, 0
  {
    if ms == [] then NO_TABLES
    else
      assert ms[0].node < ms[0];
      Plus(AddsWord(ms[0].word), Plus(Adds(ms[0].node), AddsNamed(ms[1..])))
  }

  // --------------------------------------------------------------------- linkage

  /** A literal is as long as its header says; a reference with index i is the i-th string. */
  predicate WordLinked(w: Word, t: Tables) {
    && IsHead(w.head)
    && var h := HeadOf(w.head);
       if h % 2 == 1 then |w.text| == h / 2 && ValidUtf8(w.text)
       else h / 2 < |t.strings| && w.text == t.strings[h / 2]
  }

  predicate WordsLinked(ws: seq<Word>, t: Tables)
    decreases |ws|
  {
    ws == [] || (WordLinked(ws[0], t) && WordsLinked(ws[1..], Plus(t, AddsWord(ws[0]))))
  }

  /** Values with no parts and no place in a table. */
  predicate AtomLinked(m: byte, octets: seq<byte>, v: Value) {
    match v
    case Undefined => m == 0x00 && octets == []
    case Null => m == 0x01 && octets == []
    case Boolean(b) => m == (if b then 0x03 else 0x02) && octets == []
    case Integer(n) => m == 0x04 && IsHead(octets) && HeadOf(octets) < U29_MOD && n == FromU29(HeadOf(octets))
    case Double(bits) => m == 0x05 && octets == BE(8, bits)
    case _ => false
  }

  /** A reference with index i means the i-th object; through an XML marker, its text if it is XML. */
  predicate BackLinked(m: byte, head: seq<byte>, i: nat, v: Value, t: Tables) {
    && Spells(head, 2 * i) && i < |t.objects|
    && if m == 0x07 || m == 0x0B then
         && (t.objects[i].Xml? || t.objects[i].XmlDocument?)
         && v == (if m == 0x07 then XmlDocument(t.objects[i].text) else Xml(t.objects[i].text))
       else m in {0x08, 0x09, 0x0A, 0x0C, 0x0D, 0x0E, 0x0F, 0x10, 0x11} && v == t.objects[i]
  }

  /** Values with no parts that take a place in the object table: a header, then what it announces. */
  ghost predicate FlatLinked(m: byte, octets: seq<byte>, v: Value) {
    exists head, body :: octets == head + body && IsHead(head) && FlatBody(m, HeadOf(head), body, v)
  }

  predicate FlatBody(m: byte, h: nat, body: seq<byte>, v: Value) {
    && h % 2 == 1
    && match v
       case XmlDocument(s) => m == 0x07 && |s| == h / 2 && body == s && ValidUtf8(s)
       case Xml(s) => m == 0x0B && |s| == h / 2 && body == s && ValidUtf8(s)
       case Date(bits) => m == 0x08 && body == BE(8, bits)
       case ByteArray(b) => m == 0x0C && |b| == h / 2 && body == b
       case VectorInt(fixed, ns) => m == 0x0D && |ns| == h / 2 && body != [] && fixed == (body[0] != 0) && body[1..] == Words(4, AsU32s(ns))
       case VectorUInt(fixed, ns) => m == 0x0E && |ns| == h / 2 && body != [] && fixed == (body[0] != 0) && body[1..] == Words(4, ns)
       case VectorDouble(fixed, ds) => m == 0x0F && |ds| == h / 2 && body != [] && fixed == (body[0] != 0) && body[1..] == Words(8, ds)
       case _ => false
  }

  /** Traits in full say what their header and strings say; a reference with index i is the i-th. */
  predicate TraitsLinked(h: nat, inline: Option<Inline>, def: TraitDef, t: Tables) {
    && h % 2 == 1
    && match inline
       case None => h / 2 % 2 == 0 && h / 4 < |t.traits| && def == t.traits[h / 4]
       case Some(i) =>
         && h / 2 % 2 == 1 && |i.names| == h / 16
         && WordLinked(i.name, t) && WordsLinked(i.names, Plus(t, AddsWord(i.name)))
         && def == TraitDef(i.name.text, h / 8 % 2 == 1, h / 4 % 2 == 1, TextsOf(i.names))
  }

  function TextsOf(ws: seq<Word>): (r: seq<seq<byte>>)
    ensures |r| == |ws|
  {
    if ws == [] then [] else [ws[0].text] + TextsOf(ws[1..])
  }

  /** The end of named values: an empty string, literal or from the table. */
  predicate EndLinked(w: Word, t: Tables) {
    WordLinked(w, t) && w.text == []
  }

  /** A possible reading against the tables: the slot of a container holds `Null` while it is open. */
  ghost predicate Linked(n: Node, depth: nat, t: Tables)
    decreases n, 1
  {
    && depth < MAX_DEPTH
    && match n
       case Atom(m, octets, v) => AtomLinked(m, octets, v)
       case Text(w) => WordLinked(w, t)
       case Back(m, head, i, v) => BackLinked(m, head, i, v, t)
       case Flat(m, octets, v) => FlatLinked(m, octets, v)
       case ArrayNode(head, assoc, end, dense) =>
         var t1 := Plus(t, OneObject(Null));
         var t2 := Plus(t1, AddsNamed(assoc));
         && IsHead(head) && HeadOf(head) == 2 * |dense| + 1
         && NamedLinked(assoc, depth + 1, t1) && EndLinked(end, t2) && NodesLinked(dense, depth + 1, Plus(t2, AddsWord(end)))
       case ObjectNode(head, inline, def, sealed, members, close) =>
         var t1 := Plus(Plus(t, AddsInline(inline, def)), OneObject(Null));
         var t2 := Plus(t1, AddsNodes(sealed));
         && IsHead(head) && TraitsLinked(HeadOf(head), inline, def, t) && !def.externalizable && |sealed| == |def.names|
         && NodesLinked(sealed, depth + 1, t1)
         && (close.Some? <==> def.dynamic) && (!def.dynamic ==> members == [])
         && NamedLinked(members, depth + 1, t2) && (close.Some? ==> EndLinked(close.value, Plus(t2, AddsNamed(members))))
       case VectorNode(head, _, typeName, items) =>
         && IsHead(head) && HeadOf(head) == 2 * |items| + 1 && WordLinked(typeName, t)
         && NodesLinked(items, depth + 1, Plus(Plus(t, AddsWord(typeName)), OneObject(Null)))
       case DictionaryNode(head, _, entries) =>
         && IsHead(head) && |entries| % 2 == 0 && HeadOf(head) == |entries| + 1
         && NodesLinked(entries, depth + 1, Plus(t, OneObject(Null)))
  }

  ghost predicate NodesLinked(ns: seq<Node>, depth: nat, t: Tables)
    decreases ns, 0
  {
    ns == [] || (Linked(ns[0], depth, t) && NodesLinked(ns[1..], depth, Plus(t, Adds(ns[0]))))
  }

  ghost predicate NamedLinked(ms: seq<Named>, depth: nat, t: Tables)
    decreases ms, 0
  {
    ms == [] ||
    (assert ms[0].node < ms[0];
     var t1 := Plus(t, AddsWord(ms[0].word));
     && WordLinked(ms[0].word, t) && ms[0].word.text != []
     && Linked(ms[0].node, depth, t1) && NamedLinked(ms[1..], depth, Plus(t1, Adds(ms[0].node))))
  }

  // ------------------------------------------------------------------ every tree

  lemma PlusAssoc(t: Tables, a: Tables, b: Tables)
    ensures Plus(Plus(t, a), b) == Plus(t, Plus(a, b))
  {
    Assoc3(t.strings, a.strings, b.strings);
    Assoc3(t.objects, a.objects, b.objects);
    Assoc3(t.traits, a.traits, b.traits);
  }

  lemma PlusNone(t: Tables)
    ensures Plus(t, NO_TABLES) == t && Plus(NO_TABLES, t) == t
  {
    assert t.strings + [] == t.strings && t.objects + [] == t.objects && t.traits + [] == t.traits;
    assert [] + t.strings == t.strings && [] + t.objects == t.objects && [] + t.traits == t.traits;
  }

  lemma PushedPlus(t: Tables, v: Value)
    ensures Pushed(t, v) == Plus(t, OneObject(v))
  {
    assert t.strings + [] == t.strings && t.traits + [] == t.traits;
  }

  /** Filling the reserved slot puts the value where the container began. */
  lemma FilledPlus(t: Tables, a: Tables, v: Value)
    ensures Filled(Plus(Plus(t, OneObject(Null)), a), |t.objects|, v) == Plus(t, Plus(OneObject(v), a))
  {
    assert (t.objects + [Null] + a.objects)[|t.objects| := v] == t.objects + ([v] + a.objects);
    assert (t.strings + []) + a.strings == t.strings + ([] + a.strings);
    assert (t.traits + []) + a.traits == t.traits + ([] + a.traits);
  }

  /** A header is read whatever follows it. */
  lemma HeadRead(head: seq<byte>, tail: seq<byte>)
    requires IsHead(head)
    ensures ReadU29(head + tail) == Got(HeadOf(head), tail)
  {
    var n := |head|;
    assert 1 <= n <= 4;
    hide Spells;
    if n == 1 {
      assert head == [head[0]];
      ReadU29One(head[0], tail);
      ReadU29One(head[0], []);
    } else if n == 2 {
      assert head == [head[0], head[1]];
      ReadU29Two(head[0], head[1], tail);
      ReadU29Two(head[0], head[1], []);
    } else if n == 3 {
      assert head == [head[0], head[1], head[2]];
      ReadU29Three(head[0], head[1], head[2], tail);
      ReadU29Three(head[0], head[1], head[2], []);
    } else {
      assert head == [head[0], head[1], head[2], head[3]];
      ReadU29Four(head[0], head[1], head[2], head[3], tail);
      ReadU29Four(head[0], head[1], head[2], head[3], []);
    }
  }

  lemma WordRead(w: Word, t: Tables, tail: seq<byte>)
    requires WordLinked(w, t)
    ensures ReadString(SpellWord(w) + tail, t) == Ok(w.text, tail, Plus(t, AddsWord(w)))
  {
    hide ReadU29, ValidUtf8, IsHead, HeadOf;
    PlusNone(t);
    if Literally(w) {
      Assoc3(w.head, w.text, tail);
      HeadRead(w.head, w.text + tail);
      TakePrefix(w.text, tail);
    } else {
      assert w.head + [] == w.head;
      HeadRead(w.head, tail);
    }
  }

  lemma {:induction false} WordsRead(ws: seq<Word>, t: Tables, tail: seq<byte>)
    requires WordsLinked(ws, t)
    ensures ReadNames(|ws|, SpellWords(ws) + tail, t) == Ok(TextsOf(ws), tail, Plus(t, AddsWords(ws)))
    decreases |ws|
  {
    hide ReadString, WordLinked, SpellWord, AddsWord, Plus;
    PlusNone(t);
    if ws == [] {
      assert SpellWords(ws) + tail == tail;
    } else {
      Assoc3(SpellWord(ws[0]), SpellWords(ws[1..]), tail);
      WordRead(ws[0], t, SpellWords(ws[1..]) + tail);
      WordsRead(ws[1..], Plus(t, AddsWord(ws[0])), tail);
      PlusAssoc(t, AddsWord(ws[0]), AddsWords(ws[1..]));
    }
  }

  lemma TraitsRead(h: nat, inline: Option<Inline>, def: TraitDef, t: Tables, tail: seq<byte>)
    requires TraitsLinked(h, inline, def, t)
    ensures ReadTraits(h, SpellInline(inline) + tail, t) == Ok(def, tail, Plus(t, AddsInline(inline, def)))
  {
    hide ReadString, ReadNames, WordLinked, WordsLinked, SpellWord, SpellWords, AddsWord, AddsWords, TextsOf;
    match inline {
      case None =>
        PlusNone(t);
        assert [] + tail == tail;
      case Some(i) =>
        var t1 := Plus(t, AddsWord(i.name));
        Assoc3(SpellWord(i.name), SpellWords(i.names), tail);
        WordRead(i.name, t, SpellWords(i.names) + tail);
        WordsRead(i.names, t1, tail);
        var t2 := Plus(t1, AddsWords(i.names));
        assert t2.(traits := t2.traits + [def]) == Plus(t2, OneTraits(def));
        PlusAssoc(t, AddsWord(i.name), AddsWords(i.names));
        PlusAssoc(t, Plus(AddsWord(i.name), AddsWords(i.names)), OneTraits(def));
        PlusAssoc(AddsWord(i.name), AddsWords(i.names), OneTraits(def));
    }
  }

  lemma {:induction false} NodesDecode(ns: seq<Node>, depth: nat, t: Tables, tail: seq<byte>)
    requires NodesLinked(ns, depth, t)
    ensures DecodeAll(|ns|, SpellNodes(ns) + tail, depth, t) == Ok(ValuesIn(ns), tail, Plus(t, AddsNodes(ns)))
    decreases ns, 0
  {
    hide Decode, Linked, Spell, ValueOf, Adds, Plus;
    PlusNone(t);
    if ns == [] {
      assert SpellNodes(ns) + tail == tail;
    } else {
      Assoc3(Spell(ns[0]), SpellNodes(ns[1..]), tail);
      TreeDecodes(ns[0], depth, t, SpellNodes(ns[1..]) + tail);
      NodesDecode(ns[1..], depth, Plus(t, Adds(ns[0])), tail);
      PlusAssoc(t, Adds(ns[0]), AddsNodes(ns[1..]));
    }
  }

  /** The first two of a list, and the others. */
  lemma TwoInFront(ns: seq<Node>, depth: nat, t: Tables)
    requires |ns| >= 2 && NodesLinked(ns, depth, t)
    ensures var (a, b, more) := (ns[0], ns[1], ns[2..]);
            var t1 := Plus(t, Adds(a));
            var t2 := Plus(t1, Adds(b));
            && Linked(a, depth, t) && Linked(b, depth, t1) && NodesLinked(more, depth, t2)
            && SpellNodes(ns) == Spell(a) + (Spell(b) + SpellNodes(more))
            && Paired(ValuesIn(ns)) == [Entry(ValueOf(a), ValueOf(b))] + Paired(ValuesIn(more))
            && Plus(t, AddsNodes(ns)) == Plus(t2, AddsNodes(more))
  {
    hide Linked, Spell, ValueOf, Adds, Plus;
    var a, b, more := ns[0], ns[1], ns[2..];
    assert ns[1..][0] == b && ns[1..][1..] == more;
    assert ValuesIn(ns)[2..] == ValuesIn(more);
    PlusAssoc(Plus(t, Adds(a)), Adds(b), AddsNodes(more));
    PlusAssoc(t, Adds(a), Plus(Adds(b), AddsNodes(more)));
  }

  lemma EntryInFront(
    n: nat, w: seq<byte>, depth: nat, t: Tables, a: Dec<Value>, b: Dec<Value>, es: Dec<seq<Entry>>)
    requires a.Ok? && b.Ok? && es.Ok?
    requires Decode(w, depth, t) == a && Decode(a.rest, depth, a.t) == b && DecodeEntries(n, b.rest, depth, b.t) == es
    ensures DecodeEntries(n + 1, w, depth, t) == Ok([Entry(a.value, b.value)] + es.value, es.rest, es.t)
  {
    hide Decode;
  }

  lemma {:induction false} PairsDecode(n: nat, ns: seq<Node>, depth: nat, t: Tables, tail: seq<byte>)
    requires |ns| == 2 * n && NodesLinked(ns, depth, t)
    ensures DecodeEntries(n, SpellNodes(ns) + tail, depth, t) == Ok(Paired(ValuesIn(ns)), tail, Plus(t, AddsNodes(ns)))
    decreases ns, 0
  {
    hide Decode, DecodeEntries, Linked, NodesLinked, Spell, SpellNodes, ValueOf, ValuesIn, Adds, AddsNodes, Plus, Paired;
    if n == 0 {
      NoPairs(depth, t, tail);
    } else {
      TwoInFront(ns, depth, t);
      var a, b, more := ns[0], ns[1], ns[2..];
      var rest := SpellNodes(more) + tail;
      Assoc4(Spell(a), Spell(b), SpellNodes(more), tail);
      Assoc3(Spell(a), Spell(b), SpellNodes(more));
      TreeDecodes(a, depth, t, Spell(b) + rest);
      var t1 := Plus(t, Adds(a));
      TreeDecodes(b, depth, t1, rest);
      var t2 := Plus(t1, Adds(b));
      PairsDecode(n - 1, more, depth, t2, tail);
      EntryInFront(n - 1, SpellNodes(ns) + tail, depth, t, Ok(ValueOf(a), Spell(b) + rest, t1), Ok(ValueOf(b), rest, t2),
                   Ok(Paired(ValuesIn(more)), tail, Plus(t2, AddsNodes(more))));
    }
  }

  lemma NoPairs(depth: nat, t: Tables, tail: seq<byte>)
    ensures DecodeEntries(0, SpellNodes([]) + tail, depth, t) == Ok(Paired(ValuesIn([])), tail, Plus(t, AddsNodes([])))
  {
    PlusNone(t);
    assert SpellNodes([]) + tail == tail;
  }

  lemma {:induction false} NamedDecode(ms: seq<Named>, end: Word, depth: nat, t: Tables, tail: seq<byte>)
    requires NamedLinked(ms, depth, t) && EndLinked(end, Plus(t, AddsNamed(ms)))
    ensures DecodeMembers(SpellNamed(ms) + (SpellWord(end) + tail), depth, t)
         == Ok(MembersIn(ms), tail, Plus(Plus(t, AddsNamed(ms)), AddsWord(end)))
    decreases ms, 0
  {
    hide Decode, Linked, Spell, ValueOf, Adds, Plus, ReadString, WordLinked, SpellWord, AddsWord;
    PlusNone(t);
    if ms == [] {
      assert SpellNamed(ms) + (SpellWord(end) + tail) == SpellWord(end) + tail;
      WordRead(end, t, tail);
    } else {
      var m, more := ms[0], ms[1..];
      assert m.node < m;
      var rest2 := SpellNamed(more) + (SpellWord(end) + tail);
      Assoc4(SpellWord(m.word), Spell(m.node), SpellNamed(more), SpellWord(end) + tail);
      Assoc3(SpellWord(m.word), Spell(m.node), SpellNamed(more));
      WordRead(m.word, t, Spell(m.node) + rest2);
      var t1 := Plus(t, AddsWord(m.word));
      TreeDecodes(m.node, depth, t1, rest2);
      var t2 := Plus(t1, Adds(m.node));
      PlusAssoc(t1, Adds(m.node), AddsNamed(more));
      PlusAssoc(t, AddsWord(m.word), Plus(Adds(m.node), AddsNamed(more)));
      NamedDecode(more, end, depth, t2, tail);
    }
  }

  // ------------------------------------------------------------------- by marker

  lemma AtomDecodes(m: byte, octets: seq<byte>, v: Value, depth: nat, t: Tables, tail: seq<byte>)
    requires depth < MAX_DEPTH && AtomLinked(m, octets, v)
    ensures Decode([m] + octets + tail, depth, t) == Ok(v, tail, t)
  {
    hide Decode, ReadU29, IsHead, HeadOf, BE, UnBE, TakeBE;
    Widths();
    Assoc3([m], octets, tail);
    DecodeMarkerPlain(m, octets + tail, depth, t);
    if v.Integer? {
      HeadRead(octets, tail);
    } else if v.Double? {
      TakeBEPrefix(8, v.bits, tail);
    } else {
      assert octets + tail == tail;
    }
  }

  lemma TextDecodes(w: Word, depth: nat, t: Tables, tail: seq<byte>)
    requires depth < MAX_DEPTH && WordLinked(w, t)
    ensures Decode([0x06] + SpellWord(w) + tail, depth, t) == Ok(Str(w.text), tail, Plus(t, AddsWord(w)))
  {
    hide Decode, ReadString, SpellWord, WordLinked;
    Assoc3([0x06], SpellWord(w), tail);
    DecodeMarkerText(0x06, SpellWord(w) + tail, depth, t);
    WordRead(w, t, tail);
  }

  lemma BackDecodes(m: byte, head: seq<byte>, i: nat, v: Value, depth: nat, t: Tables, tail: seq<byte>)
    requires depth < MAX_DEPTH && BackLinked(m, head, i, v, t)
    ensures Decode([m] + head + tail, depth, t) == Ok(v, tail, t)
  {
    hide Decode, ReadU29;
    Assoc3([m], head, tail);
    HeadRead(head, tail);
    DecodeMarker(m, head + tail, depth, t);
    DecodeMarkerText(m, head + tail, depth, t);
    hide Spells, IsHead;
    BackReads(head + tail, i, depth + 1, t, tail);
  }

  /** An even header means a reference, whatever reads it. */
  lemma BackReads(w: seq<byte>, i: nat, depth: nat, t: Tables, tail: seq<byte>)
    requires ReadU29(w) == Got(2 * i, tail) && i < |t.objects|
    ensures var r := Ok(t.objects[i], tail, t);
            && ReadDate(w, t) == r && ReadByteArray(w, t) == r && ReadVectorInt(w, t) == r && ReadVectorUInt(w, t) == r
            && ReadVectorDouble(w, t) == r && ReadArray(w, depth, t) == r && ReadObject(w, depth, t) == r
            && ReadVectorObject(w, depth, t) == r && ReadDictionary(w, depth, t) == r
    ensures t.objects[i].Xml? || t.objects[i].XmlDocument? ==> ReadXmlText(w, t) == Ok(t.objects[i].text, tail, t)
  {
    hide ReadU29;
  }

  lemma FlatDecodes(m: byte, head: seq<byte>, body: seq<byte>, v: Value, depth: nat, t: Tables, tail: seq<byte>)
    requires depth < MAX_DEPTH && IsHead(head) && FlatBody(m, HeadOf(head), body, v)
    ensures Decode([m] + (head + body) + tail, depth, t) == Ok(v, tail, Plus(t, OneObject(if v.Xml? then XmlDocument(v.text) else v)))
  {
    hide Decode, ReadU29, IsHead, HeadOf, BE, UnBE, TakeBE, ValidUtf8, Words, ReadU32s, ReadU64s;
    Widths();
    Assoc3([m], head + body, tail);
    Assoc3(head, body, tail);
    HeadRead(head, body + tail);
    DecodeMarker(m, head + (body + tail), depth, t);
    DecodeMarkerText(m, head + (body + tail), depth, t);
    PushedPlus(t, if v.Xml? then XmlDocument(v.text) else v);
    if v.Date? {
      TakeBEPrefix(8, v.bits, tail);
    } else if v.XmlDocument? || v.Xml? || v.ByteArray? {
      TakePrefix(body, tail);
    } else {
      var ws := body[1..];
      assert body + tail == [body[0]] + (ws + tail);
      match v {
        case VectorInt(_, ns) =>
          U32sRead(AsU32s(ns), tail);
          SignsBack(ns);
        case VectorUInt(_, ns) => U32sRead(ns, tail);
        case VectorDouble(_, ds) => U64sRead(ds, tail);
      }
    }
  }

  lemma SignsBack(ns: seq<i32>)
    ensures AsI32s(AsU32s(ns)) == ns
  {
  }

  lemma ArrayDecodes(n: Node, depth: nat, t: Tables, tail: seq<byte>)
    requires n.ArrayNode? && Linked(n, depth, t)
    ensures Decode(Spell(n) + tail, depth, t) == Ok(ValueOf(n), tail, Plus(t, Adds(n)))
    decreases n, 0
  {
    hide Decode, DecodeMembers, DecodeAll, ReadU29, IsHead, HeadOf, SpellNamed, SpellNodes, SpellWord, NamedLinked, NodesLinked,
      EndLinked, ValuesIn, MembersIn, AddsNamed, AddsWord, AddsNodes, Plus, Filled, Pushed;
    var t1 := Plus(t, OneObject(Null));
    var t2 := Plus(t1, AddsNamed(n.assoc));
    var x := SpellNamed(n.assoc) + (SpellWord(n.end) + (SpellNodes(n.dense) + tail));
    assert Spell(n) + tail == [0x09] + (n.head + x) by {
      Assoc3([0x09], n.head + (SpellNamed(n.assoc) + (SpellWord(n.end) + SpellNodes(n.dense))), tail);
      Assoc3(n.head, SpellNamed(n.assoc) + (SpellWord(n.end) + SpellNodes(n.dense)), tail);
      Assoc3(SpellNamed(n.assoc), SpellWord(n.end) + SpellNodes(n.dense), tail);
      Assoc3(SpellWord(n.end), SpellNodes(n.dense), tail);
    }
    DecodeMarker(0x09, n.head + x, depth, t);
    HeadRead(n.head, x);
    PushedPlus(t, Null);
    NamedDecode(n.assoc, n.end, depth + 1, t1, SpellNodes(n.dense) + tail);
    NodesDecode(n.dense, depth + 1, Plus(t2, AddsWord(n.end)), tail);
    PlusAssoc(t2, AddsWord(n.end), AddsNodes(n.dense));
    PlusAssoc(t1, AddsNamed(n.assoc), Plus(AddsWord(n.end), AddsNodes(n.dense)));
    FilledPlus(t, Plus(AddsNamed(n.assoc), Plus(AddsWord(n.end), AddsNodes(n.dense))), ValueOf(n));
  }

  lemma ObjectDecodes(n: Node, depth: nat, t: Tables, tail: seq<byte>)
    requires n.ObjectNode? && Linked(n, depth, t)
    ensures Decode(Spell(n) + tail, depth, t) == Ok(ValueOf(n), tail, Plus(t, Adds(n)))
    decreases n, 0
  {
    hide Decode, DecodeMembers, DecodeAll, ReadU29, ReadTraits, IsHead, HeadOf, SpellNamed, SpellNodes, SpellInline, SpellEnd, NamedLinked,
      NodesLinked, TraitsLinked, EndLinked, ValuesIn, MembersIn, AddsNamed, AddsInline, AddsEnd, AddsNodes, Plus, Filled, Pushed, Zip,
      NamedBy;
    var t0 := Plus(t, AddsInline(n.inline, n.def));
    var t1 := Plus(t0, OneObject(Null));
    var t2 := Plus(t1, AddsNodes(n.sealed));
    var end := SpellNamed(n.members) + (SpellEnd(n.close) + tail);
    var x := SpellInline(n.inline) + (SpellNodes(n.sealed) + end);
    assert Spell(n) + tail == [0x0A] + (n.head + x) by {
      var y := SpellNodes(n.sealed) + (SpellNamed(n.members) + SpellEnd(n.close));
      Assoc3([0x0A], n.head + (SpellInline(n.inline) + y), tail);
      Assoc3(n.head, SpellInline(n.inline) + y, tail);
      Assoc3(SpellInline(n.inline), y, tail);
      Assoc3(SpellNodes(n.sealed), SpellNamed(n.members) + SpellEnd(n.close), tail);
      Assoc3(SpellNamed(n.members), SpellEnd(n.close), tail);
    }
    DecodeMarker(0x0A, n.head + x, depth, t);
    HeadRead(n.head, x);
    TraitsRead(HeadOf(n.head), n.inline, n.def, t, SpellNodes(n.sealed) + end);
    OddTraits(HeadOf(n.head), n.inline, n.def, t);
    PushedPlus(t0, Null);
    NodesDecode(n.sealed, depth + 1, t1, end);
    MembersDecode(n, depth + 1, t2, tail);
    NamedZip(n.def.names, ValuesIn(n.sealed));
    PlusAssoc(t1, AddsNodes(n.sealed), Plus(AddsNamed(n.members), AddsEnd(n.close)));
    var a := Plus(AddsNodes(n.sealed), Plus(AddsNamed(n.members), AddsEnd(n.close)));
    FilledPlus(t0, a, ValueOf(n));
    PlusAssoc(t, AddsInline(n.inline, n.def), Plus(OneObject(ValueOf(n)), a));
  }

  lemma OddTraits(h: nat, inline: Option<Inline>, def: TraitDef, t: Tables)
    requires TraitsLinked(h, inline, def, t)
    ensures h % 2 == 1
  {
  }

  lemma NamedZip(names: seq<seq<byte>>, values: seq<Value>)
    requires |names| == |values|
    ensures Zip(names, values) == NamedBy(names, values)
  {
  }

  /** The dynamic members, or none for traits that are not dynamic. */
  lemma MembersDecode(n: Node, depth: nat, t: Tables, tail: seq<byte>)
    requires n.ObjectNode? && (n.close.Some? <==> n.def.dynamic) && (!n.def.dynamic ==> n.members == [])
    requires NamedLinked(n.members, depth, t) && (n.close.Some? ==> EndLinked(n.close.value, Plus(t, AddsNamed(n.members))))
    ensures (if n.def.dynamic then DecodeMembers(SpellNamed(n.members) + (SpellEnd(n.close) + tail), depth, t)
             else Ok([], SpellNamed(n.members) + (SpellEnd(n.close) + tail), t))
         == Ok(MembersIn(n.members), tail, Plus(t, Plus(AddsNamed(n.members), AddsEnd(n.close))))
    decreases n.members, 1
  {
    hide DecodeMembers, SpellWord, NamedLinked, EndLinked, AddsWord, Plus;
    PlusNone(t);
    PlusNone(NO_TABLES);
    if n.def.dynamic {
      NamedDecode(n.members, n.close.value, depth, t, tail);
      PlusAssoc(t, AddsNamed(n.members), AddsWord(n.close.value));
    } else {
      assert [] + ([] + tail) == tail;
    }
  }

  lemma VectorObjectDecodes(n: Node, depth: nat, t: Tables, tail: seq<byte>)
    requires n.VectorNode? && Linked(n, depth, t)
    ensures Decode(Spell(n) + tail, depth, t) == Ok(ValueOf(n), tail, Plus(t, Adds(n)))
    decreases n, 0
  {
    hide Decode, DecodeAll, ReadU29, ReadString, IsHead, HeadOf, SpellNodes, SpellWord, WordLinked, NodesLinked, ValuesIn, AddsWord,
      AddsNodes, Plus, Filled, Pushed;
    var t0 := Plus(t, AddsWord(n.typeName));
    var y := SpellWord(n.typeName) + (SpellNodes(n.items) + tail);
    var x := [n.fixed] + y;
    assert Spell(n) + tail == [0x10] + (n.head + x) by {
      Assoc3([0x10], n.head + ([n.fixed] + (SpellWord(n.typeName) + SpellNodes(n.items))), tail);
      Assoc3(n.head, [n.fixed] + (SpellWord(n.typeName) + SpellNodes(n.items)), tail);
      Assoc3([n.fixed], SpellWord(n.typeName) + SpellNodes(n.items), tail);
      Assoc3(SpellWord(n.typeName), SpellNodes(n.items), tail);
    }
    DecodeMarker(0x10, n.head + x, depth, t);
    HeadRead(n.head, x);
    TakeBytePrefix(n.fixed, y);
    WordRead(n.typeName, t, SpellNodes(n.items) + tail);
    PushedPlus(t0, Null);
    NodesDecode(n.items, depth + 1, Plus(t0, OneObject(Null)), tail);
    WordAddsNoObject(n.typeName, t);
    FilledPlus(t0, AddsNodes(n.items), ValueOf(n));
    PlusAssoc(t, AddsWord(n.typeName), Plus(OneObject(ValueOf(n)), AddsNodes(n.items)));
  }

  lemma WordAddsNoObject(w: Word, t: Tables)
    ensures Plus(t, AddsWord(w)).objects == t.objects
  {
    hide HeadOf;
  }

  lemma DictionaryDecodes(n: Node, depth: nat, t: Tables, tail: seq<byte>)
    requires n.DictionaryNode? && Linked(n, depth, t)
    ensures Decode(Spell(n) + tail, depth, t) == Ok(ValueOf(n), tail, Plus(t, Adds(n)))
    decreases n, 0
  {
    hide Decode, DecodeEntries, ReadU29, IsHead, HeadOf, SpellNodes, NodesLinked, ValuesIn, AddsNodes, Plus, Filled, Pushed, Paired;
    var x := [n.weak] + (SpellNodes(n.entries) + tail);
    assert Spell(n) + tail == [0x11] + (n.head + x) by {
      Assoc3([0x11], n.head + ([n.weak] + SpellNodes(n.entries)), tail);
      Assoc3(n.head, [n.weak] + SpellNodes(n.entries), tail);
      Assoc3([n.weak], SpellNodes(n.entries), tail);
    }
    DecodeMarker(0x11, n.head + x, depth, t);
    HeadRead(n.head, x);
    TakeBytePrefix(n.weak, SpellNodes(n.entries) + tail);
    PushedPlus(t, Null);
    PairsDecode(|n.entries| / 2, n.entries, depth + 1, Plus(t, OneObject(Null)), tail);
    FilledPlus(t, AddsNodes(n.entries), ValueOf(n));
  }

  /** Every tree is decoded from its octets, whatever follows: its value, exactly its octets, and its
      additions to the tables. */
  lemma {:induction false} TreeDecodes(n: Node, depth: nat, t: Tables, tail: seq<byte>)
    requires Linked(n, depth, t)
    ensures Decode(Spell(n) + tail, depth, t) == Ok(ValueOf(n), tail, Plus(t, Adds(n)))
    decreases n, 1
  {
    PlusNone(t);
    match n {
      case Atom(m, octets, v) =>
        hide AtomLinked, Decode, Plus;
        AtomDecodes(m, octets, v, depth, t, tail);
      case Text(w) =>
        hide WordLinked, SpellWord, AddsWord, Decode, Plus;
        TextDecodes(w, depth, t, tail);
      case Back(m, head, i, v) =>
        hide BackLinked, Decode, Plus;
        BackDecodes(m, head, i, v, depth, t, tail);
      case Flat(m, octets, v) =>
        hide FlatBody, IsHead, HeadOf, Decode, Plus;
        var head, body :| octets == head + body && IsHead(head) && FlatBody(m, HeadOf(head), body, v);
        FlatDecodes(m, head, body, v, depth, t, tail);
      case ArrayNode(_, _, _, _) => ArrayDecodes(n, depth, t, tail);
      case ObjectNode(_, _, _, _, _, _) => ObjectDecodes(n, depth, t, tail);
      case VectorNode(_, _, _, _) => VectorObjectDecodes(n, depth, t, tail);
      case DictionaryNode(_, _, _) => DictionaryDecodes(n, depth, t, tail);
    }
  }
}
