/** Bodies of AMF 3 data and command messages: three ways of framing the same values. */
module AmfFraming {
  import opened Bytes
  import Amf0 = Amf0Model
  import Amf0RoundTrip
  import Amf3 = Amf3Model
  import opened Amf3RoundTrip
  import opened Amf3Tables

  const SWITCH: byte := 0x11
  const SELECT_AMF0: byte := 0x00

  // ------------------------------------------------------------------ decoding

  /** A sequence of AMF 3 values, each with or without the switch marker, sharing their tables. */
  function DecodeDataMessage(w: seq<byte>, t: Amf3.Tables): Option<seq<Amf3.Value>>
    decreases |w|
  {
    if w == [] then Some([])
    else if w[0] == SWITCH && |w| == 1 then None
    else
      var w0 := if w[0] == SWITCH then w[1..] else w;
      match Amf3.Decode(w0, 0, t)
      case Bad => None
      case Ok(v, w1, t1) =>
        match DecodeDataMessage(w1, t1)
        case None => None
        case Some(vs) => Some([v] + vs)
  }

  /** The body as AMF 0 values: a leading selector announces AMF 0 framing. */
  function DecodeMessage(w: seq<byte>, show: Amf0.ShowDouble): Option<seq<Amf0.Value>> {
    if w != [] && w[0] == SELECT_AMF0 then Amf0.DecodeBuffer(w[1..], [], show)
    else
      match DecodeDataMessage(w, Amf3.NO_TABLES)
      case None => None
      case Some(vs) => Some(Amf0.AllToAmf0(vs, show))
  }

  // ------------------------------------------------------------------- framing

  /** Every value behind a switch marker. */
  function Switched(vs: seq<Amf3.Value>): seq<byte> {
    if vs == [] then [] else [SWITCH] + (Amf3.Encode(vs[0]) + Switched(vs[1..]))
  }

  function Selected(vs: seq<Amf3.Value>): seq<byte> {
    [SELECT_AMF0] + Switched(vs)
  }

  lemma {:induction false} SwitchedRead(vs: seq<Amf3.Value>, t: Amf3.Tables)
    requires AllEncodable(vs, Amf3.MAX_DEPTH)
    ensures DecodeDataMessage(Switched(vs), t) == Some(vs)
  {
    hide Amf3.Decode, Amf3.Encode, Encodable;
    if vs != [] {
      var body := Amf3.Encode(vs[0]) + Switched(vs[1..]);
      EncodeNonEmpty(vs[0]);
      Exact(vs[0], 0, t, Switched(vs[1..]));
      assert ([SWITCH] + body)[1..] == body;
      SwitchedRead(vs[1..], Amf3.Decode(body, 0, t).t);
      assert [vs[0]] + vs[1..] == vs;
    }
  }

  lemma {:induction false} SelectedRead(vs: seq<Amf3.Value>, refs: Amf0.Refs, show: Amf0.ShowDouble)
    requires AllEncodable(vs, Amf3.MAX_DEPTH)
    ensures Amf0.DecodeBuffer(Switched(vs), refs, show) == Some(Amf0.AllToAmf0(vs, show))
  {
    hide Amf0.Decode, Amf3.Decode, Amf3.Encode, Encodable, Amf0.ToAmf0;
    if vs != [] {
      var body := Amf3.Encode(vs[0]) + Switched(vs[1..]);
      Exact(vs[0], 0, Amf3.NO_TABLES, Switched(vs[1..]));
      Amf0RoundTrip.DecodeContainer(SWITCH, body, 0, refs, show);
      SelectedRead(vs[1..], refs, show);
    }
  }

  /** Values whose encoding cannot be mistaken for framing. */
  predicate BareOk(vs: seq<Amf3.Value>) {
    (vs != [] ==> !vs[0].Undefined?) && forall v <- vs :: !v.Dictionary?
  }

  lemma FirstOctet(v: Amf3.Value)
    ensures Amf3.Encode(v) != []
    ensures Amf3.Encode(v)[0] == SWITCH <==> v.Dictionary?
    ensures Amf3.Encode(v)[0] == SELECT_AMF0 <==> v.Undefined?
  {
  }

  lemma {:induction false} BareRead(vs: seq<Amf3.Value>, t: Amf3.Tables)
    requires AllEncodable(vs, Amf3.MAX_DEPTH) && forall v <- vs :: !v.Dictionary?
    ensures DecodeDataMessage(Amf3.EncodeAll(vs), t) == Some(vs)
  {
    hide Amf3.Decode, Amf3.Encode, Encodable;
    if vs != [] {
      FirstOctet(vs[0]);
      Exact(vs[0], 0, t, Amf3.EncodeAll(vs[1..]));
      BareRead(vs[1..], Amf3.Decode(Amf3.EncodeAll(vs), 0, t).t);
      assert [vs[0]] + vs[1..] == vs;
    }
  }

  /** With the selector, with switch markers only, and bare where that is unambiguous, the same
      values are decoded: the given ones, seen as AMF 0. */
  lemma FramingsAgree(vs: seq<Amf3.Value>, show: Amf0.ShowDouble)
    requires AllEncodable(vs, Amf3.MAX_DEPTH)
    ensures DecodeMessage(Selected(vs), show) == Some(Amf0.AllToAmf0(vs, show))
    ensures DecodeMessage(Switched(vs), show) == Some(Amf0.AllToAmf0(vs, show))
    ensures BareOk(vs) ==> DecodeMessage(Amf3.EncodeAll(vs), show) == Some(Amf0.AllToAmf0(vs, show))
  {
    hide Amf3.Encode, Amf0.DecodeBuffer, DecodeDataMessage, Amf0.AllToAmf0, AllEncodable;
    assert Selected(vs)[1..] == Switched(vs);
    SelectedRead(vs, [], show);
    SwitchedRead(vs, Amf3.NO_TABLES);
    if BareOk(vs) {
      BareRead(vs, Amf3.NO_TABLES);
      if vs != [] {
        FirstOctet(vs[0]);
      }
    }
  }

  /** Bare, an undefined value in front is taken for the selector, and a dictionary for a switch. */
  lemma BareIsAmbiguous(show: Amf0.ShowDouble)
    ensures DecodeMessage(Amf3.EncodeAll([Amf3.Undefined]), show) == Some([])
    ensures DecodeMessage(Amf3.EncodeAll([Amf3.Dictionary(false, [])]), show) == Some([Amf0.Null, Amf0.Undefined])
  {
    assert Amf3.EncodeAll([Amf3.Undefined]) == [0x00];
    DictionaryTakenForSwitch(show);
  }

  lemma DictionaryTakenForSwitch(show: Amf0.ShowDouble)
    ensures DecodeMessage(Amf3.EncodeAll([Amf3.Dictionary(false, [])]), show) == Some([Amf0.Null, Amf0.Undefined])
  {
    var w := Amf3.EncodeAll([Amf3.Dictionary(false, [])]);
    assert w == [0x11, 0x01, 0x00];
    hide Amf3.Decode, Amf3.Encode, Amf3.EncodeAll;
    var t, x1: seq<byte>, x0: seq<byte> := Amf3.NO_TABLES, [0x00], [];
    assert w[1..] == [0x01] + x1 && x1 == [0x00] + x0;
    DecodeMarkerPlain(0x01, x1, 0, t);
    DecodeMarkerPlain(0x00, x0, 0, t);
    assert DecodeDataMessage(x0, t) == Some([]);
    assert DecodeDataMessage(x1, t) == Some([Amf3.Undefined] + []);
    assert DecodeDataMessage(w, t) == Some([Amf3.Null] + ([Amf3.Undefined] + []));
    var vs := [Amf3.Null, Amf3.Undefined];
    assert [Amf3.Null] + ([Amf3.Undefined] + []) == vs;
    assert vs[1..] == [Amf3.Undefined] && vs[1..][1..] == [];
    assert Amf0.AllToAmf0([], show) == [];
    assert Amf0.AllToAmf0(vs[1..], show) == [Amf0.Undefined] + [];
    assert Amf0.AllToAmf0(vs, show) == [Amf0.Null] + ([Amf0.Undefined] + []);
    assert [Amf0.Null] + ([Amf0.Undefined] + []) == [Amf0.Null, Amf0.Undefined];
  }

  /** No dictionary stands in the first object slot. */
  predicate NoDictionaryFirst(t: Amf3.Tables) {
    t.objects == [] || !t.objects[0].Dictionary?
  }

  /** Behind a one-octet header of 0 or 1, only the dictionary marker yields a dictionary, and an
      empty one. */
  lemma NoDictionary(m: byte, flag: byte, x: seq<byte>, t: Amf3.Tables)
    requires flag <= 1 && NoDictionaryFirst(t)
    ensures var r := Amf3.Decode([m] + ([flag] + x), 0, t);
            r.Ok? && r.value.Dictionary? ==> m == 0x11 && r.value.entries == []
  {
    var w := [flag] + x;
    var h := Amf3.ReadU29(w);
    assert h == Got(flag as nat, x);
    DecodeMarker(m, w, 0, t);
    DecodeMarkerPlain(m, w, 0, t);
    DecodeMarkerText(m, w, 0, t);
    UnknownMarker(m, w, t);
    hide Amf3.Decode, Amf3.ReadU29, Amf3.DecodeMembers, Amf3.DecodeAll, Amf3.ReadTraits, Amf3.ReadString, Amf3.ReadXmlText, UnBE;
    if m == 0x11 && flag == 1 && x != [] {
      assert Amf3.DecodeEntries(0, x[1..], 1, Amf3.Pushed(t, Amf3.Null)) == Amf3.Ok([], x[1..], Amf3.Pushed(t, Amf3.Null));
    }
  }

  lemma UnknownMarker(m: byte, x: seq<byte>, t: Amf3.Tables)
    ensures m > 0x11 ==> Amf3.Decode([m] + x, 0, t) == Amf3.Bad
  {
  }

  /** Behind the marker of a dictionary stands nothing that decodes to that dictionary. */
  lemma DictionaryMisread(d: Amf3.Value, tail: seq<byte>, t: Amf3.Tables)
    requires d.Dictionary? && NoDictionaryFirst(t)
    ensures var w := (Amf3.Encode(d) + tail)[1..];
            var r := Amf3.Decode(w, 0, t);
            |Amf3.Encode(d) + tail| > 1 && !(r.Ok? && r.value == d)
  {
    hide Amf3.Decode, Amf3.EncodeEntries;
    var n := 2 * |d.entries| + 1;
    var lit := Amf3.WriteU29(n);
    var body: seq<byte> := [Amf3.Flag(d.weakKeys)] + Amf3.EncodeEntries(d.entries);
    var w := (Amf3.Encode(d) + tail)[1..];
    assert w == lit + (body + tail);
    var m := lit[0];
    if m >= 0x80 {
      assert w == [m] + w[1..];
      UnknownMarker(m, w[1..], t);
    } else {
      assert m == n % Amf3.U29_MOD && lit == [m];
      var x := Amf3.EncodeEntries(d.entries) + tail;
      assert w == [m] + ([Amf3.Flag(d.weakKeys)] + x);
      NoDictionary(m, Amf3.Flag(d.weakKeys), x, t);
    }
  }

  lemma {:induction false} BareMisread(vs: seq<Amf3.Value>, t: Amf3.Tables)
    requires AllEncodable(vs, Amf3.MAX_DEPTH) && NoDictionaryFirst(t) && exists v <- vs :: v.Dictionary?
    ensures DecodeDataMessage(Amf3.EncodeAll(vs), t) != Some(vs)
  {
    hide Amf3.Decode, Amf3.Encode, Encodable;
    var w, more := Amf3.EncodeAll(vs), Amf3.EncodeAll(vs[1..]);
    FirstOctet(vs[0]);
    if vs[0].Dictionary? {
      DictionaryMisread(vs[0], more, t);
      var r := Amf3.Decode(w[1..], 0, t);
      if r.Ok? {
        var others := DecodeDataMessage(r.rest, r.t);
        if others.Some? {
          ConsIff(r.value, others.value, vs);
        }
      }
    } else {
      Exact(vs[0], 0, t, more);
      DecodeStores(w, 0, t);
      var r := Amf3.Decode(w, 0, t);
      BareMisread(vs[1..], r.t);
      var others := DecodeDataMessage(more, r.t);
      if others.Some? {
        ConsIff(r.value, others.value, vs);
      }
    }
  }

  /** Without markers of any kind, values are read as they were written exactly when none of them is a
      dictionary. */
  lemma BareExact(vs: seq<Amf3.Value>)
    requires AllEncodable(vs, Amf3.MAX_DEPTH)
    ensures DecodeDataMessage(Amf3.EncodeAll(vs), Amf3.NO_TABLES) == Some(vs) <==> forall v <- vs :: !v.Dictionary?
  {
    if v :| v in vs && v.Dictionary? {
      BareMisread(vs, Amf3.NO_TABLES);
    } else {
      BareRead(vs, Amf3.NO_TABLES);
    }
  }

  /** A switch marker at the very end announces nothing, and is refused. */
  lemma DanglingSwitch(t: Amf3.Tables)
    ensures DecodeDataMessage([0x11], t) == None
  {
  }

  /** Behind the selector everything is read as AMF 0; without it, as AMF 3 and converted. */
  lemma SelectorSays(w: seq<byte>, show: Amf0.ShowDouble)
    ensures DecodeMessage([0x00] + w, show) == Amf0.DecodeBuffer(w, [], show)
    ensures w == [] || w[0] != 0x00 ==>
              DecodeMessage(w, show) == match DecodeDataMessage(w, Amf3.NO_TABLES)
                                        case None => None
                                        case Some(vs) => Some(Amf0.AllToAmf0(vs, show))
  {
    assert ([0x00] + w)[1..] == w;
  }
}
