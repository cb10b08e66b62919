/** The reference tables of the AMF 3 decoder: they only grow, no slot is ever changed once the value
    it was reserved for is complete, and the first slot a value adds holds that value. */
module Amf3Tables {
  import opened Bytes
  import opened Text
  import opened Amf3Model
  import opened Amf3RoundTrip

  ghost predicate Grows(a: Tables, b: Tables) {
    a.strings <= b.strings && a.objects <= b.objects && a.traits <= b.traits
  }

  /** XML texts are kept as documents, whatever their marker. */
  function Stored(v: Value): Value {
    if v.Xml? then XmlDocument(v.text) else v
  }

  /** What decoding one value does to the tables. */
  ghost predicate Stores(t: Tables, r: Dec<Value>)
    requires r.Ok?
  {
    && Grows(t, r.t)
    && (r.t.objects == t.objects || (|r.t.objects| > |t.objects| && r.t.objects[|t.objects|] == Stored(r.value)))
  }

  lemma GrowsTrans(a: Tables, b: Tables, c: Tables)
    requires Grows(a, b) && Grows(b, c)
    ensures Grows(a, c)
  {
  }

  lemma GrowsRefl(t: Tables)
    ensures Grows(t, t)
  {
  }

  /** A reserved slot is filled once everything in between was added behind it. */
  lemma FilledStores(t: Tables, t0: Tables, t1: Tables, v: Value, rest: seq<byte>)
    requires Grows(t, t0) && t0.objects == t.objects && Grows(Pushed(t0, Null), t1) && !v.Xml?
    ensures Stores(t, Ok(v, rest, Filled(t1, |t.objects|, v)))
  {
    assert t1.objects[..|t.objects|] == Pushed(t0, Null).objects[..|t.objects|];
  }

  lemma StringGrows(w: seq<byte>, t: Tables)
    ensures ReadString(w, t).Ok? ==> Grows(t, ReadString(w, t).t) && ReadString(w, t).t.objects == t.objects
  {
    hide ReadU29, ReadText;
  }

  lemma {:induction false} NamesGrow(count: nat, w: seq<byte>, t: Tables)
    ensures var r := ReadNames(count, w, t);
            r.Ok? ==> Grows(t, r.t) && r.t.objects == t.objects
    decreases count
  {
    hide ReadString;
    if count > 0 {
      StringGrows(w, t);
      var s := ReadString(w, t);
      if s.Ok? {
        NamesGrow(count - 1, s.rest, s.t);
      }
    }
  }

  lemma TraitsGrow(h: nat, w: seq<byte>, t: Tables)
    ensures var r := ReadTraits(h, w, t);
            r.Ok? ==> Grows(t, r.t) && r.t.objects == t.objects
  {
    hide ReadString, ReadNames;
    StringGrows(w, t);
    var s := ReadString(w, t);
    if s.Ok? {
      NamesGrow(h / 16, s.rest, s.t);
    }
  }

  lemma FlatStores(w: seq<byte>, t: Tables)
    ensures ReadDate(w, t).Ok? ==> Stores(t, ReadDate(w, t))
    ensures ReadByteArray(w, t).Ok? ==> Stores(t, ReadByteArray(w, t))
  {
    hide ReadU29, UnBE;
  }

  lemma VectorStores(w: seq<byte>, t: Tables)
    ensures ReadVectorInt(w, t).Ok? ==> Stores(t, ReadVectorInt(w, t))
    ensures ReadVectorUInt(w, t).Ok? ==> Stores(t, ReadVectorUInt(w, t))
    ensures ReadVectorDouble(w, t).Ok? ==> Stores(t, ReadVectorDouble(w, t))
  {
    hide ReadU29, ReadU32s, ReadU64s;
  }

  lemma XmlStores(w: seq<byte>, t: Tables)
    ensures var r := ReadXmlText(w, t);
            r.Ok? ==> Stores(t, Ok(Xml(r.value), r.rest, r.t)) && Stores(t, Ok(XmlDocument(r.value), r.rest, r.t))
  {
    hide ReadU29, ReadText;
  }

  /** Decoding a value adds to the tables and changes nothing in them; if it adds objects, the first
      of the new slots holds the value itself, complete. */
  lemma {:induction false} DecodeStores(w: seq<byte>, depth: nat, t: Tables)
    ensures Decode(w, depth, t).Ok? ==> Stores(t, Decode(w, depth, t))
    decreases |w|, 0
  {
    var r := Decode(w, depth, t);
    if r.Ok? {
      var m, x := w[0], w[1..];
      assert depth < MAX_DEPTH && w == [m] + x;
      hide Decode, Stores;
      BehindMarker(m, x, depth, t);
    }
  }

  lemma BehindMarker(m: byte, x: seq<byte>, depth: nat, t: Tables)
    requires depth < MAX_DEPTH
    ensures Decode([m] + x, depth, t).Ok? ==> Stores(t, Decode([m] + x, depth, t))
    decreases |x| + 1, -1
  {
    hide Decode, Stores, ReadString, ReadXmlText, ReadDate, ReadByteArray, ReadVectorInt, ReadVectorUInt,
      ReadVectorDouble, ReadArray, ReadObject, ReadVectorObject, ReadDictionary, ReadU29, UnBE;
    DecodeMarker(m, x, depth, t);
    DecodeMarkerPlain(m, x, depth, t);
    DecodeMarkerText(m, x, depth, t);
    NothingStored(m, x, depth, t);
    XmlStores(x, t);
    FlatStores(x, t);
    VectorStores(x, t);
    ArrayStores(x, depth + 1, t);
    ObjectStores(x, depth + 1, t);
    VectorObjectStores(x, depth + 1, t);
    DictionaryStores(x, depth + 1, t);
  }

  lemma NothingStored(m: byte, x: seq<byte>, depth: nat, t: Tables)
    requires depth < MAX_DEPTH
    ensures m <= 0x06 && Decode([m] + x, depth, t).Ok? ==> Stores(t, Decode([m] + x, depth, t))
  {
    hide Decode, ReadString, ReadU29, UnBE;
    DecodeMarkerPlain(m, x, depth, t);
    DecodeMarkerText(m, x, depth, t);
    StringGrows(x, t);
  }

  lemma ArrayStores(w: seq<byte>, depth: nat, t: Tables)
    ensures ReadArray(w, depth, t).Ok? ==> Stores(t, ReadArray(w, depth, t))
    decreases |w|, 0
  {
    if ReadArray(w, depth, t).Ok? {
      hide ReadU29, DecodeMembers, DecodeAll;
      var h := ReadU29(w);
      if h.value % 2 == 1 {
        var t0 := Pushed(t, Null);
        MembersGrow(h.rest, depth, t0);
        var r := DecodeMembers(h.rest, depth, t0);
        AllGrow(h.value / 2, r.rest, depth, r.t);
        var r1 := DecodeAll(h.value / 2, r.rest, depth, r.t);
        GrowsTrans(t0, r.t, r1.t);
        FilledStores(t, t, r1.t, Array(r1.value, r.value), r1.rest);
      }
    }
  }

  lemma ObjectStores(w: seq<byte>, depth: nat, t: Tables)
    ensures ReadObject(w, depth, t).Ok? ==> Stores(t, ReadObject(w, depth, t))
    decreases |w|, 0
  {
    if ReadObject(w, depth, t).Ok? {
      hide ReadU29, DecodeMembers, DecodeAll, ReadTraits, Stores, Filled;
      var h := ReadU29(w);
      if h.value % 2 == 1 {
        TraitsGrow(h.value, h.rest, t);
        var r := ReadTraits(h.value, h.rest, t);
        var t0 := Pushed(r.t, Null);
        AllGrow(|r.value.names|, r.rest, depth, t0);
        var r1 := DecodeAll(|r.value.names|, r.rest, depth, t0);
        var r2 := if r.value.dynamic then DecodeMembers(r1.rest, depth, r1.t) else Ok([], r1.rest, r1.t);
        if r.value.dynamic {
          MembersGrow(r1.rest, depth, r1.t);
        }
        GrowsTrans(t0, r1.t, r2.t);
        var v := Object(r.value.className, r.value.dynamic, Zip(r.value.names, r1.value), r2.value, None);
        FilledStores(t, r.t, r2.t, v, r2.rest);
        assert ReadObject(w, depth, t) == Ok(v, r2.rest, Filled(r2.t, |r.t.objects|, v));
      } else {
        LookupStores(t, h.value / 2, h.rest);
      }
    }
  }

  lemma LookupStores(t: Tables, idx: nat, w: seq<byte>)
    ensures LookupObject(t, idx, w).Ok? ==> Stores(t, LookupObject(t, idx, w))
  {
  }

  lemma VectorObjectStores(w: seq<byte>, depth: nat, t: Tables)
    ensures ReadVectorObject(w, depth, t).Ok? ==> Stores(t, ReadVectorObject(w, depth, t))
    decreases |w|, 0
  {
    if ReadVectorObject(w, depth, t).Ok? {
      hide ReadU29, ReadString, DecodeAll;
      var h := ReadU29(w);
      if h.value % 2 == 1 {
        var w2 := h.rest[1..];
        StringGrows(w2, t);
        var r := ReadString(w2, t);
        AllGrow(h.value / 2, r.rest, depth, Pushed(r.t, Null));
        var r1 := DecodeAll(h.value / 2, r.rest, depth, Pushed(r.t, Null));
        FilledStores(t, r.t, r1.t, VectorObject(h.rest[0] != 0, r.value, r1.value), r1.rest);
      }
    }
  }

  lemma DictionaryStores(w: seq<byte>, depth: nat, t: Tables)
    ensures ReadDictionary(w, depth, t).Ok? ==> Stores(t, ReadDictionary(w, depth, t))
    decreases |w|, 0
  {
    if ReadDictionary(w, depth, t).Ok? {
      hide ReadU29, DecodeEntries;
      var h := ReadU29(w);
      if h.value % 2 == 1 {
        var w2, t0 := h.rest[1..], Pushed(t, Null);
        EntriesGrow(h.value / 2, w2, depth, t0);
        var r := DecodeEntries(h.value / 2, w2, depth, t0);
        FilledStores(t, t, r.t, Dictionary(h.rest[0] != 0, r.value), r.rest);
      }
    }
  }

  lemma {:induction false} AllGrow(count: nat, w: seq<byte>, depth: nat, t: Tables)
    ensures DecodeAll(count, w, depth, t).Ok? ==> Grows(t, DecodeAll(count, w, depth, t).t)
    decreases |w|, 1
  {
    hide Decode, Grows;
    GrowsRefl(t);
    if DecodeAll(count, w, depth, t).Ok? && count > 0 {
      DecodeStores(w, depth, t);
      var r := Decode(w, depth, t);
      AllGrow(count - 1, r.rest, depth, r.t);
      GrowsTrans(t, r.t, DecodeAll(count - 1, r.rest, depth, r.t).t);
    }
  }

  lemma {:induction false} MembersGrow(w: seq<byte>, depth: nat, t: Tables)
    ensures DecodeMembers(w, depth, t).Ok? ==> Grows(t, DecodeMembers(w, depth, t).t)
    decreases |w|, 1
  {
    hide Decode, ReadString, Grows;
    if DecodeMembers(w, depth, t).Ok? {
      StringGrows(w, t);
      var k := ReadString(w, t);
      if k.value != [] {
        DecodeStores(k.rest, depth, k.t);
        var r := Decode(k.rest, depth, k.t);
        MembersGrow(r.rest, depth, r.t);
        GrowsTrans(t, k.t, r.t);
        GrowsTrans(t, r.t, DecodeMembers(r.rest, depth, r.t).t);
      }
    }
  }

  lemma {:induction false} EntriesGrow(count: nat, w: seq<byte>, depth: nat, t: Tables)
    ensures DecodeEntries(count, w, depth, t).Ok? ==> Grows(t, DecodeEntries(count, w, depth, t).t)
    decreases |w|, 1
  {
    hide Decode, Grows;
    GrowsRefl(t);
    if DecodeEntries(count, w, depth, t).Ok? && count > 0 {
      DecodeStores(w, depth, t);
      var k := Decode(w, depth, t);
      DecodeStores(k.rest, depth, k.t);
      var r := Decode(k.rest, depth, k.t);
      EntriesGrow(count - 1, r.rest, depth, r.t);
      GrowsTrans(t, k.t, r.t);
      GrowsTrans(t, r.t, DecodeEntries(count - 1, r.rest, depth, r.t).t);
    }
  }
}
