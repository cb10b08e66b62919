/** What the AMF 3 decoder leaves over is the end of what it was given. */
module Amf3Tail {
  import opened Bytes
  import opened Text
  import opened Amf3Model
  import opened Amf3RoundTrip

  lemma U29Tail(w: seq<byte>)
    ensures ReadU29(w).Got? ==> Tail(ReadU29(w).rest, w)
  {
    var r := ReadU29(w);
    if r.Got? {
      hide Tail;
      assert r.rest == w[1..] || (|w| >= 2 && r.rest == w[1..][1..]) || (|w| >= 3 && r.rest == w[1..][1..][1..])
        || (|w| >= 4 && r.rest == w[1..][1..][1..][1..]);
      hide ReadU29;
      TakeTail(w, 1);
      if |w| >= 2 {
        var w1 := w[1..];
        TakeTail(w1, 1);
        TailTrans(w1[1..], w1, w);
        if |w| >= 3 {
          var w2 := w1[1..];
          TakeTail(w2, 1);
          TailTrans(w2[1..], w2, w);
          if |w| >= 4 {
            TakeTail(w2[1..], 1);
            TailTrans(w2[1..][1..], w2[1..], w);
          }
        }
      }
    }
  }

  lemma StringTail(w: seq<byte>, t: Tables)
    ensures ReadString(w, t).Ok? ==> Tail(ReadString(w, t).rest, w)
  {
    U29Tail(w);
    if ReadString(w, t).Ok? {
      hide ReadU29, ValidUtf8;
      var r := ReadU29(w);
      if r.value % 2 == 1 {
        TailTrans(ReadText(r.rest, r.value / 2).rest, r.rest, w);
      }
    }
  }

  lemma XmlTextTail(w: seq<byte>, t: Tables)
    ensures ReadXmlText(w, t).Ok? ==> Tail(ReadXmlText(w, t).rest, w)
  {
    U29Tail(w);
    if ReadXmlText(w, t).Ok? {
      hide ReadU29, ValidUtf8;
      var r := ReadU29(w);
      if r.value % 2 == 1 {
        TailTrans(ReadText(r.rest, r.value / 2).rest, r.rest, w);
      }
    }
  }

  lemma {:induction false} U32sTail(count: nat, w: seq<byte>)
    ensures ReadU32s(count, w).Got? ==> Tail(ReadU32s(count, w).rest, w)
    decreases count
  {
    hide UnBE;
    if ReadU32s(count, w).Got? && count > 0 {
      var w1 := TakeBE(w, 4).rest;
      U32sTail(count - 1, w1);
      TailTrans(ReadU32s(count - 1, w1).rest, w1, w);
    }
  }

  lemma {:induction false} U64sTail(count: nat, w: seq<byte>)
    ensures ReadU64s(count, w).Got? ==> Tail(ReadU64s(count, w).rest, w)
    decreases count
  {
    hide UnBE;
    if ReadU64s(count, w).Got? && count > 0 {
      var w1 := TakeBE(w, 8).rest;
      U64sTail(count - 1, w1);
      TailTrans(ReadU64s(count - 1, w1).rest, w1, w);
    }
  }

  /** Dates and byte arrays. */
  lemma FlatTail(w: seq<byte>, t: Tables)
    ensures ReadDate(w, t).Ok? ==> Tail(ReadDate(w, t).rest, w)
    ensures ReadByteArray(w, t).Ok? ==> Tail(ReadByteArray(w, t).rest, w)
  {
    hide ReadU29, UnBE, Tail;
    U29Tail(w);
    var h := ReadU29(w);
    if h.Got? {
      SkipTail(w, h.rest, 8);
      SkipTail(w, h.rest, h.value / 2);
    }
  }

  lemma SkipTail(w: seq<byte>, w1: seq<byte>, n: nat)
    requires Tail(w1, w)
    ensures n <= |w1| ==> Tail(w1[n..], w)
  {
    if n <= |w1| {
      TakeTail(w1, n);
      TailTrans(w1[n..], w1, w);
    }
  }

  lemma NumbersTail(w: seq<byte>, w1: seq<byte>, n: nat)
    requires Tail(w1, w)
    ensures w1 != [] && ReadU32s(n, w1[1..]).Got? ==> Tail(ReadU32s(n, w1[1..]).rest, w)
    ensures w1 != [] && ReadU64s(n, w1[1..]).Got? ==> Tail(ReadU64s(n, w1[1..]).rest, w)
  {
    hide ReadU32s, ReadU64s, Tail;
    if w1 != [] {
      var x := w1[1..];
      SkipTail(w, w1, 1);
      U32sTail(n, x);
      U64sTail(n, x);
      if ReadU32s(n, x).Got? {
        TailTrans(ReadU32s(n, x).rest, x, w);
      }
      if ReadU64s(n, x).Got? {
        TailTrans(ReadU64s(n, x).rest, x, w);
      }
    }
  }

  lemma VectorTail(w: seq<byte>, t: Tables)
    ensures ReadVectorInt(w, t).Ok? ==> Tail(ReadVectorInt(w, t).rest, w)
    ensures ReadVectorUInt(w, t).Ok? ==> Tail(ReadVectorUInt(w, t).rest, w)
    ensures ReadVectorDouble(w, t).Ok? ==> Tail(ReadVectorDouble(w, t).rest, w)
  {
    hide ReadU29, Tail, ReadU32s, ReadU64s;
    U29Tail(w);
    var h := ReadU29(w);
    if h.Got? {
      NumbersTail(w, h.rest, h.value / 2);
    }
  }

  lemma TakeTail(w: seq<byte>, n: nat)
    ensures n <= |w| ==> Tail(w[n..], w)
  {
  }

  lemma {:induction false} NamesTail(count: nat, w: seq<byte>, t: Tables)
    ensures ReadNames(count, w, t).Ok? ==> Tail(ReadNames(count, w, t).rest, w)
    decreases count
  {
    hide ReadString;
    if ReadNames(count, w, t).Ok? && count > 0 {
      var r := ReadString(w, t);
      StringTail(w, t);
      NamesTail(count - 1, r.rest, r.t);
      TailTrans(ReadNames(count - 1, r.rest, r.t).rest, r.rest, w);
    }
  }

  lemma TraitsTail(h: nat, w: seq<byte>, t: Tables)
    ensures ReadTraits(h, w, t).Ok? ==> Tail(ReadTraits(h, w, t).rest, w)
  {
    hide ReadString, ReadNames;
    if ReadTraits(h, w, t).Ok? && h / 2 % 2 != 0 {
      var r := ReadString(w, t);
      StringTail(w, t);
      NamesTail(h / 16, r.rest, r.t);
      TailTrans(ReadNames(h / 16, r.rest, r.t).rest, r.rest, w);
    }
  }

  lemma {:induction false} DecodeTail(w: seq<byte>, depth: nat, t: Tables)
    ensures Decode(w, depth, t).Ok? ==> Tail(Decode(w, depth, t).rest, w)
    decreases |w|, 0
  {
    var r := Decode(w, depth, t);
    if r.Ok? {
      var m, x := w[0], w[1..];
      assert depth < MAX_DEPTH && w == [m] + x;
      BehindMarker(m, x, depth, t);
      TailTrans(r.rest, x, w);
    }
  }

  lemma BehindMarker(m: byte, x: seq<byte>, depth: nat, t: Tables)
    requires depth < MAX_DEPTH
    ensures Decode([m] + x, depth, t).Ok? ==> Tail(Decode([m] + x, depth, t).rest, x)
    decreases |x| + 1, -1
  {
    hide Decode, Tail, ReadString, ReadXmlText, ReadDate, ReadByteArray, ReadVectorInt, ReadVectorUInt,
      ReadVectorDouble, ReadArray, ReadObject, ReadVectorObject, ReadDictionary, ReadU29, UnBE;
    DecodeMarker(m, x, depth, t);
    DecodeMarkerPlain(m, x, depth, t);
    DecodeMarkerText(m, x, depth, t);
    StringTail(x, t);
    XmlTextTail(x, t);
    FlatTail(x, t);
    VectorTail(x, t);
    U29Tail(x);
    TakeTail(x, 8);
    TakeTail(x, 0);
    ArrayTail(x, depth + 1, t);
    ObjectTail(x, depth + 1, t);
    VectorObjectTail(x, depth + 1, t);
    DictionaryTail(x, depth + 1, t);
  }

  lemma ArrayTail(w: seq<byte>, depth: nat, t: Tables)
    ensures ReadArray(w, depth, t).Ok? ==> Tail(ReadArray(w, depth, t).rest, w)
    decreases |w|, 0
  {
    U29Tail(w);
    if ReadArray(w, depth, t).Ok? {
      hide ReadU29, DecodeMembers, DecodeAll, Tail;
      var h := ReadU29(w);
      if h.value % 2 == 1 {
        MembersTail(h.rest, depth, Pushed(t, Null));
        var r := DecodeMembers(h.rest, depth, Pushed(t, Null));
        AllTail(h.value / 2, r.rest, depth, r.t);
        TailTrans(r.rest, h.rest, w);
        TailTrans(DecodeAll(h.value / 2, r.rest, depth, r.t).rest, r.rest, w);
      }
    }
  }

  lemma ObjectTail(w: seq<byte>, depth: nat, t: Tables)
    ensures ReadObject(w, depth, t).Ok? ==> Tail(ReadObject(w, depth, t).rest, w)
    decreases |w|, 0
  {
    U29Tail(w);
    if ReadObject(w, depth, t).Ok? {
      hide ReadU29, DecodeMembers, DecodeAll, Tail, ReadTraits;
      var h := ReadU29(w);
      if h.value % 2 == 1 {
        TraitsTail(h.value, h.rest, t);
        var r := ReadTraits(h.value, h.rest, t);
        AllTail(|r.value.names|, r.rest, depth, Pushed(r.t, Null));
        var r1 := DecodeAll(|r.value.names|, r.rest, depth, Pushed(r.t, Null));
        TailTrans(r.rest, h.rest, w);
        TailTrans(r1.rest, r.rest, w);
        if r.value.dynamic {
          MembersTail(r1.rest, depth, r1.t);
          TailTrans(DecodeMembers(r1.rest, depth, r1.t).rest, r1.rest, w);
        }
      }
    }
  }

  lemma VectorObjectTail(w: seq<byte>, depth: nat, t: Tables)
    ensures ReadVectorObject(w, depth, t).Ok? ==> Tail(ReadVectorObject(w, depth, t).rest, w)
    decreases |w|, 0
  {
    U29Tail(w);
    if ReadVectorObject(w, depth, t).Ok? {
      hide ReadU29, ReadString, DecodeAll, Tail;
      var h := ReadU29(w);
      if h.value % 2 == 1 {
        var w2 := h.rest[1..];
        TakeTail(h.rest, 1);
        StringTail(w2, t);
        var r := ReadString(w2, t);
        AllTail(h.value / 2, r.rest, depth, Pushed(r.t, Null));
        TailTrans(w2, h.rest, w);
        TailTrans(r.rest, w2, w);
        TailTrans(DecodeAll(h.value / 2, r.rest, depth, Pushed(r.t, Null)).rest, r.rest, w);
      }
    }
  }

  lemma DictionaryTail(w: seq<byte>, depth: nat, t: Tables)
    ensures ReadDictionary(w, depth, t).Ok? ==> Tail(ReadDictionary(w, depth, t).rest, w)
    decreases |w|, 0
  {
    U29Tail(w);
    if ReadDictionary(w, depth, t).Ok? {
      hide ReadU29, DecodeEntries, Tail;
      var h := ReadU29(w);
      if h.value % 2 == 1 {
        var w2 := h.rest[1..];
        TakeTail(h.rest, 1);
        EntriesTail(h.value / 2, w2, depth, Pushed(t, Null));
        TailTrans(w2, h.rest, w);
        TailTrans(DecodeEntries(h.value / 2, w2, depth, Pushed(t, Null)).rest, w2, w);
      }
    }
  }

  lemma {:induction false} AllTail(count: nat, w: seq<byte>, depth: nat, t: Tables)
    ensures DecodeAll(count, w, depth, t).Ok? ==> Tail(DecodeAll(count, w, depth, t).rest, w)
    decreases |w|, 1
  {
    hide Decode;
    if DecodeAll(count, w, depth, t).Ok? && count > 0 {
      DecodeTail(w, depth, t);
      var r := Decode(w, depth, t);
      AllTail(count - 1, r.rest, depth, r.t);
      TailTrans(DecodeAll(count - 1, r.rest, depth, r.t).rest, r.rest, w);
    }
  }

  lemma {:induction false} MembersTail(w: seq<byte>, depth: nat, t: Tables)
    ensures DecodeMembers(w, depth, t).Ok? ==> Tail(DecodeMembers(w, depth, t).rest, w)
    decreases |w|, 1
  {
    hide Decode, ReadString, Tail;
    if DecodeMembers(w, depth, t).Ok? {
      StringTail(w, t);
      var k := ReadString(w, t);
      if k.value != [] {
        DecodeTail(k.rest, depth, k.t);
        var r := Decode(k.rest, depth, k.t);
        MembersTail(r.rest, depth, r.t);
        TailTrans(r.rest, k.rest, w);
        TailTrans(DecodeMembers(r.rest, depth, r.t).rest, r.rest, w);
      }
    }
  }

  lemma {:induction false} EntriesTail(count: nat, w: seq<byte>, depth: nat, t: Tables)
    ensures DecodeEntries(count, w, depth, t).Ok? ==> Tail(DecodeEntries(count, w, depth, t).rest, w)
    decreases |w|, 1
  {
    hide Decode, Tail;
    TakeTail(w, 0);
    if DecodeEntries(count, w, depth, t).Ok? && count > 0 {
      DecodeTail(w, depth, t);
      var k := Decode(w, depth, t);
      DecodeTail(k.rest, depth, k.t);
      var r := Decode(k.rest, depth, k.t);
      EntriesTail(count - 1, r.rest, depth, r.t);
      TailTrans(r.rest, k.rest, w);
      TailTrans(DecodeEntries(count - 1, r.rest, depth, r.t).rest, r.rest, w);
    }
  }
}
