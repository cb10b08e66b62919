/** What AMF 3 values become as AMF 0 values. */
module Amf0View {
  import opened Bytes
  import opened Amf0Model
  import Amf3 = Amf3Model
  import Amf3Doubles

  // ---------------------------------------------------------------------- numbers

  predicate IsDigit(b: byte) {
    48 <= b < 58
  }

  /** The number decimal digits spell. */
  function Decimal(s: seq<byte>): int {
    if s == [] then 0 else Decimal(s[..|s| - 1]) * 10 + ((s[|s| - 1] as int) - 48)
  }

  /** Digits spell their number, without leading zeros. */
  lemma {:induction false} DigitsSpell(n: nat)
    ensures var s := Digits(n);
            && s != [] && (forall b <- s :: IsDigit(b)) && Decimal(s) == n && (n > 0 ==> s[0] != 48) && (n == 0 ==> s == [48])
  {
    if n >= 10 {
      DigitsSpell(n / 10);
      var s := Digits(n);
      assert s[..|s| - 1] == Digits(n / 10) && s[|s| - 1] == 48 + n % 10;
    } else {
      var s := Digits(n);
      assert s[..0] == [];
      assert Decimal(s[..0]) == 0;
    }
  }

  /** A number is shown in decimal, behind a minus sign if it is negative. */
  lemma ShownSpells(n: int)
    ensures var s := ShowInt(n);
            if n < 0 then s != [] && s[0] == 45 && Decimal(s[1..]) == -n else Decimal(s) == n
  {
    DigitsSpell(if n < 0 then -n else n);
  }

  /** The keys of a dictionary as texts. */
  lemma KeysSay(k: Amf3.Value, show: ShowDouble)
    ensures match k
            case Str(s) => KeyText(k, show) == s
            case Xml(s) => KeyText(k, show) == s
            case XmlDocument(s) => KeyText(k, show) == s
            case Double(bits) => KeyText(k, show) == show(bits)
            case Integer(n) => KeyText(k, show) == ShowInt(n)
            case Boolean(b) => KeyText(k, show) == if b then [0x74, 0x72, 0x75, 0x65] else [0x66, 0x61, 0x6C, 0x73, 0x65]
            case Null => KeyText(k, show) == [0x6E, 0x75, 0x6C, 0x6C]
            case Undefined => KeyText(k, show) == [0x75, 0x6E, 0x64, 0x65, 0x66, 0x69, 0x6E, 0x65, 0x64]
            case _ => KeyText(k, show) == [0x5B, 0x6F, 0x62, 0x6A, 0x65, 0x63, 0x74, 0x5D]
  {
  }

  // ------------------------------------------------------------------------ parts

  lemma {:induction false} AllSay(vs: seq<Amf3.Value>, show: ShowDouble)
    ensures forall i :: 0 <= i < |vs| ==> AllToAmf0(vs, show)[i] == ToAmf0(vs[i], show)
  {
    hide ToAmf0;
    if vs != [] {
      AllSay(vs[1..], show);
      forall i | 0 < i < |vs|
        ensures AllToAmf0(vs, show)[i] == ToAmf0(vs[i], show)
      {
        assert vs[i] == vs[1..][i - 1] && AllToAmf0(vs, show)[i] == AllToAmf0(vs[1..], show)[i - 1];
      }
    }
  }

  lemma {:induction false} IndexedSay(vs: seq<Amf3.Value>, k: nat, show: ShowDouble)
    ensures var ps := IndexedToAmf0(vs, k, show);
            |ps| == |vs| && forall i :: 0 <= i < |vs| ==> ps[i] == Prop(ShowInt(k + i), ToAmf0(vs[i], show))
  {
    hide ToAmf0, ShowInt;
    if vs != [] {
      IndexedSay(vs[1..], k + 1, show);
      var ps := IndexedToAmf0(vs, k, show);
      assert ps[1..] == IndexedToAmf0(vs[1..], k + 1, show);
      forall i | 0 < i < |vs|
        ensures ps[i] == Prop(ShowInt(k + i), ToAmf0(vs[i], show))
      {
        assert vs[i] == vs[1..][i - 1] && ps[i] == ps[1..][i - 1];
      }
    }
  }

  lemma {:induction false} MembersSay(ms: seq<Amf3.Member>, show: ShowDouble)
    ensures var ps := MembersToAmf0(ms, show);
            |ps| == |ms| && forall i :: 0 <= i < |ms| ==> ps[i] == Prop(ms[i].name, ToAmf0(ms[i].value, show))
  {
    hide ToAmf0;
    if ms != [] {
      MembersSay(ms[1..], show);
      var ps := MembersToAmf0(ms, show);
      assert ps[1..] == MembersToAmf0(ms[1..], show);
      forall i | 0 < i < |ms|
        ensures ps[i] == Prop(ms[i].name, ToAmf0(ms[i].value, show))
      {
        assert ms[i] == ms[1..][i - 1] && ps[i] == ps[1..][i - 1];
      }
    }
  }

  lemma {:induction false} EntriesSay(es: seq<Amf3.Entry>, show: ShowDouble)
    ensures var ps := EntriesToAmf0(es, show);
            |ps| == |es| && forall i :: 0 <= i < |es| ==> ps[i] == Prop(KeyText(es[i].key, show), ToAmf0(es[i].value, show))
  {
    hide ToAmf0, KeyText;
    if es != [] {
      EntriesSay(es[1..], show);
      var ps := EntriesToAmf0(es, show);
      assert ps[1..] == EntriesToAmf0(es[1..], show);
      forall i | 0 < i < |es|
        ensures ps[i] == Prop(KeyText(es[i].key, show), ToAmf0(es[i].value, show))
      {
        assert es[i] == es[1..][i - 1] && ps[i] == ps[1..][i - 1];
      }
    }
  }

  /** The double that is an integer: sign, exponent and mantissa spell it. */
  predicate IsNumber(v: Value, n: int) {
    && v.Number?
    && var (low, mag) := (v.bits % 0x8000_0000_0000_0000, if n < 0 then -n else n);
       && (v.bits >= 0x8000_0000_0000_0000 <==> n < 0)
       && (n == 0 ==> v.bits == 0)
       && (n != 0 ==> low / 0x10_0000_0000_0000 >= 1023)
       && (n != 0 ==>
             (0x10_0000_0000_0000 + low % 0x10_0000_0000_0000) * Amf3.Pow2(low / 0x10_0000_0000_0000 - 1023) == mag * 0x10_0000_0000_0000)
  }

  lemma NumberIs(n: int)
    requires -0x8000_0000 <= n < U32_MOD
    ensures IsNumber(Number(Amf3.DoubleOfInt(n)), n)
  {
    hide Amf3.DoubleOfInt;
    Amf3Doubles.DoubleOfIntExact(n);
  }

  // ----------------------------------------------------------------------- values

  /** Scalars keep their value; a date loses nothing, its zone being zero. */
  lemma ScalarSays(v: Amf3.Value, show: ShowDouble)
    ensures match v
            case Undefined => ToAmf0(v, show) == Undefined
            case Null => ToAmf0(v, show) == Null
            case Boolean(b) => ToAmf0(v, show) == Boolean(b)
            case Integer(n) => IsNumber(ToAmf0(v, show), n)
            case Double(bits) => ToAmf0(v, show) == Number(bits)
            case Str(s) => ToAmf0(v, show) == Str(s)
            case XmlDocument(s) => ToAmf0(v, show) == Str(s)
            case Xml(s) => ToAmf0(v, show) == Str(s)
            case Date(bits) => ToAmf0(v, show) == Date(bits, 0)
            case _ => true
  {
    hide Amf3.DoubleOfInt, IsNumber;
    if v.Integer? {
      NumberIs(v.n);
    }
  }

  /** An array becomes keyed: its dense part under 0, 1, 2, and so on, then its named part. */
  lemma ArraySays(v: Amf3.Value, show: ShowDouble)
    requires v.Array?
    ensures ToAmf0(v, show).EcmaArray?
    ensures var ps := ToAmf0(v, show).props;
            && |ps| == |v.dense| + |v.assoc|
            && (forall i :: 0 <= i < |v.dense| ==> ps[i] == Prop(ShowInt(i), ToAmf0(v.dense[i], show)))
            && (forall i :: 0 <= i < |v.assoc| ==> ps[|v.dense| + i] == Prop(v.assoc[i].name, ToAmf0(v.assoc[i].value, show)))
  {
    hide ShowInt, KeyText;
    IndexedSay(v.dense, 0, show);
    MembersSay(v.assoc, show);
    hide IndexedToAmf0, MembersToAmf0;
  }

  /** An object becomes an object: its sealed members, then its dynamic ones; its class is dropped. */
  lemma ObjectSays(v: Amf3.Value, show: ShowDouble)
    requires v.Object?
    ensures ToAmf0(v, show).Object?
    ensures var ps := ToAmf0(v, show).props;
            && |ps| == |v.sealed| + |v.members|
            && (forall i :: 0 <= i < |v.sealed| ==> ps[i] == Prop(v.sealed[i].name, ToAmf0(v.sealed[i].value, show)))
            && (forall i :: 0 <= i < |v.members| ==> ps[|v.sealed| + i] == Prop(v.members[i].name, ToAmf0(v.members[i].value, show)))
  {
    hide ShowInt, KeyText;
    MembersSay(v.sealed, show);
    MembersSay(v.members, show);
    hide MembersToAmf0;
  }

  /** A dictionary becomes keyed by the texts of its keys. */
  lemma DictionarySays(v: Amf3.Value, show: ShowDouble)
    requires v.Dictionary?
    ensures ToAmf0(v, show).EcmaArray?
    ensures var ps := ToAmf0(v, show).props;
            && |ps| == |v.entries|
            && forall i :: 0 <= i < |ps| ==> ps[i] == Prop(KeyText(v.entries[i].key, show), ToAmf0(v.entries[i].value, show))
  {
    hide ShowInt, KeyText;
    EntriesSay(v.entries, show);
    hide EntriesToAmf0;
  }

  /** Vectors and byte arrays become arrays of as many elements, in order. */
  lemma ListSays(v: Amf3.Value, show: ShowDouble)
    ensures match v
            case ByteArray(b) =>
              && ToAmf0(v, show).StrictArray? && |ToAmf0(v, show).items| == |b|
              && forall i :: 0 <= i < |b| ==> IsNumber(ToAmf0(v, show).items[i], b[i])
            case VectorInt(_, ns) =>
              && ToAmf0(v, show).StrictArray? && |ToAmf0(v, show).items| == |ns|
              && forall i :: 0 <= i < |ns| ==> IsNumber(ToAmf0(v, show).items[i], ns[i])
            case VectorUInt(_, ns) =>
              && ToAmf0(v, show).StrictArray? && |ToAmf0(v, show).items| == |ns|
              && forall i :: 0 <= i < |ns| ==> IsNumber(ToAmf0(v, show).items[i], ns[i])
            case VectorDouble(_, ds) =>
              && ToAmf0(v, show).StrictArray? && |ToAmf0(v, show).items| == |ds|
              && forall i :: 0 <= i < |ds| ==> ToAmf0(v, show).items[i] == Number(ds[i])
            case VectorObject(_, _, items) =>
              && ToAmf0(v, show).StrictArray? && |ToAmf0(v, show).items| == |items|
              && forall i :: 0 <= i < |items| ==> ToAmf0(v, show).items[i] == ToAmf0(items[i], show)
            case _ => true
  {
    hide Amf3.DoubleOfInt, IsNumber;
    match v {
      case ByteArray(b) =>
        forall i | 0 <= i < |b| ensures IsNumber(ToAmf0(v, show).items[i], b[i]) { NumberIs(b[i]); }
      case VectorInt(_, ns) =>
        forall i | 0 <= i < |ns| ensures IsNumber(ToAmf0(v, show).items[i], ns[i]) { NumberIs(ns[i]); }
      case VectorUInt(_, ns) =>
        forall i | 0 <= i < |ns| ensures IsNumber(ToAmf0(v, show).items[i], ns[i]) { NumberIs(ns[i]); }
      case VectorObject(_, _, items) => AllSay(items, show);
      case _ =>
    }
  }
}
