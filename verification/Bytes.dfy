/** Octets, fixed-width integers and their wire encodings. */
module Bytes {

  type byte = b: int | 0 <= b < 256
  type u16 = v: int | 0 <= v < 0x1_0000
  type u24 = v: int | 0 <= v < 0x100_0000
  type u32 = v: int | 0 <= v < 0x1_0000_0000
  type u64 = v: int | 0 <= v < 0x1_0000_0000_0000_0000

  const U32_MOD := 0x1_0000_0000

  datatype Option<+T> = None | Some(value: T)

  function Min(a: int, b: int): int {
    if a <= b then a else b
  }

  function Pow256(n: nat): (p: nat)
    ensures p > 0
  {
    if n == 0 then 1 else 256 * Pow256(n - 1)
  }

  /** The low `n` octets of `v`, most significant first. */
  function BE(n: nat, v: nat): (s: seq<byte>)
    ensures |s| == n
  {
    if n == 0 then [] else BE(n - 1, v / 256) + [v % 256]
  }

  /** The number an octet sequence spells, most significant first. */
  function UnBE(s: seq<byte>): (v: nat)
    ensures v < Pow256(|s|)
  {
    if s == [] then 0 else UnBE(s[..|s| - 1]) * 256 + s[|s| - 1]
  }

  /** The low `n` octets of `v`, least significant first. */
  function LE(n: nat, v: nat): (s: seq<byte>)
    ensures |s| == n
  {
    if n == 0 then [] else [v % 256] + LE(n - 1, v / 256)
  }

  function UnLE(s: seq<byte>): (v: nat)
    ensures v < Pow256(|s|)
  {
    if s == [] then 0 else s[0] + 256 * UnLE(s[1..])
  }

  lemma {:induction false} UnBEInvertsBE(n: nat, v: nat)
    requires v < Pow256(n)
    ensures UnBE(BE(n, v)) == v
  {
    if n > 0 {
      var s := BE(n, v);
      assert s[..n - 1] == BE(n - 1, v / 256);
      UnBEInvertsBE(n - 1, v / 256);
    }
  }

  lemma {:induction false} BEInvertsUnBE(s: seq<byte>)
    ensures BE(|s|, UnBE(s)) == s
  {
    if s != [] {
      BEInvertsUnBE(s[..|s| - 1]);
      assert s == s[..|s| - 1] + [s[|s| - 1]];
    }
  }

  lemma {:induction false} UnLEInvertsLE(n: nat, v: nat)
    requires v < Pow256(n)
    ensures UnLE(LE(n, v)) == v
  {
    if n > 0 {
      assert LE(n, v)[1..] == LE(n - 1, v / 256);
      UnLEInvertsLE(n - 1, v / 256);
    }
  }

  /** The widths the protocol uses, spelled out. */
  lemma Widths()
    ensures Pow256(1) == 0x100 && Pow256(2) == 0x1_0000 && Pow256(3) == 0x100_0000
    ensures Pow256(4) == U32_MOD && Pow256(8) == 0x1_0000_0000_0000_0000
  {
    assert Pow256(4) == 256 * Pow256(3);
    assert Pow256(5) == 256 * Pow256(4);
    assert Pow256(6) == 256 * Pow256(5);
    assert Pow256(7) == 256 * Pow256(6);
  }

  /** The outcome of taking something off the front of an octet sequence. */
  datatype Got<+T> = Got(value: T, rest: seq<byte>) | Short {
    predicate IsFailure() {
      Short?
    }
    function PropagateFailure<U>(): Got<U>
      requires Short?
    {
      Short
    }
    function Extract(): (T, seq<byte>)
      requires Got?
    {
      (value, rest)
    }
  }

  function Take(w: seq<byte>, n: nat): (r: Got<seq<byte>>)
    ensures r.Got? ==> |r.value| == n && |r.rest| == |w| - n && w == r.value + r.rest
  {
    if |w| < n then Short else Got(w[..n], w[n..])
  }

  function TakeByte(w: seq<byte>): (r: Got<byte>)
    ensures r.Got? ==> w == [r.value] + r.rest
  {
    if w == [] then Short else Got(w[0], w[1..])
  }

  function TakeBE(w: seq<byte>, n: nat): (r: Got<nat>)
    ensures r.Got? ==> r.value < Pow256(n) && |r.rest| == |w| - n && r.rest == w[n..]
  {
    var (b, w1) :- Take(w, n);
    Got(UnBE(b), w1)
  }

  /** `a` is the end of `w`. */
  ghost predicate Tail(a: seq<byte>, w: seq<byte>) {
    |a| <= |w| && a == w[|w| - |a|..]
  }

  lemma TailTrans(a: seq<byte>, b: seq<byte>, c: seq<byte>)
    requires Tail(a, b) && Tail(b, c)
    ensures Tail(a, c)
  {
  }

  lemma TakePrefix(a: seq<byte>, tail: seq<byte>)
    ensures Take(a + tail, |a|) == Got(a, tail)
  {
    SplitAt(a, tail);
  }

  lemma TakeBytePrefix(b: byte, tail: seq<byte>)
    ensures TakeByte([b] + tail) == Got(b, tail)
  {
  }

  lemma TakeBEPrefix(n: nat, v: nat, tail: seq<byte>)
    requires v < Pow256(n)
    ensures TakeBE(BE(n, v) + tail, n) == Got(v, tail)
  {
    TakePrefix(BE(n, v), tail);
    UnBEInvertsBE(n, v);
  }

  /** Higher octets of a number do not matter to its low ones. */
  lemma {:induction false} BEMod(n: nat, v: nat)
    ensures BE(n, v) == BE(n, v % Pow256(n))
  {
    if n > 0 {
      var p := Pow256(n - 1);
      BEMod(n - 1, v / 256);
      BEMod(n - 1, v % Pow256(n) / 256);
      DivMod256(v, p);
    }
  }

  lemma DivMod256(v: nat, p: nat)
    requires p > 0
    ensures v % (256 * p) / 256 == v / 256 % p
    ensures v / 256 % p % p == v / 256 % p
    ensures v % (256 * p) % 256 == v % 256
  {
    var q, r := v / 256, v % 256;
    var a, b := q / p, q % p;
    assert v == 256 * q + r && q == p * a + b;
    assert v == (256 * p) * a + (256 * b + r) by {
      assert 256 * (p * a) == (256 * p) * a;
    }
    assert 256 * b + r < 256 * p;
    ModUnique(v, 256 * p, a, 256 * b + r);
    ModUnique(q, p, a, b);
    ModUnique(b, p, 0, b);
  }

  lemma ModUnique(v: nat, m: nat, a: nat, r: nat)
    requires m > 0 && v == m * a + r && r < m
    ensures v % m == r
  {
    var q := v / m;
    assert v == m * q + v % m;
    MulStep(m, a, q);
    MulStep(m, q, a);
  }

  lemma {:induction false} MulStep(m: nat, a: nat, q: nat)
    ensures a < q ==> m * q >= m * a + m
  {
    if a < q {
      assert m * q == m * (q - 1) + m;
      MulStep(m, a, q - 1);
    }
  }

  lemma ConsIff<T>(x: T, xs: seq<T>, s: seq<T>)
    requires s != []
    ensures [x] + xs == s <==> x == s[0] && xs == s[1..]
  {
    assert s == [s[0]] + s[1..];
    if [x] + xs == s {
      assert ([x] + xs)[0] == x && ([x] + xs)[1..] == xs;
    }
  }

  /** A prefix can be split off a concatenation. */
  lemma SplitAt<T>(a: seq<T>, b: seq<T>)
    ensures (a + b)[..|a|] == a && (a + b)[|a|..] == b
  {
  }

  /** Taking off the front of what lies behind `pos`. */
  lemma SliceAt<T>(s: seq<T>, pos: nat, n: nat)
    requires pos + n <= |s|
    ensures s[pos..][..n] == s[pos..pos + n] && s[pos..][n..] == s[pos + n..]
  {
  }

  lemma Assoc3<T>(a: seq<T>, b: seq<T>, c: seq<T>)
    ensures a + b + c == a + (b + c)
  {
  }

  lemma Assoc4<T>(a: seq<T>, b: seq<T>, c: seq<T>, d: seq<T>)
    ensures a + b + c + d == a + (b + (c + d))
  {
  }

  lemma Assoc5<T>(a: seq<T>, b: seq<T>, c: seq<T>, d: seq<T>, e: seq<T>)
    ensures a + b + c + d + e == a + (b + (c + (d + e)))
  {
  }

  lemma Assoc6<T>(a: seq<T>, b: seq<T>, c: seq<T>, d: seq<T>, e: seq<T>, f: seq<T>)
    ensures a + b + c + d + e + f == a + (b + (c + (d + (e + f))))
  {
  }

  /** A list, if there is one, behind what was gathered before it. */
  ghost function Prepend<T>(a: seq<T>, b: Option<seq<T>>): Option<seq<T>> {
    match b
    case None => None
    case Some(s) => Some(a + s)
  }

  lemma Prepended<T>(a: seq<T>, b: Option<seq<T>>)
    ensures Prepend([], b) == b && Prepend(a, Some([])) == Some(a)
  {
    if b.Some? {
      assert [] + b.value == b.value;
    }
    assert a + [] == a;
  }

  lemma PrependMore<T>(a: seq<T>, x: T, b: Option<seq<T>>)
    ensures Prepend(a, Prepend([x], b)) == Prepend(a + [x], b)
  {
    if b.Some? {
      Assoc3(a, [x], b.value);
    }
  }

  // ---------------------------------------------------------- octet by octet

  function UI24(v: u24): (s: seq<byte>)
    ensures |s| == 3
  {
    [v / 0x1_0000, v / 0x100 % 0x100, v % 0x100]
  }

  function UI32(v: u32): (s: seq<byte>)
    ensures |s| == 4
  {
    [v / 0x100_0000, v / 0x1_0000 % 0x100, v / 0x100 % 0x100, v % 0x100]
  }

  /** The other way round. */
  function UI32Reversed(v: u32): (s: seq<byte>)
    ensures |s| == 4
  {
    [v % 0x100, v / 0x100 % 0x100, v / 0x1_0000 % 0x100, v / 0x100_0000]
  }

  lemma BE1(v: nat)
    requires v < 0x100
    ensures BE(1, v) == [v]
  {
    assert BE(0, v / 256) == [];
  }

  lemma BE2(v: nat)
    requires v < 0x1_0000
    ensures BE(2, v) == [v / 0x100, v % 0x100]
  {
    BE1(v / 256);
  }

  lemma UI24Is(v: u24)
    ensures BE(3, v) == UI24(v)
  {
    BE2(v / 256);
    assert v / 256 / 0x100 == v / 0x1_0000;
  }

  lemma UI32Is(v: u32)
    ensures BE(4, v) == UI32(v)
  {
    UI24Is(v / 256);
    assert v / 256 / 0x1_0000 == v / 0x100_0000;
    assert v / 256 / 0x100 == v / 0x1_0000;
  }

  lemma UI32ReversedIs(v: u32)
    ensures LE(4, v) == UI32Reversed(v)
  {
    var a, b, c := v / 256, v / 0x1_0000, v / 0x100_0000;
    assert a / 256 == b && b / 256 == c && c / 256 == 0;
    assert LE(0, c / 256) == [];
    assert LE(1, c) == [c % 256];
    assert LE(2, b) == [b % 256] + LE(1, c);
    assert LE(3, a) == [a % 256] + LE(2, b);
  }

  /** `a - b` in 32-bit arithmetic. */
  function WrapSub(a: u32, b: u32): u32 {
    (a - b) % U32_MOD
  }

  function WrapAdd(a: u32, b: u32): u32 {
    (a + b) % U32_MOD
  }

  lemma WrapInverse(a: u32, b: u32)
    ensures WrapAdd(b, WrapSub(a, b)) == a
  {
  }
}
