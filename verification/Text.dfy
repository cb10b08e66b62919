/** Text as the octets of its UTF-8 form. */
module Text {
  import opened Bytes

  predicate Continues(b: byte) {
    0x80 <= b <= 0xBF
  }

  /** The octet sequences that are well-formed UTF-8 (section 4 of RFC 3629). */
  predicate ValidUtf8(s: seq<byte>)
    decreases |s|
  {
    if s == [] then true
    else if s[0] <= 0x7F then ValidUtf8(s[1..])
    else if 0xC2 <= s[0] <= 0xDF then |s| >= 2 && Continues(s[1]) && ValidUtf8(s[2..])
    else if 0xE0 <= s[0] <= 0xEF then
      && |s| >= 3 && Continues(s[1]) && Continues(s[2])
      && (s[0] == 0xE0 ==> s[1] >= 0xA0) && (s[0] == 0xED ==> s[1] <= 0x9F)
      && ValidUtf8(s[3..])
    else if 0xF0 <= s[0] <= 0xF4 then
      && |s| >= 4 && Continues(s[1]) && Continues(s[2]) && Continues(s[3])
      && (s[0] == 0xF0 ==> s[1] >= 0x90) && (s[0] == 0xF4 ==> s[1] <= 0x8F)
      && ValidUtf8(s[4..])
    else false
  }

  /** The characters there are. */
  type Scalar = c: int | 0 <= c < 0x11_0000 && !(0xD800 <= c < 0xE000)

  /** One character, in one to four octets (section 3 of RFC 3629). */
  function Octets(c: Scalar): seq<byte> {
    if c < 0x80 then [c]
    else if c < 0x800 then [0xC0 + c / 0x40, 0x80 + c % 0x40]
    else if c < 0x1_0000 then [0xE0 + c / 0x1000, 0x80 + c / 0x40 % 0x40, 0x80 + c % 0x40]
    else [0xF0 + c / 0x4_0000, 0x80 + c / 0x1000 % 0x40, 0x80 + c / 0x40 % 0x40, 0x80 + c % 0x40]
  }

  function AllOctets(cs: seq<Scalar>): seq<byte> {
    if cs == [] then [] else Octets(cs[0]) + AllOctets(cs[1..])
  }

  lemma CharacterValid(c: Scalar, tail: seq<byte>)
    ensures ValidUtf8(Octets(c) + tail) <==> ValidUtf8(tail)
  {
    var s := Octets(c) + tail;
    var n := |Octets(c)|;
    assert s[n..] == tail;
    if n == 2 {
      assert 0xC2 <= s[0] <= 0xDF;
    } else if n == 3 {
      assert 0xE0 <= s[0] <= 0xEF && (s[0] == 0xE0 ==> s[1] >= 0xA0) && (s[0] == 0xED ==> s[1] <= 0x9F);
    } else if n == 4 {
      assert 0xF0 <= s[0] <= 0xF4 && (s[0] == 0xF0 ==> s[1] >= 0x90) && (s[0] == 0xF4 ==> s[1] <= 0x8F);
    }
  }

  lemma {:induction false} TextValid(cs: seq<Scalar>)
    ensures ValidUtf8(AllOctets(cs))
  {
    if cs != [] {
      TextValid(cs[1..]);
      CharacterValid(cs[0], AllOctets(cs[1..]));
    }
  }

  lemma Split64(a: nat, b: nat)
    requires b < 0x40
    ensures (a * 0x40 + b) / 0x40 == a && (a * 0x40 + b) % 0x40 == b
  {
  }

  lemma TwoOctets(x: byte, y: byte) returns (c: Scalar)
    requires 0xC2 <= x <= 0xDF && Continues(y)
    ensures Octets(c) == [x, y]
  {
    var a: int, b: int := x - 0xC0, y - 0x80;
    Split64(a, b);
    c := a * 0x40 + b;
  }

  lemma ThreeOctets(x: byte, y: byte, z: byte) returns (c: Scalar)
    requires 0xE0 <= x <= 0xEF && Continues(y) && Continues(z) && (x == 0xE0 ==> y >= 0xA0) && (x == 0xED ==> y <= 0x9F)
    ensures Octets(c) == [x, y, z]
  {
    var a: int, b: int, d: int := x - 0xE0, y - 0x80, z - 0x80;
    var u := a * 0x40 + b;
    Split64(a, b);
    Split64(u, d);
    c := u * 0x40 + d;
    assert c / 0x1000 == u / 0x40;
  }

  lemma FourOctets(x: byte, y: byte, z: byte, w: byte) returns (c: Scalar)
    requires 0xF0 <= x <= 0xF4 && Continues(y) && Continues(z) && Continues(w) && (x == 0xF0 ==> y >= 0x90) && (x == 0xF4 ==> y <= 0x8F)
    ensures Octets(c) == [x, y, z, w]
  {
    var a: int, b: int, d: int, e: int := x - 0xF0, y - 0x80, z - 0x80, w - 0x80;
    var u := a * 0x40 + b;
    var v := u * 0x40 + d;
    Split64(a, b);
    Split64(u, d);
    Split64(v, e);
    c := v * 0x40 + e;
    assert c / 0x1000 == u && c / 0x4_0000 == a by {
      assert c / 0x1000 == v / 0x40;
      assert c / 0x4_0000 == u / 0x40;
    }
  }

  /** The first character of a valid text. */
  lemma FirstCharacter(s: seq<byte>) returns (c: Scalar)
    requires s != [] && ValidUtf8(s)
    ensures var n := |Octets(c)|;
            n <= |s| && s[..n] == Octets(c) && ValidUtf8(s[n..])
  {
    hide Octets;
    if s[0] <= 0x7F {
      c := s[0] as int;
      OneOctet(c);
    } else if s[0] <= 0xDF {
      c := TwoOctets(s[0], s[1]);
    } else if s[0] <= 0xEF {
      c := ThreeOctets(s[0], s[1], s[2]);
    } else {
      c := FourOctets(s[0], s[1], s[2], s[3]);
    }
  }

  lemma OneOctet(c: Scalar)
    requires c < 0x80
    ensures Octets(c) == [c]
  {
  }

  lemma {:induction false} TextSpells(s: seq<byte>) returns (cs: seq<Scalar>)
    requires ValidUtf8(s)
    ensures AllOctets(cs) == s
    decreases |s|
  {
    if s == [] {
      cs := [];
    } else {
      var c := FirstCharacter(s);
      var n := |Octets(c)|;
      var more := TextSpells(s[n..]);
      cs := [c] + more;
      assert cs[1..] == more && s == s[..n] + s[n..];
    }
  }

  /** Valid are exactly the texts that are characters, one after the other. */
  lemma ValidIff(s: seq<byte>)
    ensures ValidUtf8(s) <==> exists cs :: AllOctets(cs) == s
  {
    if ValidUtf8(s) {
      var cs := TextSpells(s);
    }
    if cs :| AllOctets(cs) == s {
      TextValid(cs);
    }
  }
}
