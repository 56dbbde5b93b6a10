/**
 * Base64 with the standard alphabet and `=` padding, as `base64.b64encode`
 * produces it (section 4 of RFC 4648), and a decoder for that canonical form.
 */
module Base64 {
  import opened Wrappers
  import opened Bytes

  /** The character of a 6-bit value: A-Z, a-z, 0-9, '+', '/'. */
  function Sextet(v: nat): (c: char)
    requires v < 64
  {
    if v < 26 then ('A' as int + v) as char
    else if v < 52 then ('a' as int + v - 26) as char
    else if v < 62 then ('0' as int + v - 52) as char
    else if v == 62 then '+'
    else '/'
  }

  function SextetValue(c: char): (r: Option<nat>)
    ensures r.Some? ==> r.value < 64
  {
    if 'A' <= c <= 'Z' then Some(c as int - 'A' as int)
    else if 'a' <= c <= 'z' then Some(c as int - 'a' as int + 26)
    else if '0' <= c <= '9' then Some(c as int - '0' as int + 52)
    else if c == '+' then Some(62)
    else if c == '/' then Some(63)
    else None
  }

  lemma SextetRoundTrip(v: nat)
    requires v < 64
    ensures SextetValue(Sextet(v)) == Some(v)
  {
  }

  predicate IsEncodedChar(c: char) {
    SextetValue(c).Some? || c == '='
  }

  /** The second sextet of a group: the low two bits of `x` over the high
      four bits of `y`. */
  function Second(x: byte, y: byte): (v: nat)
    ensures v < 64 && v / 16 == x % 4 && v % 16 == y / 16
  {
    (x % 4) * 16 + y / 16
  }

  /** The third sextet of a group: the low four bits of `y` over the high two
      bits of `z`. */
  function Third(y: byte, z: byte): (v: nat)
    ensures v < 64 && v / 4 == y % 16 && v % 4 == z / 64
  {
    (y % 16) * 4 + z / 64
  }

  /** The four characters of three whole bytes. */
  function Group(x: byte, y: byte, z: byte): (q: string)
    ensures |q| == 4 && forall i :: 0 <= i < 4 ==> SextetValue(q[i]).Some?
  {
    [Sextet(x / 4), Sextet(Second(x, y)), Sextet(Third(y, z)), Sextet(z % 64)]
  }

  /** `base64.b64encode(b)`: four characters for every started group of three
      bytes, all from the alphabet or the pad `=`, and no line breaks. */
  function Encode(b: seq<byte>): (s: string)
    ensures |s| == 4 * ((|b| + 2) / 3)
    ensures forall i :: 0 <= i < |s| ==> IsEncodedChar(s[i])
    ensures '\n' !in s
  {
    if |b| == 0 then ""
    else if |b| == 1 then
      [Sextet(b[0] / 4), Sextet(Second(b[0], 0)), '=', '=']
    else if |b| == 2 then
      [Sextet(b[0] / 4), Sextet(Second(b[0], b[1])), Sextet(Third(b[1], 0)), '=']
    else
      var rest := Encode(b[3..]);
      var s := Group(b[0], b[1], b[2]) + rest;
      assert forall i :: 4 <= i < |s| ==> s[i] == rest[i - 4];
      s
  }

  /** The three bytes a group of four sextets `a b c d` stands for. */
  function FirstByte(a: nat, b: nat): (x: byte)
    requires a < 64 && b < 64
    ensures x / 4 == a && x % 4 == b / 16
  {
    a * 4 + b / 16
  }

  function SecondByte(b: nat, c: nat): (y: byte)
    requires b < 64 && c < 64
    ensures y / 16 == b % 16 && y % 16 == c / 4
  {
    (b % 16) * 16 + c / 4
  }

  function ThirdByte(c: nat, d: nat): (z: byte)
    requires c < 64 && d < 64
    ensures z / 64 == c % 4 && z % 64 == d
  {
    (c % 4) * 64 + d
  }

  /** Decodes the last group, which may carry one or two pad characters. */
  function DecodeLast(q: string): Option<seq<byte>>
    requires |q| == 4
  {
    var a, b, c, d := SextetValue(q[0]), SextetValue(q[1]), SextetValue(q[2]), SextetValue(q[3]);
    if a.None? || b.None? then None
    else if q[2] == '=' && q[3] == '=' then
      Some([FirstByte(a.value, b.value)])
    else if c.None? then None
    else if q[3] == '=' then
      Some([FirstByte(a.value, b.value), SecondByte(b.value, c.value)])
    else if d.None? then None
    else
      Some([FirstByte(a.value, b.value), SecondByte(b.value, c.value), ThirdByte(c.value, d.value)])
  }

  /** Decodes a group of four alphabet characters. */
  function DecodeFull(q: string): Option<seq<byte>>
    requires |q| == 4
  {
    match (SextetValue(q[0]), SextetValue(q[1]), SextetValue(q[2]), SextetValue(q[3]))
    case (Some(a), Some(b), Some(c), Some(d)) =>
      Some([FirstByte(a, b), SecondByte(b, c), ThirdByte(c, d)])
    case _ => None
  }

  /** Decodes canonical Base64: whole groups of four, padding only in the last. */
  function Decode(s: string): (r: Option<seq<byte>>)
    ensures r.Some? ==> |s| % 4 == 0
    ensures r.Some? ==> 3 * (|s| / 4) - 2 <= |r.value| <= 3 * (|s| / 4)
  {
    if s == [] then Some([])
    else if |s| < 4 then None
    else if |s| == 4 then DecodeLast(s)
    else
      match (DecodeFull(s[..4]), Decode(s[4..]))
      case (Some(q), Some(rest)) => Some(q + rest)
      case _ => None
  }

  lemma DecodeOne(x: byte)
    ensures DecodeLast(Encode([x])) == Some([x])
  {
    SextetRoundTrip(x / 4);
    SextetRoundTrip(Second(x, 0));
  }

  lemma DecodeTwo(x: byte, y: byte)
    ensures DecodeLast(Encode([x, y])) == Some([x, y])
  {
    SextetRoundTrip(x / 4);
    SextetRoundTrip(Second(x, y));
    SextetRoundTrip(Third(y, 0));
    var s := Encode([x, y]);
    assert s[2] != '=' && s[3] == '=';
  }

  lemma DecodeGroup(x: byte, y: byte, z: byte)
    ensures DecodeFull(Group(x, y, z)) == Some([x, y, z])
    ensures DecodeLast(Group(x, y, z)) == Some([x, y, z])
  {
    SextetRoundTrip(x / 4);
    SextetRoundTrip(Second(x, y));
    SextetRoundTrip(Third(y, z));
    SextetRoundTrip(z % 64);
    var q := Group(x, y, z);
    assert q[2] != '=' && q[3] != '=';
  }

  /** Decoding undoes `b64encode`. */
  lemma {:induction false} DecodeEncode(b: seq<byte>)
    ensures Decode(Encode(b)) == Some(b)
  {
    var s := Encode(b);
    if |b| == 1 {
      DecodeOne(b[0]);
      assert [b[0]] == b;
    } else if |b| == 2 {
      DecodeTwo(b[0], b[1]);
      assert [b[0], b[1]] == b;
    } else if |b| >= 3 {
      var q := Group(b[0], b[1], b[2]);
      DecodeGroup(b[0], b[1], b[2]);
      assert b[..3] == [b[0], b[1], b[2]];
      if |b| == 3 {
        assert s == q;
        assert b == b[..3];
      } else {
        assert s[..4] == q;
        assert s[4..] == Encode(b[3..]);
        DecodeEncode(b[3..]);
        assert b[..3] + b[3..] == b;
      }
    }
  }
}
