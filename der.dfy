/**
 * The part of ASN.1 that the SSH-to-PKCS#8 converter builds with pyasn1 and
 * the DER rules it is encoded with (ITU-T X.690): INTEGER, NULL, OBJECT
 * IDENTIFIER, BIT STRING and SEQUENCE, each as tag, length and content.
 */
module Der {
  import opened Wrappers
  import opened Bytes

  datatype Asn1 =
    | Integer(value: nat)
    | Null
    | ObjectIdentifier(arcs: seq<nat>)
    | BitString(bits: seq<bool>)
    | Sequence(items: seq<Asn1>)

  const INTEGER_TAG: byte := 0x02
  const BIT_STRING_TAG: byte := 0x03
  const NULL_TAG: byte := 0x05
  const OID_TAG: byte := 0x06
  const SEQUENCE_TAG: byte := 0x30

  /** rsaEncryption, 1.2.840.113549.1.1.1 (section 2.3.1 of RFC 3279). */
  const RSA_ENCRYPTION: seq<nat> := [1, 2, 840, 113549, 1, 1, 1]

  // ---------------------------------------------------------------------
  // Lengths (X.690 8.1.3): short form below 128, otherwise 0x80|k and k
  // big-endian octets; more than 126 length octets cannot be written.

  function EncodeLength(n: nat): Option<seq<byte>> {
    if n < 128 then Some([n])
    else
      var l := MinimalBytes(n);
      if |l| > 126 then None else Some([128 + |l|] + l)
  }

  /** Reads a length; returns it with the number of octets it took. */
  function ReadLength(b: seq<byte>): Option<(nat, nat)> {
    if b == [] then None
    else if b[0] < 128 then Some((b[0], 1))
    else
      var k := b[0] - 128;
      if k == 0 || k > 126 || |b| < 1 + k then None
      else Some((BigEndian(b[1..1 + k]), 1 + k))
  }

  lemma LengthRoundTrip(n: nat, rest: seq<byte>)
    requires EncodeLength(n).Some?
    ensures ReadLength(EncodeLength(n).value + rest) == Some((n, |EncodeLength(n).value|))
  {
    var l := EncodeLength(n).value;
    if n >= 128 {
      var m := MinimalBytes(n);
      assert (l + rest)[1..1 + |m|] == m;
      assert |m| != 0;
    }
  }

  /** A tag, the length of the content, and the content. */
  function Tlv(tag: byte, content: seq<byte>): Option<seq<byte>> {
    match EncodeLength(|content|)
    case None => None
    case Some(l) => Some([tag] + l + content)
  }

  /** Reads one tag-length-value element; returns the tag, the content and
      what follows the element. */
  function ReadTlv(b: seq<byte>): Option<(byte, seq<byte>, seq<byte>)> {
    if b == [] then None
    else
      match ReadLength(b[1..])
      case None => None
      case Some((len, used)) =>
        if |b| < 1 + used + len then None
        else Some((b[0], b[1 + used..1 + used + len], b[1 + used + len..]))
  }

  /** Reading back an encoded element gives its tag and content, and leaves
      what followed it untouched. */
  lemma TlvRoundTrip(tag: byte, content: seq<byte>, rest: seq<byte>)
    requires Tlv(tag, content).Some?
    ensures ReadTlv(Tlv(tag, content).value + rest) == Some((tag, content, rest))
  {
    var l := EncodeLength(|content|).value;
    var b := Tlv(tag, content).value + rest;
    assert b[1..] == l + (content + rest);
    LengthRoundTrip(|content|, content + rest);
    assert b[1 + |l|..1 + |l| + |content|] == content;
    assert b[1 + |l| + |content|..] == rest;
  }

  // ---------------------------------------------------------------------
  // Contents

  /** INTEGER content (X.690 8.3): the shortest two's-complement octets;
      for a non-negative value the top bit of the first octet is clear. */
  function IntegerContent(n: nat): (c: seq<byte>)
    ensures c != [] && c[0] < 128
    ensures BigEndian(c) == n
    ensures |c| == 1 || c[0] != 0 || c[1] >= 128
  {
    var m := MinimalBytes(n);
    if m == [] then [0]
    else if m[0] >= 128 then
      var c := [0] + m;
      LeadingZeroByte(m);
      c
    else m
  }

  lemma {:induction false} LeadingZeroByte(m: seq<byte>)
    ensures BigEndian([0] + m) == BigEndian(m)
  {
    if m != [] {
      assert ([0] + m)[..|m|] == [0] + m[..|m| - 1];
      LeadingZeroByte(m[..|m| - 1]);
    }
  }

  /** Base 128, seven bits per octet, the high bit set on all but the last. */
  function Base128(v: nat): seq<byte> {
    Base128High(v / 128) + [v % 128]
  }

  function Base128High(v: nat): seq<byte> {
    if v == 0 then [] else Base128High(v / 128) + [128 + v % 128]
  }

  function Base128All(arcs: seq<nat>): seq<byte> {
    if arcs == [] then [] else Base128(arcs[0]) + Base128All(arcs[1..])
  }

  predicate ValidOid(arcs: seq<nat>) {
    |arcs| >= 2 && arcs[0] <= 2 && (arcs[0] < 2 ==> arcs[1] < 40)
  }

  /** OBJECT IDENTIFIER content (X.690 8.19): the first two arcs share one
      sub-identifier, 40 * first + second. */
  function OidContent(arcs: seq<nat>): seq<byte>
    requires ValidOid(arcs)
  {
    Base128(40 * arcs[0] + arcs[1]) + Base128All(arcs[2..])
  }

  /** Eight bits per octet, most significant first. */
  function PackBits(bits: seq<bool>): (b: seq<byte>)
    requires |bits| % 8 == 0
    ensures |b| == |bits| / 8
  {
    if bits == [] then []
    else
      var v := BitsToNat(bits[|bits| - 8..]);
      BitsBound(bits[|bits| - 8..]);
      Pow2Of8();
      PackBits(bits[..|bits| - 8]) + [v]
  }

  lemma {:induction false} BitsBound(bits: seq<bool>)
    ensures BitsToNat(bits) < Pow2(|bits|)
  {
    if bits != [] {
      BitsBound(bits[..|bits| - 1]);
    }
  }

  /** Packing the bit string of a byte string gives the byte string back. */
  lemma {:induction false} PackBitsOf(b: seq<byte>)
    ensures PackBits(BitsOf(b)) == b
  {
    if b != [] {
      var init, last := b[..|b| - 1], b[|b| - 1];
      assert b == init + [last];
      assert PackBits(BitsOf(b)) == init + [last] by {
        assert BitsOf(b) == BitsOf(init) + NatBits(last, 8);
        PackBitsLast(BitsOf(init), last);
        PackBitsOf(init);
      }
    }
  }

  /** The eight bits of one more byte pack to that byte. */
  lemma PackBitsLast(bits: seq<bool>, x: byte)
    requires |bits| % 8 == 0
    ensures PackBits(bits + NatBits(x, 8)) == PackBits(bits) + [x]
  {
    var all := bits + NatBits(x, 8);
    assert all[..|all| - 8] == bits;
    assert all[|all| - 8..] == NatBits(x, 8);
    Pow2Of8();
    BitsToNatOfNatBits(x, 8);
  }


  function Zeros(k: nat): (z: seq<bool>)
    ensures |z| == k && forall i :: 0 <= i < k ==> !z[i]
  {
    if k == 0 then [] else Zeros(k - 1) + [false]
  }

  /** BIT STRING content (X.690 8.6): the count of unused bits in the last
      octet, then the bits padded with zeros to whole octets. */
  function BitStringContent(bits: seq<bool>): (c: seq<byte>)
    ensures c != [] && c[0] == (8 - |bits| % 8) % 8
  {
    var unused := (8 - |bits| % 8) % 8;
    [unused] + PackBits(bits + Zeros(unused))
  }

  /** Bits in whole octets: no unused bits and no padding. */
  lemma BitStringContentWhole(bits: seq<bool>)
    requires |bits| % 8 == 0
    ensures BitStringContent(bits) == [0] + PackBits(bits)
  {
    var unused := (8 - |bits| % 8) % 8;
    assert unused == 0;
    assert Zeros(unused) == [];
    assert bits + Zeros(unused) == bits;
  }

  // ---------------------------------------------------------------------
  // Encoding; None only when some element is too long for its length octets
  // or an object identifier is malformed.

  function Encode(v: Asn1): Option<seq<byte>>
    decreases v
  {
    match v
    case Integer(n) => Tlv(INTEGER_TAG, IntegerContent(n))
    case Null => Tlv(NULL_TAG, [])
    case ObjectIdentifier(arcs) =>
      if ValidOid(arcs) then Tlv(OID_TAG, OidContent(arcs)) else None
    case BitString(bits) => Tlv(BIT_STRING_TAG, BitStringContent(bits))
    case Sequence(items) =>
      match EncodeAll(items)
      case None => None
      case Some(c) => Tlv(SEQUENCE_TAG, c)
  }

  /** The concatenated encodings of the components of a SEQUENCE, in order. */
  function EncodeAll(items: seq<Asn1>): Option<seq<byte>>
    decreases items
  {
    if items == [] then Some([])
    else
      match (Encode(items[0]), EncodeAll(items[1..]))
      case (Some(a), Some(b)) => Some(a + b)
      case _ => None
  }

  /** Content shorter than 128 octets takes one length octet. */
  lemma ShortTlv(tag: byte, content: seq<byte>)
    requires |content| < 128
    ensures Tlv(tag, content) == Some([tag, |content| as byte] + content)
  {
    assert [tag] + [|content| as byte] + content == [tag, |content| as byte] + content;
  }

  lemma EncodeAllTwo(x: Asn1, y: Asn1)
    requires Encode(x).Some? && Encode(y).Some?
    ensures EncodeAll([x, y]) == Some(Encode(x).value + Encode(y).value)
  {
    assert [x, y][0] == x && [x, y][1..] == [y];
    assert [y][0] == y && [y][1..] == [];
    assert EncodeAll([y]) == Some(Encode(y).value + []);
    assert Encode(y).value + [] == Encode(y).value;
  }

  /** NULL encodes to 05 00. */
  lemma NullBytes()
    ensures Encode(Null) == Some([0x05, 0x00])
  {
    ShortTlv(NULL_TAG, []);
    assert [NULL_TAG, 0] + [] == [0x05, 0x00];
  }

  /** The encoding of a two-element SEQUENCE reads back as the SEQUENCE tag
      around the first element's encoding followed by the second's. */
  lemma SequenceOfTwo(x: Asn1, y: Asn1)
    requires Encode(Sequence([x, y])).Some?
    ensures Encode(x).Some? && Encode(y).Some?
    ensures ReadTlv(Encode(Sequence([x, y])).value)
         == Some((SEQUENCE_TAG, Encode(x).value + Encode(y).value, []))
  {
    assert [x, y][0] == x && [x, y][1..] == [y];
    assert [y][0] == y && [y][1..] == [];
    assert Encode(x).Some? && EncodeAll([y]).Some?;
    EncodeAllTwo(x, y);
    var c := Encode(x).value + Encode(y).value;
    TlvRoundTrip(SEQUENCE_TAG, c, []);
    assert Encode(Sequence([x, y])).value + [] == Encode(Sequence([x, y])).value;
  }


  lemma Base128OfArcs()
    ensures Base128(42) == [42] && Base128(1) == [1]
    ensures Base128(840) == [134, 72]
    ensures Base128(113549) == [134, 247, 13]
  {
    assert 840 / 128 == 6 && 840 % 128 == 72;
    assert 113549 / 128 == 887 && 113549 % 128 == 13;
    assert 887 / 128 == 6 && 887 % 128 == 119;
    assert Base128High(0) == [];
    assert Base128High(6) == [134];
    assert Base128High(887) == [134, 247];
  }

  lemma Base128AllCons(v: nat, rest: seq<nat>)
    ensures Base128All([v] + rest) == Base128(v) + Base128All(rest)
  {
    assert ([v] + rest)[1..] == rest;
  }

  lemma ArcsOfOnes()
    ensures Base128All([1, 1, 1]) == [1, 1, 1]
  {
    assert Base128(1) == [1];
    Base128AllCons(1, []);
    Base128AllCons(1, [1]);
    Base128AllCons(1, [1, 1]);
  }

  lemma ArcsOfRsaEncryption()
    ensures Base128All([840, 113549, 1, 1, 1]) == [134, 72, 134, 247, 13, 1, 1, 1]
  {
    Base128OfArcs();
    ArcsOfOnes();
    Base128AllCons(113549, [1, 1, 1]);
    Base128AllCons(840, [113549, 1, 1, 1]);
  }

  lemma RsaEncryptionContent()
    ensures OidContent(RSA_ENCRYPTION) == RSA_ENCRYPTION_CONTENT
  {
    Base128OfArcs();
    ArcsOfRsaEncryption();
    var arcs := RSA_ENCRYPTION;
    assert 40 * arcs[0] + arcs[1] == 42;
    assert arcs[2..] == [840, 113549, 1, 1, 1];
  }

  /** The content octets of rsaEncryption, and its whole encoding
      06 09 2A 86 48 86 F7 0D 01 01 01. */
  const RSA_ENCRYPTION_CONTENT: seq<byte> := [0x2A, 0x86, 0x48, 0x86, 0xF7, 0x0D, 0x01, 0x01, 0x01]
  const RSA_ENCRYPTION_DER: seq<byte> := [OID_TAG, 0x09] + RSA_ENCRYPTION_CONTENT

  lemma RsaEncryptionBytes()
    ensures Encode(ObjectIdentifier(RSA_ENCRYPTION)) == Some(RSA_ENCRYPTION_DER)
  {
    RsaEncryptionContent();
    assert ValidOid(RSA_ENCRYPTION);
    ShortTlv(OID_TAG, RSA_ENCRYPTION_CONTENT);
  }


  // ---------------------------------------------------------------------
  // _to_sequence

  /** `_to_sequence(*vals)`: a fresh SEQUENCE whose component at position i
      is set to vals[i], for each i in turn. */
  method ToSequence(vals: seq<Asn1>) returns (s: Asn1)
    ensures s.Sequence? && |s.items| == |vals|
    ensures forall i :: 0 <= i < |vals| ==> s.items[i] == vals[i]
  {
    var components: seq<Asn1> := [];
    for i := 0 to |vals|
      invariant components == vals[..i]
    {
      components := components + [vals[i]];
    }
    s := Sequence(components);
  }
}
