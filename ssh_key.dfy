/**
 * `convert_from_sshrsa_to_pkcs8`: an OpenSSH `ssh-rsa` public key line
 * turned into a PEM "PUBLIC KEY" block.  The key blob is the wire format of
 * section 6.6 of RFC 4253 (a sequence of RFC 4251 `string` fields, each a
 * 4-byte big-endian length and that many bytes); the result is a DER
 * SubjectPublicKeyInfo (section 4.1 of RFC 5280) holding rsaEncryption and
 * RSAPublicKey (section 2.3.1 of RFC 3279), armoured as in RFC 7468.
 */
module SshKey {
  import opened Wrappers
  import opened Bytes
  import Text
  import Base64
  import opened Der

  function Min(a: nat, b: nat): nat {
    if a <= b then a else b
  }

  // ---------------------------------------------------------------------
  // The key blob

  /** `struct.unpack('>I', b[:4])[0]`: the first four bytes as an unsigned
      big-endian 32-bit number. */
  function U32(b: seq<byte>): (n: nat)
    requires |b| >= 4
    ensures n < 0x1_0000_0000
  {
    b[0] as nat * 0x100_0000 + b[1] as nat * 0x1_0000 + b[2] as nat * 0x100 + b[3] as nat
  }

  /** `U32` is the big-endian value of the first four bytes. */
  lemma U32IsBigEndian(b: seq<byte>)
    requires |b| >= 4
    ensures U32(b) == BigEndian(b[..4])
  {
    var q := b[..4];
    assert q[..3][..2][..1][..0] == [];
    assert BigEndian(q[..3][..2][..1]) == b[0] as nat;
    assert BigEndian(q[..3][..2]) == b[0] as nat * 0x100 + b[1] as nat;
    assert BigEndian(q[..3]) == b[0] as nat * 0x1_0000 + b[1] as nat * 0x100 + b[2] as nat;
  }

  /** The fields of a key blob as the `while keydata:` loop cuts them: each
      field is the bytes after a 4-byte length, cut short when the blob ends
      early; fewer than four bytes where a length belongs is a `struct.error`. */
  function ParseParts(b: seq<byte>): Option<seq<seq<byte>>>
    decreases |b|
  {
    if b == [] then Some([])
    else if |b| < 4 then None
    else
      var cut := Min(4 + U32(b), |b|);
      match ParseParts(b[cut..])
      case None => None
      case Some(ps) => Some([b[4..cut]] + ps)
  }

  /** Each field costs at least its 4-byte prefix. */
  lemma {:induction false} ParsePartsBound(b: seq<byte>)
    ensures ParseParts(b).Some? ==> 4 * |ParseParts(b).value| <= |b|
    decreases |b|
  {
    if |b| >= 4 {
      var cut := Min(4 + U32(b), |b|);
      ParsePartsBound(b[cut..]);
    }
  }

  function Prepend(parts: seq<seq<byte>>, r: Option<seq<seq<byte>>>): Option<seq<seq<byte>>> {
    match r
    case None => None
    case Some(ps) => Some(parts + ps)
  }

  /** One round of the loop: the first field, then the fields of the rest. */
  lemma ParseStep(b: seq<byte>)
    requires |b| >= 4
    ensures var cut := Min(4 + U32(b), |b|);
      ParseParts(b) == Prepend([b[4..cut]], ParseParts(b[cut..]))
  {
  }

  lemma PrependTwice(parts: seq<seq<byte>>, data: seq<byte>, r: Option<seq<seq<byte>>>)
    ensures Prepend(parts, Prepend([data], r)) == Prepend(parts + [data], r)
  {
    if r.Some? {
      assert parts + ([data] + r.value) == parts + [data] + r.value;
    }
  }

  /** The loop itself: `keydata` shrinks by at least four bytes per round,
      and `parts` collects the fields in order. */
  method SplitKeyData(blob: seq<byte>) returns (r: Option<seq<seq<byte>>>)
    ensures r == ParseParts(blob)
  {
    var keydata := blob;
    var parts: seq<seq<byte>> := [];
    match ParseParts(blob) {
      case None =>
      case Some(ps) => assert parts + ps == ps;
    }
    while keydata != []
      invariant ParseParts(blob) == Prepend(parts, ParseParts(keydata))
      decreases |keydata|
    {
      if |keydata| < 4 {
        return None;
      }
      var dlen := U32(keydata);
      // `keydata[4:dlen + 4]` and `keydata[4 + dlen:]`, both clipped to the end
      var cut := Min(4 + dlen, |keydata|);
      var data := keydata[4..cut];
      ParseStep(keydata);
      PrependTwice(parts, data, ParseParts(keydata[cut..]));
      keydata := keydata[cut..];
      parts := parts + [data];
    }
    assert parts + [] == parts;
    return Some(parts);
  }

  /** Every field is shorter than 2^32 bytes, so its length fits the prefix. */
  predicate FitsU32(parts: seq<seq<byte>>) {
    parts == [] || (|parts[0]| < 0x1_0000_0000 && FitsU32(parts[1..]))
  }

  /** The blob of a list of fields: each as an RFC 4251 `string`. */
  function Serialize(parts: seq<seq<byte>>): seq<byte>
    requires FitsU32(parts)
  {
    if parts == [] then [] else FixedBytes(|parts[0]|, 4) + parts[0] + Serialize(parts[1..])
  }

  lemma Pow256Of4()
    ensures Pow256(4) == 0x1_0000_0000
  {
  }

  /** Cutting a serialised list of fields gives the fields back. */
  lemma {:induction false} ParseSerialize(parts: seq<seq<byte>>)
    requires FitsU32(parts)
    ensures ParseParts(Serialize(parts)) == Some(parts)
  {
    if parts != [] {
      var p := parts[0];
      var b := Serialize(parts);
      Pow256Of4();
      BigEndianOfFixedBytes(|p|, 4);
      assert b[..4] == FixedBytes(|p|, 4);
      U32IsBigEndian(b);
      assert b[4..4 + |p|] == p;
      assert b[4 + |p|..] == Serialize(parts[1..]);
      ParseSerialize(parts[1..]);
      assert [p] + parts[1..] == parts;
    }
  }

  /** A blob whose every length prefix is followed by at least that many bytes. */
  predicate WellFormed(b: seq<byte>)
    decreases |b|
  {
    b == [] || (|b| >= 4 && 4 + U32(b) <= |b| && WellFormed(b[4 + U32(b)..]))
  }

  /** For a well-formed blob, re-prefixing the fields with their lengths
      rebuilds the blob. */
  lemma {:induction false} SerializeParse(b: seq<byte>)
    requires WellFormed(b)
    ensures ParseParts(b).Some? && FitsU32(ParseParts(b).value)
    ensures Serialize(ParseParts(b).value) == b
    decreases |b|
  {
    if b != [] {
      var rest := b[4 + U32(b)..];
      SerializeParse(rest);
      ParseWhole(b);
      SerializeStep(b, ParseParts(rest).value);
    }
  }

  /** Writing a prefix's value back as four big-endian bytes gives the prefix. */
  lemma U32Bytes(b: seq<byte>)
    requires |b| >= 4
    ensures FixedBytes(U32(b), 4) == b[..4]
  {
    U32IsBigEndian(b);
    FixedBytesOfBigEndian(b[..4]);
  }

  /** One step of `SerializeParse`: a whole first field in front of a rest
      that the fields `ps` rebuild. */
  lemma SerializeStep(b: seq<byte>, ps: seq<seq<byte>>)
    requires |b| >= 4 && 4 + U32(b) <= |b|
    requires FitsU32(ps) && Serialize(ps) == b[4 + U32(b)..]
    ensures FitsU32([b[4..4 + U32(b)]] + ps) && Serialize([b[4..4 + U32(b)]] + ps) == b
  {
    var n := U32(b);
    var p := b[4..4 + n];
    assert b == b[..4] + p + b[4 + n..];
    U32Bytes(b);
    SerializeCons(p, ps);
  }

  /** A blob that starts with a whole field: that field, then the fields of
      the rest. */
  lemma ParseWhole(b: seq<byte>)
    requires |b| >= 4 && 4 + U32(b) <= |b|
    ensures ParseParts(b) == Prepend([b[4..4 + U32(b)]], ParseParts(b[4 + U32(b)..]))
  {
    assert Min(4 + U32(b), |b|) == 4 + U32(b);
  }


  /** One field in front of a list of fields that fit. */
  lemma SerializeCons(p: seq<byte>, ps: seq<seq<byte>>)
    requires |p| < 0x1_0000_0000 && FitsU32(ps)
    ensures FitsU32([p] + ps)
    ensures Serialize([p] + ps) == FixedBytes(|p|, 4) + p + Serialize(ps)
  {
    var all := [p] + ps;
    assert all[0] == p && all[1..] == ps;
  }


  // ---------------------------------------------------------------------
  // The PEM block

  const PEM_HEADER: string := "-----BEGIN PUBLIC KEY-----\n"
  const PEM_FOOTER: string := "\n-----END PUBLIC KEY-----\n"

  /** `re.sub("(.{64})", "\\1\n", s, count)` on text without line breaks:
      a newline after each of the first `count` whole 64-character groups. */
  function Wrap64(s: string, count: nat): string
    requires '\n' !in s
  {
    if count == 0 || |s| < 64 then s
    else
      Text.NotInSplit(s, '\n', 64);
      s[..64] + "\n" + Wrap64(s[64..], count - 1)
  }

  /** Removing the inserted newlines gives the text back. */
  lemma {:induction false} UnwrapWrap64(s: string, count: nat)
    requires '\n' !in s
    ensures Text.Without(Wrap64(s, count), '\n') == s
  {
    if count > 0 && |s| >= 64 {
      var head, tail := s[..64], s[64..];
      Text.NotInSplit(s, '\n', 64);
      UnwrapWrap64(tail, count - 1);
      Text.WithoutAround(head, Wrap64(tail, count - 1), '\n');
      assert head + tail == s;
    }
  }



  /** The lines of the wrapped text: the first min(count, |s| / 64) are the
      64-character groups of `s` in order, and the last holds what is left. */
  lemma {:induction false} Wrap64Lines(s: string, count: nat)
    requires '\n' !in s
    ensures var lines := Text.Split(Wrap64(s, count), '\n');
      var g := Min(count, |s| / 64);
      |lines| == g + 1
      && (forall i :: 0 <= i < g ==> lines[i] == s[64 * i..64 * i + 64])
      && lines[g] == s[64 * g..]
  {
    if count == 0 || |s| < 64 {
      Text.SplitNoSep(s, '\n');
    } else {
      var head, tail := s[..64], s[64..];
      Text.NotInSplit(s, '\n', 64);
      Wrap64Lines(tail, count - 1);
      var w := Wrap64(tail, count - 1);
      assert Wrap64(s, count) == head + ['\n'] + w;
      Text.SplitPrefix(head, w, '\n');
      LinesShift(s, Text.Split(w, '\n'), count);
    }
  }

  /** One 64-character group in front of the lines of the rest. */
  lemma LinesShift(s: string, rest: seq<string>, count: nat)
    requires |s| >= 64 && count > 0
    requires var g := Min(count - 1, |s[64..]| / 64);
      |rest| == g + 1
      && (forall i :: 0 <= i < g ==> rest[i] == s[64..][64 * i..64 * i + 64])
      && rest[g] == s[64..][64 * g..]
    ensures var lines, g := [s[..64]] + rest, Min(count, |s| / 64);
      |lines| == g + 1
      && (forall i :: 0 <= i < g ==> lines[i] == s[64 * i..64 * i + 64])
      && lines[g] == s[64 * g..]
  {
    var lines, g := [s[..64]] + rest, Min(count, |s| / 64);
    GroupsShift(|s|, count);
    forall i | 0 <= i < g
      ensures lines[i] == s[64 * i..64 * i + 64]
    {
      if i > 0 {
        assert lines[i] == rest[i - 1];
      }
    }
  }

  lemma GroupsShift(n: nat, count: nat)
    requires n >= 64 && count > 0
    ensures (n - 64) / 64 == n / 64 - 1
    ensures Min(count - 1, (n - 64) / 64) == Min(count, n / 64) - 1
  {
  }

  /** `re.DOTALL` (16) lands in the `count` argument of `re.sub`: a body of
      more than 17 groups keeps all but the first 16 groups on one line. */
  lemma LongBodyLastLine(s: string)
    requires '\n' !in s && |s| > 17 * 64
    ensures var lines := Text.Split(Wrap64(s, 16), '\n');
      |lines| == 17 && |lines[16]| == |s| - 1024 && |lines[16]| > 64
  {
    Wrap64Lines(s, 16);
  }

  /** A body of whole 64-character groups, at most 16 of them, ends with the
      newline of its last group, so the block holds an empty line before the
      footer. */
  lemma EmptyLineBeforeFooter(s: string)
    requires '\n' !in s && s != [] && |s| % 64 == 0 && |s| <= 16 * 64
    ensures var lines := Text.Split(Wrap64(s, 16), '\n');
      |lines| == |s| / 64 + 1 && lines[|s| / 64] == ""
  {
    Wrap64Lines(s, 16);
  }

  /** The returned text: header, wrapped body, footer. */
  function Pem(body: string): string {
    PEM_HEADER + Wrap64(Text.Without(body, '\n'), 16) + PEM_FOOTER
  }

  /** Reads a PEM "PUBLIC KEY" block back: header and footer, then the body
      with its line breaks removed, decoded from Base64. */
  function Dearmor(text: string): Option<seq<byte>> {
    if |text| >= |PEM_HEADER| + |PEM_FOOTER|
       && text[..|PEM_HEADER|] == PEM_HEADER
       && text[|text| - |PEM_FOOTER|..] == PEM_FOOTER
    then Base64.Decode(Text.Without(text[|PEM_HEADER|..|text| - |PEM_FOOTER|], '\n'))
    else None
  }

  /** The block armours exactly the DER bytes it was made from. */
  lemma DearmorPem(der: seq<byte>)
    ensures Dearmor(Pem(Base64.Encode(der))) == Some(der)
  {
    var body := Base64.Encode(der);
    var w := Wrap64(Text.Without(body, '\n'), 16);
    var text := Pem(body);
    assert text[..|PEM_HEADER|] == PEM_HEADER;
    assert text[|text| - |PEM_FOOTER|..] == PEM_FOOTER;
    assert text[|PEM_HEADER|..|text| - |PEM_FOOTER|] == w;
    UnwrapWrap64(body, 16);
    Base64.DecodeEncode(der);
  }

  // ---------------------------------------------------------------------
  // The ASN.1 structure

  /** RSAPublicKey: SEQUENCE { modulus n, publicExponent e }. */
  function RsaPublicKey(n: nat, e: nat): Asn1 {
    Sequence([Integer(n), Integer(e)])
  }

  /** AlgorithmIdentifier { rsaEncryption, NULL }. */
  const ALGORITHM: Asn1 := Sequence([ObjectIdentifier(RSA_ENCRYPTION), Null])

  /** SubjectPublicKeyInfo { algorithm, subjectPublicKey BIT STRING }. */
  function SubjectPublicKeyInfo(bits: seq<bool>): Asn1 {
    Sequence([ALGORITHM, BitString(bits)])
  }

  /** The DER of the SubjectPublicKeyInfo whose BIT STRING is the DER of
      RSAPublicKey(n, e). */
  function Pkcs8Der(n: nat, e: nat): Option<seq<byte>> {
    match Encode(RsaPublicKey(n, e))
    case None => None
    case Some(key) => Encode(SubjectPublicKeyInfo(BitsOf(key)))
  }

  // ---------------------------------------------------------------------
  // The conversion

  datatype ConvertError =
    | KeyNotFound      // EncryptionFailure("Unable to find the key"): no second field
    | BadBase64        // binascii.Error, or ValueError on non-ASCII text, from b64decode; not caught
    | TruncatedLength  // struct.error: fewer than four bytes where a length belongs
    | MissingPart      // IndexError: the blob has fewer than three fields
    | EmptyInteger     // ValueError from int('', 16): an empty field
    | TooLong          // the DER encoder cannot write more than 126 length octets

  /** What the function returns or raises, step by step as written. */
  function Convert(pubkey: string): Result<string, ConvertError> {
    var words := Text.Words(pubkey);
    if |words| < 2 then Err(KeyNotFound)
    else
      match Base64.Decode(words[1])
      case None => Err(BadBase64)
      case Some(keydata) =>
        match ParseParts(keydata)
        case None => Err(TruncatedLength)
        case Some(parts) => PartsToPem(parts)
  }

  function PartsToPem(parts: seq<seq<byte>>): Result<string, ConvertError> {
    if |parts| < 3 then Err(MissingPart)
    else
      match (IntFromHex(Hexlify(parts[2])), IntFromHex(Hexlify(parts[1])))
      case (Some(n), Some(e)) =>
        (match Encode(Sequence([Integer(n), Integer(e)]))
         case None => Err(TooLong)
         case Some(inner) =>
           match IntFromHex(Hexlify(inner))
           case None => Err(EmptyInteger)
           case Some(pklong) =>
             var bits := [false, false] + Binary(pklong);
             match Encode(Sequence([Sequence([ObjectIdentifier(RSA_ENCRYPTION), Null]), BitString(bits)]))
             case None => Err(TooLong)
             case Some(outer) => Ok(Pem(Base64.Encode(outer))))
      case _ => Err(EmptyInteger)
  }

  /** `convert_from_sshrsa_to_pkcs8`, with its field loop and `_to_sequence`. */
  method ConvertFromSshRsaToPkcs8(pubkey: string) returns (r: Result<string, ConvertError>)
    ensures r == Convert(pubkey)
  {
    var words := Text.Words(pubkey);
    if |words| < 2 {
      return Err(KeyNotFound);
    }
    var keydata := Base64.Decode(words[1]);
    if keydata.None? {
      return Err(BadBase64);
    }
    var split := SplitKeyData(keydata.value);
    if split.None? {
      return Err(TruncatedLength);
    }
    var parts := split.value;
    if |parts| < 3 {
      return Err(MissingPart);
    }
    var nVal := IntFromHex(Hexlify(parts[2]));
    var eVal := IntFromHex(Hexlify(parts[1]));
    if nVal.None? || eVal.None? {
      return Err(EmptyInteger);
    }
    var pkinfo := ToSequence([Integer(nVal.value), Integer(eVal.value)]);
    assert pkinfo.items == [Integer(nVal.value), Integer(eVal.value)];
    var inner := Encode(pkinfo);
    if inner.None? {
      return Err(TooLong);
    }
    var pklong := IntFromHex(Hexlify(inner.value));
    if pklong.None? {
      return Err(EmptyInteger);
    }
    var pkbitstring := BitString([false, false] + Binary(pklong.value));
    var oid := ToSequence([ObjectIdentifier(RSA_ENCRYPTION), Null]);
    assert oid.items == [ObjectIdentifier(RSA_ENCRYPTION), Null];
    var pkcs1Seq := ToSequence([oid, pkbitstring]);
    assert pkcs1Seq.items == [oid, pkbitstring];
    var outer := Encode(pkcs1Seq);
    if outer.None? {
      return Err(TooLong);
    }
    var pkcs8 := Base64.Encode(outer.value);
    return Ok(Pem(pkcs8));
  }

  // ---------------------------------------------------------------------
  // What the conversion means

  /** The DER of a SEQUENCE starts with the SEQUENCE tag 0x30. */
  lemma SequenceTag(items: seq<Asn1>)
    requires Encode(Sequence(items)).Some?
    ensures |Encode(Sequence(items)).value| >= 2
    ensures Encode(Sequence(items)).value[0] == SEQUENCE_TAG
  {
  }

  /** `'00' + bin(pklong)[2:]` is bit for bit the DER it came from: 0x30
      begins with two zero bits and then a one. */
  lemma {:induction false} BitStringOfDer(der: seq<byte>)
    requires der != [] && der[0] == SEQUENCE_TAG
    ensures [false, false] + Binary(BigEndian(der)) == BitsOf(der)
    ensures |[false, false] + Binary(BigEndian(der))| == 8 * |der|
  {
    var bits := BitsOf(der);
    BitsOfPrefix(der);
    assert NatBits(0x30, 8) == [false, false, true, true, false, false, false, false];
    assert bits[..8] == NatBits(0x30, 8);
    assert bits[0] == false && bits[1] == false && bits[2] == true;
    var tail := bits[2..];
    assert bits == [false, false] + tail;
    LeadingZeros([false, false], tail);
    BitsToNatOfBitsOf(der);
    BinaryOfBitsToNat(tail);
  }

  /** A BIT STRING of whole bytes carries those bytes after an unused-bits
      count of zero. */
  lemma BitStringOfBytes(b: seq<byte>)
    ensures BitStringContent(BitsOf(b)) == [0] + b
  {
    var bits := BitsOf(b);
    assert |bits| % 8 == 0;
    BitStringContentWhole(bits);
    PackBitsOf(b);
  }

  /** For a blob of at least three non-empty fields, the result is the PEM
      block of the SubjectPublicKeyInfo with n = parts[2] and e = parts[1],
      whatever parts[0] says. */
  lemma PartsToPemIsPkcs8(parts: seq<seq<byte>>)
    requires |parts| >= 3 && parts[1] != [] && parts[2] != []
    ensures PartsToPem(parts)
         == match Pkcs8Der(BigEndian(parts[2]), BigEndian(parts[1]))
            case None => Err(TooLong)
            case Some(der) => Ok(Pem(Base64.Encode(der)))
  {
    var n, e := BigEndian(parts[2]), BigEndian(parts[1]);
    IntFromHexlify(parts[2]);
    IntFromHexlify(parts[1]);
    match Encode(RsaPublicKey(n, e)) {
      case None =>
      case Some(inner) =>
        SequenceTag([Integer(n), Integer(e)]);
        IntFromHexlify(inner);
        BitStringOfDer(inner);
    }
  }

  /** The layout of the DER: an outer SEQUENCE of the algorithm identifier
      (06 09 2A 86 48 86 F7 0D 01 01 01 then 05 00) and a BIT STRING whose
      content is a zero unused-bits count followed by the DER of
      RSAPublicKey(n, e). */
  lemma Pkcs8Layout(n: nat, e: nat)
    requires Pkcs8Der(n, e).Some?
    ensures Encode(RsaPublicKey(n, e)).Some?
    ensures var key := Encode(RsaPublicKey(n, e)).value;
      var alg := ALGORITHM_DER;
      Encode(BitString(BitsOf(key))).Some?
      && ReadTlv(Pkcs8Der(n, e).value) == Some((SEQUENCE_TAG, alg + Encode(BitString(BitsOf(key))).value, []))
      && ReadTlv(Encode(BitString(BitsOf(key))).value) == Some((BIT_STRING_TAG, [0] + key, []))
  {
    var key := Encode(RsaPublicKey(n, e)).value;
    SequenceOfTwo(ALGORITHM, BitString(BitsOf(key)));
    AlgorithmBytes();
    BitStringOfBytes(key);
    var bs := Encode(BitString(BitsOf(key))).value;
    TlvRoundTrip(BIT_STRING_TAG, [0] + key, []);
    assert bs + [] == bs;
  }

  /** The AlgorithmIdentifier SEQUENCE { rsaEncryption, NULL }:
      30 0D 06 09 2A 86 48 86 F7 0D 01 01 01 05 00. */
  const ALGORITHM_DER: seq<byte> := [SEQUENCE_TAG, 0x0D] + RSA_ENCRYPTION_DER + [NULL_TAG, 0x00]

  lemma AlgorithmBytes()
    ensures Encode(ALGORITHM) == Some(ALGORITHM_DER)
  {
    RsaEncryptionBytes();
    NullBytes();
    EncodeAllTwo(ObjectIdentifier(RSA_ENCRYPTION), Null);
    var content := RSA_ENCRYPTION_DER + [NULL_TAG, 0x00];
    ShortTlv(SEQUENCE_TAG, content);
    assert [SEQUENCE_TAG, 13] + content == ALGORITHM_DER;
  }



  /** Which error is raised, in terms of the input. */
  lemma ConvertErrors(pubkey: string)
    ensures Convert(pubkey) == Err(KeyNotFound) <==> |Text.Words(pubkey)| < 2
    ensures |Text.Words(pubkey)| >= 2 ==>
      (Convert(pubkey) == Err(BadBase64) <==> Base64.Decode(Text.Words(pubkey)[1]).None?)
    ensures |Text.Words(pubkey)| >= 2 && Base64.Decode(Text.Words(pubkey)[1]).Some? ==>
      (Convert(pubkey) == Err(TruncatedLength) <==> ParseParts(Base64.Decode(Text.Words(pubkey)[1]).value).None?)
  {
    var words := Text.Words(pubkey);
    if |words| >= 2 {
      match Base64.Decode(words[1]) {
        case None =>
        case Some(keydata) =>
          match ParseParts(keydata) {
            case None =>
            case Some(parts) => PartsToPemErrors(parts);
          }
      }
    }
  }

  /** Past the blob's decoding, neither of the first two errors can occur;
      `parts[2]` raises `IndexError` exactly when there are fewer than three
      fields, and `int('', 16)` raises `ValueError` exactly when `e` or `n`
      is an empty field (the encoded SEQUENCE is never empty). */
  lemma PartsToPemErrors(parts: seq<seq<byte>>)
    ensures PartsToPem(parts) != Err(KeyNotFound) && PartsToPem(parts) != Err(BadBase64)
    ensures PartsToPem(parts) == Err(MissingPart) <==> |parts| < 3
    ensures |parts| >= 3 ==> (PartsToPem(parts) == Err(EmptyInteger) <==> parts[1] == [] || parts[2] == [])
  {
    if |parts| >= 3 {
      Bytes.IntFromHexlify(parts[2]);
      Bytes.IntFromHexlify(parts[1]);
      if parts[1] != [] && parts[2] != [] {
        var v := Sequence([Integer(BigEndian(parts[2])), Integer(BigEndian(parts[1]))]);
        match Encode(v) {
          case None =>
          case Some(inner) =>
            EncodedNonEmpty(v);
            Bytes.IntFromHexlify(inner);
        }
      }
    }
  }

  /** A DER encoding starts with its tag, so it is never empty. */
  lemma EncodedNonEmpty(v: Asn1)
    requires Encode(v).Some?
    ensures Encode(v).value != []
  {
  }

  /** On a key line `<type> <base64 blob> <comment>`, the conversion goes on
      to the blob itself: it reads the second field and decodes it back. */
  lemma ConvertOfKeyLine(alg: string, blob: seq<byte>, comment: string)
    requires alg != [] && Text.NoSpace(alg)
    requires comment != [] && Text.NoSpace(comment)
    requires blob != []
    ensures Convert(alg + " " + Base64.Encode(blob) + " " + comment)
      == match ParseParts(blob)
         case None => Err(TruncatedLength)
         case Some(parts) => PartsToPem(parts)
  {
    var body := Base64.Encode(blob);
    EncodedNoSpace(body);
    Text.JoinThree(alg, body, comment, ' ');
    Text.WordsJoin([alg, body, comment]);
    Base64.DecodeEncode(blob);
  }

  /** Base64 text holds no whitespace. */
  lemma EncodedNoSpace(body: string)
    requires forall i :: 0 <= i < |body| ==> Base64.IsEncodedChar(body[i])
    ensures Text.NoSpace(body)
  {
  }
}
