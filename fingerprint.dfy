/**
 * `generate_fingerprint`: the key type of an OpenSSH public key line is
 * checked and the digest paramiko computes is shown as colon-separated hex
 * pairs (the MD5 form of section 4 of RFC 4716); and
 * `generate_x509_fingerprint`: the digest printed by `openssl x509
 * -fingerprint` is lower-cased.  paramiko's digest and the openssl run are
 * parameters.
 */
module Fingerprint {
  import opened Wrappers
  import opened Bytes
  import Text
  import Base64

  // ---------------------------------------------------------------------
  // Colon-separated hex pairs

  /** `':'.join(a + b for a, b in zip(h[::2], h[1::2]))`: the characters in
      pairs, a trailing odd character dropped, the pairs joined by `:`. */
  function Colonize(h: string): string {
    if |h| < 2 then ""
    else if |h| < 4 then h[..2]
    else h[..2] + ":" + Colonize(h[2..])
  }

  /** The pairs of a text of even length, in order. */
  function Pairs(h: string): (ps: seq<string>)
    requires |h| % 2 == 0
    ensures |ps| == |h| / 2
    ensures forall i :: 0 <= i < |ps| ==> ps[i] == h[2 * i..2 * i + 2]
  {
    if h == [] then []
    else
      var rest := Pairs(h[2..]);
      [h[..2]] + rest
  }

  /** For a hex string of 2n characters (n >= 1): n pairs joined by colons,
      3n - 1 characters, in which the colons separate exactly the pairs. */
  lemma {:induction false} ColonizePairs(h: string)
    requires |h| % 2 == 0 && |h| >= 2 && ':' !in h
    ensures |Colonize(h)| == 3 * (|h| / 2) - 1
    ensures Text.Split(Colonize(h), ':') == Pairs(h)
  {
    if |h| == 2 {
      assert ':' !in h[..2];
      Text.SplitNoSep(h[..2], ':');
    } else {
      var t := h[2..];
      assert forall c :: c in t ==> c in h;
      assert forall c :: c in h[..2] ==> c in h;
      ColonizePairs(t);
      Text.SplitPrefix(h[..2], Colonize(t), ':');
      assert Colonize(h) == h[..2] + [':'] + Colonize(t);
    }
  }

  /** Removing the colons gives the hex string back. */
  lemma {:induction false} ColonizeUncolonize(h: string)
    requires |h| % 2 == 0 && ':' !in h
    ensures Text.Without(Colonize(h), ':') == h
  {
    if |h| == 2 {
      assert h[..2] == h;
    } else if |h| >= 4 {
      var t := h[2..];
      assert forall c :: c in t ==> c in h;
      assert forall c :: c in h[..2] ==> c in h;
      ColonizeUncolonize(t);
      assert Colonize(h) == h[..2] + [':'] + Colonize(t);
      Text.WithoutAround(h[..2], Colonize(t), ':');
      assert h[..2] + t == h;
    }
  }

  /** An MD5 digest (16 bytes) shows as 16 lower-case hex pairs, 47 characters. */
  lemma Md5Form(digest: seq<byte>)
    requires |digest| == 16
    ensures |Colonize(Hexlify(digest))| == 47
    ensures |Text.Split(Colonize(Hexlify(digest)), ':')| == 16
  {
    var h := Hexlify(digest);
    assert forall i :: 0 <= i < |h| ==> h[i] != ':';
    ColonizePairs(h);
  }

  // ---------------------------------------------------------------------
  // generate_fingerprint

  datatype KeyType = SshRsa | SshDss | EcdsaNistp256

  function KeyTypeOf(alg: string): Option<KeyType> {
    if alg == "ssh-rsa" then Some(SshRsa)
    else if alg == "ssh-dss" then Some(SshDss)
    else if alg == "ecdsa-sha2-nistp256" then Some(EcdsaNistp256)
    else None
  }

  /** The reason carried by `InvalidKeypair`. */
  datatype KeypairReason =
    | UnknownKeyType(alg: string)   // "Unknown ssh key type %s"
    | FingerprintFailed             // "failed to generate fingerprint"

  /** What `generate_fingerprint` raises: `InvalidKeypair`, or the `ValueError`
      `b64decode` raises for a field holding a non-ASCII character, which is
      not among the exceptions the function catches and so escapes it. */
  datatype FingerprintError =
    | InvalidKeypair(reason: KeypairReason)
    | NonAsciiValueError

  predicate Ascii(s: string) {
    forall i :: 0 <= i < |s| ==> s[i] as int < 128
  }

  /** `generate_fingerprint(public_key)`.  `digest(t, blob)` is what paramiko's
      `get_fingerprint` gives for a key of type `t`, or None when paramiko
      rejects the blob (`SSHException`). */
  function GenerateFingerprint(publicKey: string, digest: (KeyType, seq<byte>) -> Option<seq<byte>>)
    : Result<string, FingerprintError>
  {
    var parts := Text.Split(publicKey, ' ');
    if |parts| < 2 then Err(InvalidKeypair(FingerprintFailed))
    else if !Ascii(parts[1]) then Err(NonAsciiValueError)
    else
      match Base64.Decode(parts[1])
      case None => Err(InvalidKeypair(FingerprintFailed))
      case Some(data) =>
        match KeyTypeOf(parts[0])
        case None => Err(InvalidKeypair(UnknownKeyType(parts[0])))
        case Some(t) =>
          match digest(t, data)
          case None => Err(InvalidKeypair(FingerprintFailed))
          case Some(d) => Ok(Colonize(Hexlify(d)))
  }

  /** The errors, in the order the code meets them: no second space-separated
      field, then a non-ASCII second field (which escapes as `ValueError`),
      then a failed Base64 decode; only then is an unknown key type named. */
  lemma FingerprintErrors(publicKey: string, digest: (KeyType, seq<byte>) -> Option<seq<byte>>)
    ensures var parts := Text.Split(publicKey, ' ');
      var r := GenerateFingerprint(publicKey, digest);
      (|parts| < 2 ==> r == Err(InvalidKeypair(FingerprintFailed)))
      && (r == Err(NonAsciiValueError) <==> |parts| >= 2 && !Ascii(parts[1]))
      && (|parts| >= 2 && Ascii(parts[1]) && Base64.Decode(parts[1]).None? ==> r == Err(InvalidKeypair(FingerprintFailed)))
      && (r.Err? && r.error.InvalidKeypair? && r.error.reason.UnknownKeyType? <==>
            |parts| >= 2 && Ascii(parts[1]) && Base64.Decode(parts[1]).Some? && KeyTypeOf(parts[0]).None?)
  {
  }

  /** A key line `<alg> <base64 blob> <comment>` of a known type: the
      fingerprint is the digest of the decoded blob, in colon-separated pairs
      that read back as the digest's hex. */
  lemma FingerprintOfKeyLine(alg: string, blob: seq<byte>, comment: string,
                             digest: (KeyType, seq<byte>) -> Option<seq<byte>>)
    requires ' ' !in alg && ' ' !in comment && KeyTypeOf(alg).Some?
    requires digest(KeyTypeOf(alg).value, blob).Some?
    ensures var d := digest(KeyTypeOf(alg).value, blob).value;
      GenerateFingerprint(alg + " " + Base64.Encode(blob) + " " + comment, digest)
        == Ok(Colonize(Hexlify(d)))
      && (d != [] ==> Text.Without(Colonize(Hexlify(d)), ':') == Hexlify(d))
  {
    var body := Base64.Encode(blob);
    var line := alg + " " + body + " " + comment;
    EncodedAscii(body);
    assert line == alg + [' '] + body + [' '] + comment;
    Text.SplitThree(alg, body, comment, ' ');
    Base64.DecodeEncode(blob);
    FingerprintOfFields(line, blob, digest);
    HexlifyUncolonize(digest(KeyTypeOf(alg).value, blob).value);
  }

  /** The colons of a digest's colon form come off to give its hex. */
  lemma HexlifyUncolonize(d: seq<byte>)
    ensures Text.Without(Colonize(Hexlify(d)), ':') == Hexlify(d)
  {
    var h := Hexlify(d);
    assert forall i :: 0 <= i < |h| ==> h[i] != ':';
    ColonizeUncolonize(h);
  }

  /** A line whose second field is ASCII Base64 of `blob` and whose first
      names a known type: the colon form of the digest of `blob`. */
  lemma FingerprintOfFields(line: string, blob: seq<byte>, digest: (KeyType, seq<byte>) -> Option<seq<byte>>)
    requires var parts := Text.Split(line, ' ');
      |parts| >= 2 && Ascii(parts[1]) && Base64.Decode(parts[1]) == Some(blob)
      && KeyTypeOf(parts[0]).Some? && digest(KeyTypeOf(parts[0]).value, blob).Some?
    ensures var t := KeyTypeOf(Text.Split(line, ' ')[0]).value;
      GenerateFingerprint(line, digest) == Ok(Colonize(Hexlify(digest(t, blob).value)))
  {
  }

  /** Base64 text is ASCII and holds no space. */
  lemma EncodedAscii(body: string)
    requires forall i :: 0 <= i < |body| ==> Base64.IsEncodedChar(body[i])
    ensures ' ' !in body && Ascii(body)
  {
  }

  // ---------------------------------------------------------------------
  // generate_x509_fingerprint

  /** `ProcessExecutionError` from the openssl run, carrying its message. */
  datatype X509Error = X509FingerprintFailed(message: string)

  /** `generate_x509_fingerprint`: `opensslOut` is the output of `openssl x509
      -fingerprint -noout`, or the message of the process error. */
  function X509Fingerprint(opensslOut: Result<string, string>): (r: Result<string, X509Error>)
    ensures opensslOut.Err? <==> r.Err?
    ensures r.Ok? ==> '=' !in r.value
    ensures r.Ok? ==> forall i :: 0 <= i < |r.value| ==> !Text.IsUpper(r.value[i])
  {
    match opensslOut
    case Err(msg) => Err(X509FingerprintFailed(msg))
    case Ok(out) =>
      var fp := Text.Strip(Text.AfterLast(out, '='));
      Text.StripKeepsOut(Text.AfterLast(out, '='), '=');
      Text.LowerKeepsOut(fp, '=');
      Ok(Text.Lower(fp))
  }

  /** For output `SHA1 Fingerprint=<digest>` and a line break, the result is
      the digest in lower case. */
  lemma X509FingerprintOfOutput(title: string, digest: string, pad: string)
    requires '=' !in digest && Text.NoSpace(digest)
    requires '=' !in pad && Text.AllSpace(pad)
    ensures X509Fingerprint(Ok(title + "=" + digest + pad)) == Ok(Text.Lower(digest))
  {
    assert forall c :: c in digest + pad ==> c in digest || c in pad;
    assert title + "=" + digest + pad == title + ['='] + (digest + pad);
    Text.AfterLastAppend(title, '=', digest + pad);
    Text.StripPadded(digest, pad);
  }
}
