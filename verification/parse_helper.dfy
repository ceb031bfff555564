/**
 * The certificate helpers of the EJBCA client: the decode strategy for the
 * certificate data EJBCA returns (raw DER, then up to two rounds of the
 * base64 of section 4 of RFC 4648), the choice of the best currently valid
 * certificate, the renewal decision, the trimming of a DER SEQUENCE to the
 * length its header announces (section 8.1.3 of ITU-T X.690).
 *
 * Times are whole seconds; x509.ParseCertificate is a parameter.
 */
module ParseHelper {
  import opened Wrappers
  import opened Bytes
  import Base64
  import Text
  import GoInt
  import Seqs

  /** What the renewal logic reads of an x509 certificate: its validity window and its DER bytes. */
  datatype Certificate = Certificate(notBefore: int, notAfter: int, raw: seq<byte>)

  /** x509.ParseCertificate: the certificate held by DER bytes, or None when they do not parse. */
  type X509Parser = seq<byte> -> Option<Certificate>

  /** base64.StdEncoding.DecodeString: library code, modelled by Base64.Decode. */
  type Base64Decoder = seq<byte> -> Result<seq<byte>, Base64.DecodeError>

  /** A decoder that gets back whatever the standard encoder encoded, as section 4 of RFC 4648 requires. */
  ghost predicate InvertsEncode(decode: Base64Decoder)
  {
    forall x :: decode(Base64.Encode(x)) == Ok(x)
  }

  /** The modelled decoder is such a decoder. */
  lemma StandardInvertsEncode()
    ensures InvertsEncode(Base64.Decode)
  {
    forall x {
      Base64.DecodeEncode(x);
    }
  }

  /** The three errors of parseEJBCAcertData. */
  datatype CertDataError =
    | EmptyData        // "empty certificateData"
    | DerParseFailed   // "DER parse failed"
    | NoDer            // "could not obtain DER from certificateData"

  /** The ASN.1 tag of a SEQUENCE, with which every DER certificate starts. */
  const SequenceTag: byte := 0x30

  predicate StartsAsDer(d: seq<byte>)
  {
    |d| > 0 && d[0] == SequenceTag
  }

  // ---------------------------------------------------------------------------
  // parseEJBCAcertData
  // ---------------------------------------------------------------------------

  /**
   * What the base64 rounds make of `d` when `rounds` of them are left: each
   * round cleans the text up and decodes it; a decode error ends the attempt;
   * the first output that starts like DER is parsed and is final either way.
   */
  function DecodeRounds(d: seq<byte>, rounds: nat, decode: Base64Decoder, parse: X509Parser): Result<Certificate, CertDataError>
    decreases rounds
  {
    if rounds == 0 then Err(NoDer)
    else match decode(StripForBase64(d))
      case Err(_) => Err(NoDer)
      case Ok(der) =>
        if StartsAsDer(der) then
          if parse(der).Some? then Ok(parse(der).value) else Err(DerParseFailed)
        else DecodeRounds(der, rounds - 1, decode, parse)
  }

  /** parseEJBCAcertData: trim, try the bytes as DER, then up to two base64 rounds. */
  function CertData(b: seq<byte>, decode: Base64Decoder, parse: X509Parser): Result<Certificate, CertDataError>
  {
    var t := TrimSpace(b);
    if t == [] then Err(EmptyData)
    else if t[0] == SequenceTag && parse(t).Some? then Ok(parse(t).value)
    else DecodeRounds(t, 2, decode, parse)
  }

  /** The decode loop of parseEJBCAcertData. */
  method ParseEJBCACertData(data: seq<byte>, decode: Base64Decoder, parse: X509Parser)
    returns (r: Result<Certificate, CertDataError>)
    ensures r == CertData(data, decode, parse)
  {
    var b := TrimSpace(data);
    if |b| == 0 {
      return Err(EmptyData);
    }
    if b[0] == SequenceTag {
      var c := parse(b);
      if c.Some? {
        return Ok(c.value);
      }
    }
    var decoded := b;
    var left := 2;
    while left > 0
      invariant left <= 2
      invariant DecodeRounds(decoded, left, decode, parse) == CertData(data, decode, parse)
    {
      var s := StripForBase64(decoded);
      var der := decode(s);
      if der.Err? {
        break;
      }
      decoded := der.value;
      if |decoded| > 0 && decoded[0] == SequenceTag {
        var c := parse(decoded);
        if c.Some? {
          return Ok(c.value);
        }
        return Err(DerParseFailed);
      }
      left := left - 1;
    }
    return Err(NoDer);
  }

  /** The base64 rounds never report empty data. */
  lemma {:induction false} DecodeRoundsNotEmpty(d: seq<byte>, rounds: nat, decode: Base64Decoder, parse: X509Parser)
    ensures DecodeRounds(d, rounds, decode, parse) != Err(EmptyData)
    decreases rounds
  {
    if rounds > 0 {
      match decode(StripForBase64(d))
      case Err(_) =>
      case Ok(der) =>
        if !StartsAsDer(der) {
          DecodeRoundsNotEmpty(der, rounds - 1, decode, parse);
        }
    }
  }

  /** The data is reported empty exactly when nothing but whitespace is left after trimming. */
  lemma CertDataEmpty(b: seq<byte>, decode: Base64Decoder, parse: X509Parser)
    ensures CertData(b, decode, parse) == Err(EmptyData) <==> TrimSpace(b) == []
  {
    DecodeRoundsNotEmpty(TrimSpace(b), 2, decode, parse);
  }

  /** Data that starts like DER and parses is returned as it is, without any base64 decoding. */
  lemma CertDataDirect(b: seq<byte>, decode: Base64Decoder, parse: X509Parser)
    requires var t := TrimSpace(b); StartsAsDer(t) && parse(t).Some?
    ensures CertData(b, decode, parse) == Ok(parse(TrimSpace(b)).value)
  {
  }

  /**
   * The first decoded output that starts like DER is final: when it does not
   * parse the result is an error, whatever further decoding would give.
   */
  lemma FirstDerIsFinal(b: seq<byte>, der: seq<byte>, decode: Base64Decoder, parse: X509Parser)
    requires var t := TrimSpace(b); t != [] && (t[0] != SequenceTag || parse(t).None?)
    requires decode(StripForBase64(TrimSpace(b))) == Ok(der)
    requires StartsAsDer(der) && parse(der).None?
    ensures CertData(b, decode, parse) == Err(DerParseFailed)
  {
  }

  /** No third round: text that needs three base64 decodes to reach DER is rejected. */
  lemma AtMostTwoRounds(b: seq<byte>, d1: seq<byte>, d2: seq<byte>, decode: Base64Decoder, parse: X509Parser)
    requires var t := TrimSpace(b); t != [] && (t[0] != SequenceTag || parse(t).None?)
    requires decode(StripForBase64(TrimSpace(b))) == Ok(d1) && !StartsAsDer(d1)
    requires decode(StripForBase64(d1)) == Ok(d2) && !StartsAsDer(d2)
    ensures CertData(b, decode, parse) == Err(NoDer)
  {
  }

  /** One base64 round over an encoding gets the encoded bytes back. */
  lemma RoundOfEncoding(d: seq<byte>, decode: Base64Decoder)
    requires InvertsEncode(decode)
    ensures TrimSpace(Base64.Encode(d)) == Base64.Encode(d)
    ensures decode(StripForBase64(Base64.Encode(d))) == Ok(d)
  {
    var e := Base64.Encode(d);
    Base64.EncodeHasNoSpace(d);
    StripNoop(e);
    assert decode(e) == Ok(d);
  }

  /** A base64 round over the encoding of `x` goes on exactly as if `x` itself had been decoded. */
  lemma RoundOverEncoding(x: seq<byte>, n: nat, decode: Base64Decoder, parse: X509Parser)
    requires InvertsEncode(decode)
    ensures DecodeRounds(Base64.Encode(x), n + 1, decode, parse) ==
      if StartsAsDer(x) then (if parse(x).Some? then Ok(parse(x).value) else Err(DerParseFailed))
      else DecodeRounds(x, n, decode, parse)
  {
    RoundOfEncoding(x, decode);
  }

  /** The encoding of DER starts with 'M', and the encoding of that with 'T': neither looks like DER. */
  lemma EncodedDerStart(d: seq<byte>)
    requires StartsAsDer(d)
    ensures var e1 := Base64.Encode(d); |e1| > 0 && e1[0] == 77
    ensures var e2 := Base64.Encode(Base64.Encode(d)); |e2| > 0 && e2[0] == 84
  {
    Base64.EncodeFirstChar(d);
    Base64.EncodeFirstChar(Base64.Encode(d));
  }

  /** The base64 of DER and the base64 of that both give the certificate of the DER. */
  lemma EncodedDerFound(d: seq<byte>, decode: Base64Decoder, parse: X509Parser)
    requires InvertsEncode(decode)
    requires StartsAsDer(d) && parse(d).Some?
    ensures CertData(Base64.Encode(d), decode, parse) == Ok(parse(d).value)
    ensures CertData(Base64.Encode(Base64.Encode(d)), decode, parse) == Ok(parse(d).value)
  {
    EncodedOnceFound(d, decode, parse);
    EncodedTwiceFound(d, decode, parse);
  }

  /** The base64 of DER: the first round decodes it. */
  lemma EncodedOnceFound(d: seq<byte>, decode: Base64Decoder, parse: X509Parser)
    requires InvertsEncode(decode)
    requires StartsAsDer(d) && parse(d).Some?
    ensures CertData(Base64.Encode(d), decode, parse) == Ok(parse(d).value)
  {
    var e1 := Base64.Encode(d);
    assert e1 != [] && e1[0] != SequenceTag by {
      EncodedDerStart(d);
    }
    assert TrimSpace(e1) == e1 && decode(StripForBase64(e1)) == Ok(d) by {
      RoundOfEncoding(d, decode);
    }
  }

  /** The base64 of the base64 of DER: the second round decodes it. */
  lemma EncodedTwiceFound(d: seq<byte>, decode: Base64Decoder, parse: X509Parser)
    requires InvertsEncode(decode)
    requires StartsAsDer(d) && parse(d).Some?
    ensures CertData(Base64.Encode(Base64.Encode(d)), decode, parse) == Ok(parse(d).value)
  {
    var e1 := Base64.Encode(d);
    var e2 := Base64.Encode(e1);
    assert e1 != [] && e1[0] != SequenceTag && e2 != [] && e2[0] != SequenceTag by {
      EncodedDerStart(d);
    }
    assert decode(StripForBase64(e1)) == Ok(d) by {
      RoundOfEncoding(d, decode);
    }
    assert TrimSpace(e2) == e2 && decode(StripForBase64(e2)) == Ok(e1) by {
      RoundOfEncoding(e1, decode);
    }
  }

  /**
   * DER, its base64 and the base64 of its base64 all give the same
   * certificate, provided the DER does not end with a whitespace byte.
   */
  lemma CertDataRoundTrip(d: seq<byte>, decode: Base64Decoder, parse: X509Parser)
    requires InvertsEncode(decode)
    requires StartsAsDer(d) && !IsAsciiSpace(d[|d| - 1]) && parse(d).Some?
    ensures CertData(d, decode, parse) == Ok(parse(d).value)
    ensures CertData(Base64.Encode(d), decode, parse) == Ok(parse(d).value)
    ensures CertData(Base64.Encode(Base64.Encode(d)), decode, parse) == Ok(parse(d).value)
  {
    assert TrimSpace(d) == d by {
      Seqs.TrimNoop(d, IsAsciiSpace);
    }
    CertDataDirect(d, decode, parse);
    EncodedDerFound(d, decode, parse);
  }

  /**
   * The raw path trims whitespace off binary DER. For a parser that accepts
   * the DER [0x30, w] ending in a whitespace byte but not its trimmed form,
   * and a decoder that rejects a single character (as Base64.OneCharRejected
   * shows of the standard one), the bytes themselves are rejected while
   * their base64 is accepted.
   */
  lemma TrailingSpaceLost(w: byte, decode: Base64Decoder, parse: X509Parser)
    requires IsAsciiSpace(w)
    requires InvertsEncode(decode) && decode([0x30]).Err?
    requires parse([0x30]).None? && parse([0x30, w]).Some?
    ensures CertData([0x30, w], decode, parse) == Err(NoDer)
    ensures CertData(Base64.Encode([0x30, w]), decode, parse) == Ok(parse([0x30, w]).value)
  {
    TrailingSpaceTrimmed(0x30, w);
    assert StripForBase64([0x30]) == [0x30] by {
      StripNoop([0x30]);
    }
    NoRoundSucceeds([0x30, w], decode, parse);
    EncodedDerFound([0x30, w], decode, parse);
  }

  /**
   * The evidently intended decode: the data is first tried as DER exactly
   * as received, and only then trimmed and decoded as parseEJBCAcertData does.
   */
  function CertDataKeepDer(b: seq<byte>, decode: Base64Decoder, parse: X509Parser): Result<Certificate, CertDataError>
  {
    if StartsAsDer(b) && parse(b).Some? then Ok(parse(b).value) else CertData(b, decode, parse)
  }

  /** DER, its base64 and the base64 of its base64 all give the certificate of the DER, whatever byte the DER ends with. */
  lemma KeepDerRoundTrip(d: seq<byte>, decode: Base64Decoder, parse: X509Parser)
    requires InvertsEncode(decode)
    requires StartsAsDer(d) && parse(d).Some?
    ensures CertDataKeepDer(d, decode, parse) == Ok(parse(d).value)
    ensures CertDataKeepDer(Base64.Encode(d), decode, parse) == Ok(parse(d).value)
    ensures CertDataKeepDer(Base64.Encode(Base64.Encode(d)), decode, parse) == Ok(parse(d).value)
  {
    EncodedDerStart(d);
    EncodedDerFound(d, decode, parse);
  }

  /** Trimmed data that is no DER and whose first base64 round fails is reported as holding no DER. */
  lemma NoRoundSucceeds(b: seq<byte>, decode: Base64Decoder, parse: X509Parser)
    requires var t := TrimSpace(b); t != [] && (t[0] != SequenceTag || parse(t).None?)
    requires decode(StripForBase64(TrimSpace(b))).Err?
    ensures CertData(b, decode, parse) == Err(NoDer)
  {
  }

  // ---------------------------------------------------------------------------
  // PickBestValidCert
  // ---------------------------------------------------------------------------

  /** Valid at `now`: not before NotBefore and strictly before NotAfter. */
  predicate ValidAt(c: Certificate, now: int)
  {
    c.notBefore <= now < c.notAfter
  }

  predicate NoneValid(cs: seq<Certificate>, now: int)
  {
    forall j :: 0 <= j < |cs| ==> !ValidAt(cs[j], now)
  }

  /**
   * Candidate `k` is the best one: it is valid, no valid candidate expires
   * later, and every valid candidate before it expires strictly earlier.
   */
  predicate IsBest(cs: seq<Certificate>, now: int, k: nat)
  {
    k < |cs| && ValidAt(cs[k], now) &&
    (forall j :: 0 <= j < |cs| && ValidAt(cs[j], now) ==> cs[j].notAfter <= cs[k].notAfter) &&
    (forall j :: 0 <= j < k && ValidAt(cs[j], now) ==> cs[j].notAfter < cs[k].notAfter)
  }

  /** The position PickBestValidCert settles on, candidate by candidate. */
  function BestValid(cs: seq<Certificate>, now: int): Option<nat>
    decreases |cs|
  {
    if cs == [] then None
    else
      var best := BestValid(cs[..|cs| - 1], now);
      var k := |cs| - 1;
      if !ValidAt(cs[k], now) then best
      else if best.None? || (best.value < |cs| && cs[k].notAfter > cs[best.value].notAfter) then Some(k)
      else best
  }

  /** PickBestValidCert finds nothing exactly when no candidate is valid, and otherwise the best one. */
  lemma {:induction false} BestValidIsBest(cs: seq<Certificate>, now: int)
    ensures BestValid(cs, now).None? <==> NoneValid(cs, now)
    ensures BestValid(cs, now).Some? ==> IsBest(cs, now, BestValid(cs, now).value)
    decreases |cs|
  {
    if cs != [] {
      var init := cs[..|cs| - 1];
      var k := |cs| - 1;
      BestValidIsBest(init, now);
      assert forall j :: 0 <= j < k ==> init[j] == cs[j];
    }
  }

  /** At most one candidate is the best. */
  lemma BestIsUnique(cs: seq<Certificate>, now: int, k1: nat, k2: nat)
    requires IsBest(cs, now, k1) && IsBest(cs, now, k2)
    ensures k1 == k2
  {
  }

  /** PickBestValidCert: the position of the chosen candidate, or None for Go's nil. */
  method PickBestValidCert(now: int, certs: seq<Certificate>) returns (best: Option<nat>)
    ensures best == BestValid(certs, now)
    ensures best.None? <==> NoneValid(certs, now)
    ensures best.Some? ==> IsBest(certs, now, best.value)
  {
    best := None;
    for i := 0 to |certs|
      invariant best == BestValid(certs[..i], now)
      invariant best.Some? ==> best.value < i
    {
      assert certs[..i + 1][..i] == certs[..i];
      var c := certs[i];
      if now < c.notBefore || !(now < c.notAfter) {
        continue;
      }
      if best.None? || c.notAfter > certs[best.value].notAfter {
        best := Some(i);
      }
    }
    assert certs[..|certs|] == certs;
    BestValidIsBest(certs, now);
  }

  /** The certificate at the chosen position. */
  function Chosen(cs: seq<Certificate>, k: Option<nat>): Option<Certificate>
  {
    if k.Some? && k.value < |cs| then Some(cs[k.value]) else None
  }

  // ---------------------------------------------------------------------------
  // NeedsRenew
  // ---------------------------------------------------------------------------

  /** NeedsRenew: renew without a certificate, or when the remaining lifetime is at most the window. */
  function NeedsRenew(now: int, cert: Option<Certificate>, changeBefore: int): (r: bool)
    ensures cert.None? ==> r
    ensures cert.Some? ==> (r <==> now >= cert.value.notAfter - changeBefore)
  {
    cert.None? || cert.value.notAfter - now <= changeBefore
  }

  /** A wider window never turns a renewal off. */
  lemma NeedsRenewMonotone(now: int, cert: Option<Certificate>, w1: int, w2: int)
    requires w1 <= w2 && NeedsRenew(now, cert, w1)
    ensures NeedsRenew(now, cert, w2)
  {
  }

  /** Once a renewal is due it stays due. */
  lemma NeedsRenewLater(now1: int, now2: int, cert: Option<Certificate>, w: int)
    requires now1 <= now2 && NeedsRenew(now1, cert, w)
    ensures NeedsRenew(now2, cert, w)
  {
  }

  /** The boundary is inclusive: exactly `w` seconds left renews, one more does not. */
  lemma NeedsRenewBoundary(c: Certificate, w: int)
    ensures NeedsRenew(c.notAfter - w, Some(c), w)
    ensures !NeedsRenew(c.notAfter - w - 1, Some(c), w)
  {
  }

  // ---------------------------------------------------------------------------
  // trimToASN1Object
  // ---------------------------------------------------------------------------

  datatype Asn1Error =
    | NotSequence       // too short or not a SEQUENCE
    | IndefiniteLength  // length octet 0x80
    | LengthTruncated   // fewer length octets than announced
    | BadTotal          // header plus content length not within the input

  /** The long-form length octets as the code accumulates them: shift left by 8 and or in the next byte, in int64. */
  function LengthOctets64(bs: seq<byte>): (v: int)
    ensures GoInt.IsInt64(v)
    decreases |bs|
  {
    if bs == [] then 0 else GoInt.Wrap64(LengthOctets64(bs[..|bs| - 1]) * 256 + bs[|bs| - 1])
  }

  /** The unsigned big-endian value of length octets. */
  function BigEndian(bs: seq<byte>): nat
    decreases |bs|
  {
    if bs == [] then 0 else BigEndian(bs[..|bs| - 1]) * 256 + bs[|bs| - 1]
  }

  function Pow256(n: nat): (r: nat)
    ensures r >= 1
  {
    if n == 0 then 1 else 256 * Pow256(n - 1)
  }

  /** Up to seven length octets never wrap: the code reads their exact value. */
  lemma {:induction false} LengthOctetsExact(bs: seq<byte>)
    requires |bs| <= 7
    ensures BigEndian(bs) < Pow256(|bs|)
    ensures LengthOctets64(bs) == BigEndian(bs)
    decreases |bs|
  {
    if bs != [] {
      var init := bs[..|bs| - 1];
      LengthOctetsExact(init);
      assert Pow256(|bs|) == 256 * Pow256(|init|);
      assert Pow256(6) == 0x1_0000_0000_0000;
      Pow256Monotone(|init|, 6);
    }
  }

  lemma {:induction false} Pow256Monotone(m: nat, n: nat)
    requires m <= n
    ensures Pow256(m) <= Pow256(n)
    decreases n
  {
    if m < n {
      Pow256Monotone(m, n - 1);
    }
  }

  /**
   * trimToASN1Object: the prefix of `b` that the DER length of its leading
   * SEQUENCE covers, or `b` itself with an error.
   */
  function TrimToAsn1(b: seq<byte>): (r: (seq<byte>, Option<Asn1Error>))
    ensures r.1.Some? ==> r.0 == b
    ensures r.1.None? ==> 0 < |r.0| <= |b| && r.0 == b[..|r.0|]
  {
    if |b| < 2 || b[0] != SequenceTag then (b, Some(NotSequence))
    else if b[1] == 0x80 then (b, Some(IndefiniteLength))
    else if b[1] >= 0x80 && |b| < 2 + (b[1] - 0x80) then (b, Some(LengthTruncated))
    else
      var hdr := if b[1] < 0x80 then 2 else 2 + (b[1] - 0x80);
      var contentLen := if b[1] < 0x80 then b[1] as int else LengthOctets64(b[2..hdr]);
      var total := GoInt.Wrap64(hdr + contentLen);
      if total <= 0 || total > |b| then (b, Some(BadTotal)) else (b[..total], None)
  }

  /** The length-decoding loop of trimToASN1Object. */
  method TrimToAsn1Object(b: seq<byte>) returns (out: seq<byte>, err: Option<Asn1Error>)
    ensures (out, err) == TrimToAsn1(b)
  {
    if |b| < 2 || b[0] != SequenceTag {
      return b, Some(NotSequence);
    }
    var lb := b[1];
    if lb == 0x80 {
      return b, Some(IndefiniteLength);
    }
    var hdr: int;
    var contentLen: int;
    if lb < 0x80 {
      hdr := 2;
      contentLen := lb;
    } else {
      var n := lb - 0x80;
      if |b| < 2 + n {
        return b, Some(LengthTruncated);
      }
      hdr := 2 + n;
      contentLen := 0;
      for i := 0 to n
        invariant contentLen == LengthOctets64(b[2..2 + i])
      {
        assert b[2..2 + i + 1][..i] == b[2..2 + i];
        contentLen := GoInt.Wrap64(contentLen * 256 + b[2 + i]);
      }
    }
    var total := GoInt.Wrap64(hdr + contentLen);
    if total <= 0 || total > |b| {
      return b, Some(BadTotal);
    }
    if total != |b| {
      out := b[..total];
    } else {
      out := b;
      assert b[..total] == b;
    }
    err := None;
  }

  /** Short form: a length octet below 0x80 is the content length itself. */
  lemma TrimShortForm(b: seq<byte>)
    requires |b| >= 2 && b[0] == SequenceTag && b[1] < 0x80
    ensures 2 + b[1] <= |b| ==> TrimToAsn1(b) == (b[..2 + b[1]], None)
    ensures 2 + b[1] > |b| ==> TrimToAsn1(b) == (b, Some(BadTotal))
  {
  }

  /** Long form with at most seven length octets: header, octets and the content they announce. */
  lemma TrimLongForm(b: seq<byte>)
    requires |b| >= 2 && b[0] == SequenceTag && 0x80 < b[1] <= 0x87 && 2 + (b[1] - 0x80) <= |b|
    ensures var n := b[1] - 0x80;
            var total := 2 + n + BigEndian(b[2..2 + n]);
            TrimToAsn1(b) == if total <= |b| then (b[..total], None) else (b, Some(BadTotal))
  {
    var n := b[1] - 0x80;
    LengthOctetsExact(b[2..2 + n]);
    assert Pow256(7) == 0x100_0000_0000_0000;
    Pow256Monotone(n, 7);
  }

  /**
   * trimToASN1Object with the content length read exactly, without int64
   * wrap-around: what the length check evidently intends.
   */
  function TrimToAsn1Exact(b: seq<byte>): (r: (seq<byte>, Option<Asn1Error>))
    ensures r.1.Some? ==> r.0 == b
    ensures r.1.None? ==> 2 <= |r.0| <= |b| && r.0 == b[..|r.0|]
  {
    if |b| < 2 || b[0] != SequenceTag then (b, Some(NotSequence))
    else if b[1] == 0x80 then (b, Some(IndefiniteLength))
    else if b[1] >= 0x80 && |b| < 2 + (b[1] - 0x80) then (b, Some(LengthTruncated))
    else
      var hdr := if b[1] < 0x80 then 2 else 2 + (b[1] - 0x80);
      var contentLen := if b[1] < 0x80 then b[1] as int else BigEndian(b[2..hdr]);
      var total := hdr + contentLen;
      if total > |b| then (b, Some(BadTotal)) else (b[..total], None)
  }

  /** With exact lengths, a trimmed object holds its whole header and trims to itself. */
  lemma TrimExactIdempotent(b: seq<byte>)
    requires TrimToAsn1Exact(b).1.None?
    ensures var out := TrimToAsn1Exact(b).0; TrimToAsn1Exact(out) == (out, None)
  {
    var out := TrimToAsn1Exact(b).0;
    assert out[0] == b[0] && out[1] == b[1];
    assert out[..|out|] == out;
    if b[1] >= 0x80 {
      var hdr := 2 + (b[1] - 0x80);
      assert hdr <= |out|;
      assert out[2..hdr] == b[2..hdr];
    }
  }

  /**
   * With int64 wrap-around, eight 0xFF length octets read as -1: the code
   * returns a 9-byte prefix that does not even hold its own header, and
   * trimming that again fails.
   */
  lemma TrimWrapCounterexample()
    ensures var b: seq<byte> := [0x30, 0x88, 0xFF, 0xFF, 0xFF, 0xFF, 0xFF, 0xFF, 0xFF, 0xFF, 0x00];
            TrimToAsn1(b) == (b[..9], None) && TrimToAsn1(b[..9]) == (b[..9], Some(LengthTruncated))
  {
    var b: seq<byte> := [0x30, 0x88, 0xFF, 0xFF, 0xFF, 0xFF, 0xFF, 0xFF, 0xFF, 0xFF, 0x00];
    var o := b[2..10];
    assert LengthOctets64(o[..1]) == 0xFF;
    assert LengthOctets64(o[..2]) == 0xFFFF by { assert o[..2][..1] == o[..1]; }
    assert LengthOctets64(o[..3]) == 0xFF_FFFF by { assert o[..3][..2] == o[..2]; }
    assert LengthOctets64(o[..4]) == 0xFFFF_FFFF by { assert o[..4][..3] == o[..3]; }
    assert LengthOctets64(o[..5]) == 0xFF_FFFF_FFFF by { assert o[..5][..4] == o[..4]; }
    assert LengthOctets64(o[..6]) == 0xFFFF_FFFF_FFFF by { assert o[..6][..5] == o[..5]; }
    assert LengthOctets64(o[..7]) == 0xFF_FFFF_FFFF_FFFF by { assert o[..7][..6] == o[..6]; }
    assert LengthOctets64(o) == -1 by { assert o[..7] == o[..|o| - 1]; }
  }
}
