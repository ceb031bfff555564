/**
 * Finding the certificate signing request in the output of a command run on
 * the target (ParseCSRFromString in ssh/SessionHandling.go).
 *
 * The standard output is read as a stream of PEM blocks (section 2 of
 * RFC 7468). The first block labelled as a CSR whose request parses and whose
 * self-signature holds is written out again as PEM and kept as the CSR text.
 * Reading PEM, parsing the request and checking its signature are library
 * code and enter the model as parameters. A Go string is a byte string, so
 * the CSR text is a `seq<byte>`.
 */
module Session {
  import opened Wrappers
  import opened Bytes
  import Pem
  import Base64

  /** csrTypes: the PEM labels of a certificate signing request. */
  const CsrTypes: set<string> := {"CERTIFICATE REQUEST", "NEW CERTIFICATE REQUEST"}

  /**
   * x509.ParseCertificateRequest succeeds on the payload, and CheckSignature
   * holds for the request parsed from it.
   */
  datatype CsrChecks = CsrChecks(parses: seq<byte> -> bool, signatureValid: seq<byte> -> bool)

  /** A block the scan accepts. */
  predicate Acceptable(b: Pem.Block, checks: CsrChecks)
  {
    b.kind in CsrTypes && checks.parses(b.bytes) && checks.signatureValid(b.bytes)
  }

  /** The blocks of the stream in order, up to the end of the data or the first place no block decodes. */
  function Blocks(rest: seq<byte>, decode: Pem.Decoder): seq<Pem.Block>
    decreases |rest|
  {
    if |rest| == 0 then []
    else
      match decode(rest)
      case None => []
      case Some((b, next)) => [b] + Blocks(next, decode)
  }

  /** The first acceptable block of `bs`, if any. */
  function FirstAcceptable(bs: seq<Pem.Block>, checks: CsrChecks): Option<Pem.Block>
  {
    if bs == [] then None
    else if Acceptable(bs[0], checks) then Some(bs[0])
    else FirstAcceptable(bs[1..], checks)
  }

  /** The block ParseCSRFromString picks from `out`. */
  function FirstCsr(out: seq<byte>, decode: Pem.Decoder, checks: CsrChecks): Option<Pem.Block>
  {
    FirstAcceptable(Blocks(out, decode), checks)
  }

  /**
   * The search finds the first acceptable block: blocks before it, with the
   * wrong label or a request that does not parse or verify, are passed over,
   * and nothing is found only when no block is acceptable.
   */
  lemma {:induction false} FirstAcceptableIsFirst(bs: seq<Pem.Block>, checks: CsrChecks)
    ensures FirstAcceptable(bs, checks).None? <==> forall k :: 0 <= k < |bs| ==> !Acceptable(bs[k], checks)
    ensures FirstAcceptable(bs, checks).Some? ==>
              exists k :: 0 <= k < |bs| && bs[k] == FirstAcceptable(bs, checks).value && Acceptable(bs[k], checks) &&
                          forall j :: 0 <= j < k ==> !Acceptable(bs[j], checks)
  {
    if bs != [] && !Acceptable(bs[0], checks) {
      var tl := bs[1..];
      FirstAcceptableIsFirst(tl, checks);
      if FirstAcceptable(tl, checks).Some? {
        var k :| 0 <= k < |tl| && tl[k] == FirstAcceptable(tl, checks).value && Acceptable(tl[k], checks) &&
                 forall j :: 0 <= j < k ==> !Acceptable(tl[j], checks);
        assert bs[k + 1] == tl[k];
        forall j | 0 <= j < k + 1
          ensures !Acceptable(bs[j], checks)
        {
          if j > 0 {
            assert bs[j] == tl[j - 1];
          }
        }
      } else {
        forall k | 0 <= k < |bs|
          ensures !Acceptable(bs[k], checks)
        {
          if k > 0 {
            assert bs[k] == tl[k - 1];
          }
        }
      }
    }
  }

  /** The result of a command run over SSH. */
  class SessionReturn {
    var stdOut: seq<byte>
    var stdErr: seq<byte>
    var certCSR: seq<byte>

    constructor(out: seq<byte>, err: seq<byte>)
      ensures stdOut == out && stdErr == err && certCSR == []
    {
      stdOut := out;
      stdErr := err;
      certCSR := [];
    }

    /**
     * ParseCSRFromString: the PEM text of the first acceptable block, also
     * kept as CertCSR; None, with CertCSR as it was, when there is none.
     * The standard output is only read.
     */
    method ParseCSRFromString(decode: Pem.Decoder, checks: CsrChecks) returns (r: Option<seq<byte>>)
      modifies this
      ensures stdOut == old(stdOut) && stdErr == old(stdErr)
      ensures FirstCsr(stdOut, decode, checks).None? ==> r.None? && certCSR == old(certCSR)
      ensures FirstCsr(stdOut, decode, checks).Some? ==>
                r == Some(Pem.Encode(FirstCsr(stdOut, decode, checks).value)) && certCSR == r.value
    {
      var rest := stdOut;
      while |rest| > 0
        invariant FirstCsr(rest, decode, checks) == FirstCsr(stdOut, decode, checks)
        decreases |rest|
      {
        var d := decode(rest);
        if d.None? {
          break;
        }
        var (block, next) := d.value;
        rest := next;
        if block.kind !in CsrTypes {
          continue;
        }
        if !checks.parses(block.bytes) {
          continue;
        }
        if !checks.signatureValid(block.bytes) {
          continue;
        }
        var pemBytes := Pem.Encode(Pem.Block(block.kind, block.bytes));
        certCSR := pemBytes;
        return Some(certCSR);
      }
      return None;
    }
  }

  /**
   * The CSR text kept is a PEM block with the label of the accepted block
   * whose body decodes to that block's payload.
   */
  lemma CsrTextFramesBlock(out: seq<byte>, decode: Pem.Decoder, checks: CsrChecks)
    requires FirstCsr(out, decode, checks).Some?
    ensures var b := FirstCsr(out, decode, checks).value;
            b.kind in CsrTypes && checks.parses(b.bytes) && checks.signatureValid(b.bytes) &&
            b in Blocks(out, decode)
    ensures var b := FirstCsr(out, decode, checks).value;
            var r := Pem.Encode(b);
            var head := Ascii("-----BEGIN " + b.kind + "-----\n");
            var tail := Ascii("-----END " + b.kind + "-----\n");
            |r| >= |head| + |tail| && r[..|head|] == head && r[|r| - |tail|..] == tail &&
            Base64.Decode(r[|head|..|r| - |tail|]) == Ok(b.bytes)
  {
    FirstAcceptableIsFirst(Blocks(out, decode), checks);
    Pem.EncodeFrame(FirstCsr(out, decode, checks).value);
  }
}
