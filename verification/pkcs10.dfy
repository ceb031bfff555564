/**
 * Enrolment by PKCS#10 request against EJBCA
 * (ejbcaHttpsClient/ejbcaGetPkcs10Cert.go): the CSR text is checked and
 * turned into the base64 of its DER, the SOAP request is built with fixed
 * fields, and the certificate data of the response is decoded.
 *
 * pem.Decode, x509.ParseCertificateRequest with CheckSignature, the SOAP call
 * and x509.ParseCertificate are parameters. Whether an HTTP client was
 * passed is a boolean. The base64 text is kept as bytes; it is ASCII.
 */
module Pkcs10 {
  import opened Wrappers
  import opened Bytes
  import Base64
  import Pem
  import Session
  import EjbcaWs
  import ParseHelper

  /** Pkcs10Params: the end entity's username and password and the CSR as PEM. */
  datatype Pkcs10Params = Pkcs10Params(username: string, password: string, csrPem: seq<byte>)

  /** The errors of csrPEMToBase64DER. */
  datatype CsrError =
    | EmptyCsrPem          // "empty CSR PEM"
    | NoPemBlock           // "no PEM block found"
    | CsrUnparsable        // ParseCertificateRequest failed
    | CsrSignatureInvalid  // CheckSignature failed

  /**
   * csrPEMToBase64DER: trim the text, take the first PEM block whatever its
   * label, require a request that parses and whose self-signature holds, and
   * give the standard base64 of the block's payload.
   */
  function CsrPemToBase64Der(csrPem: seq<byte>, pemDecode: Pem.Decoder, checks: Session.CsrChecks): Result<seq<byte>, CsrError>
  {
    var t := TrimSpace(csrPem);
    if |t| == 0 then Err(EmptyCsrPem)
    else match pemDecode(t)
      case None => Err(NoPemBlock)
      case Some((block, _)) =>
        if !checks.parses(block.bytes) then Err(CsrUnparsable)
        else if !checks.signatureValid(block.bytes) then Err(CsrSignatureInvalid)
        else Ok(Base64.Encode(block.bytes))
  }

  /** The first PEM block of the trimmed CSR text, if any. */
  function FirstBlock(csrPem: seq<byte>, pemDecode: Pem.Decoder): Option<Pem.Block>
  {
    var t := TrimSpace(csrPem);
    if |t| > 0 && pemDecode(t).Some? then Some(pemDecode(t).value.0) else None
  }

  /**
   * The conversion fails with the first check that does not hold, in the
   * order: empty text, no block, request unparsable, signature invalid;
   * when all hold, its output decodes back to the first block's payload.
   */
  lemma CsrConversion(csrPem: seq<byte>, pemDecode: Pem.Decoder, checks: Session.CsrChecks)
    ensures var r := CsrPemToBase64Der(csrPem, pemDecode, checks);
            var b := FirstBlock(csrPem, pemDecode);
            (r == Err(EmptyCsrPem) <==> |TrimSpace(csrPem)| == 0) &&
            (r == Err(NoPemBlock) <==> |TrimSpace(csrPem)| > 0 && b.None?) &&
            (r == Err(CsrUnparsable) <==> b.Some? && !checks.parses(b.value.bytes)) &&
            (r == Err(CsrSignatureInvalid) <==> b.Some? && checks.parses(b.value.bytes) && !checks.signatureValid(b.value.bytes)) &&
            (r.Ok? <==> b.Some? && checks.parses(b.value.bytes) && checks.signatureValid(b.value.bytes))
    ensures var r := CsrPemToBase64Der(csrPem, pemDecode, checks);
            r.Ok? ==> Base64.Decode(r.value) == Ok(FirstBlock(csrPem, pemDecode).value.bytes)
  {
    var r := CsrPemToBase64Der(csrPem, pemDecode, checks);
    if r.Ok? {
      Base64.DecodeEncode(FirstBlock(csrPem, pemDecode).value.bytes);
    }
  }

  /** Only the first block is looked at, and its label is not: blocks with the same payload give the same outcome. */
  lemma LabelNotChecked(csrPem: seq<byte>, pem1: Pem.Decoder, pem2: Pem.Decoder, checks: Session.CsrChecks)
    requires FirstBlock(csrPem, pem1).Some? <==> FirstBlock(csrPem, pem2).Some?
    requires FirstBlock(csrPem, pem1).Some? ==> FirstBlock(csrPem, pem1).value.bytes == FirstBlock(csrPem, pem2).value.bytes
    ensures CsrPemToBase64Der(csrPem, pem1, checks) == CsrPemToBase64Der(csrPem, pem2, checks)
  {
  }

  /** Pkcs10Request of the EJBCA web service. */
  datatype Pkcs10Request = Pkcs10Request(xmlnsNs1: string, arg0: string, arg1: string, arg2: seq<byte>, arg3: string, arg4: string)

  /** CertificateResponse: the certificate data returned. */
  datatype CertificateResponse = CertificateResponse(data: seq<byte>)

  /** Pkcs10RequestResponse: its Return_, None for nil. */
  datatype Pkcs10Response = Pkcs10Response(return_: Option<CertificateResponse>)

  /** ws.Pkcs10RequestContext: the response (None for nil) or the error of the call. */
  type Pkcs10Call = Pkcs10Request -> Result<Option<Pkcs10Response>, string>

  /** The errors of Pkcs10RequestViaGowsdl, in the order they are checked. */
  datatype Pkcs10Error =
    | NilClient                                   // "http client is nil"
    | Csr(cause: CsrError)
    | EmptyCsrB64                                 // "csrB64 is empty"
    | Soap(msg: string)                           // "Pkcs10Request SOAP"
    | EmptyResponse                               // nil response or nil Return_
    | EmptyData                                   // "empty certificate response data"
    | CertData(certCause: ParseHelper.CertDataError)

  /** The request sent for the base64 CSR `csrB64`: PKCS#10 in, a certificate out, no hard token. */
  function RequestFor(p: Pkcs10Params, csrB64: seq<byte>): Pkcs10Request
  {
    Pkcs10Request(EjbcaWs.Namespace, p.username, p.password, csrB64, "", "CERTIFICATE")
  }

  /** Pkcs10RequestViaGowsdl. */
  function Pkcs10RequestViaGowsdl(clientPresent: bool, p: Pkcs10Params, call: Pkcs10Call,
                                  pemDecode: Pem.Decoder, checks: Session.CsrChecks,
                                  decode: ParseHelper.Base64Decoder, parse: ParseHelper.X509Parser)
    : Result<ParseHelper.Certificate, Pkcs10Error>
  {
    if !clientPresent then Err(NilClient)
    else match CsrPemToBase64Der(p.csrPem, pemDecode, checks)
      case Err(e) => Err(Csr(e))
      case Ok(csrB64) =>
        if csrB64 == [] then Err(EmptyCsrB64)
        else match call(RequestFor(p, csrB64))
          case Err(e) => Err(Soap(e))
          case Ok(resp) =>
            if resp.None? || resp.value.return_.None? then Err(EmptyResponse)
            else
              var data := resp.value.return_.value.data;
              if |data| == 0 then Err(EmptyData)
              else match ParseHelper.CertData(data, decode, parse)
                case Err(e) => Err(CertData(e))
                case Ok(c) => Ok(c)
  }

  /**
   * Nothing is sent unless a client is present and the CSR is acceptable:
   * up to the call, the outcome does not depend on the SOAP service.
   */
  lemma ChecksBeforeCall(clientPresent: bool, p: Pkcs10Params, call1: Pkcs10Call, call2: Pkcs10Call,
                         pemDecode: Pem.Decoder, checks: Session.CsrChecks,
                         decode: ParseHelper.Base64Decoder, parse: ParseHelper.X509Parser)
    requires !clientPresent || CsrPemToBase64Der(p.csrPem, pemDecode, checks).Err? ||
             CsrPemToBase64Der(p.csrPem, pemDecode, checks) == Ok([])
    ensures var r := Pkcs10RequestViaGowsdl(clientPresent, p, call1, pemDecode, checks, decode, parse);
            r == Pkcs10RequestViaGowsdl(clientPresent, p, call2, pemDecode, checks, decode, parse) &&
            r.Err? && !(r.error.Soap? || r.error.EmptyResponse? || r.error.EmptyData? || r.error.CertData?)
    ensures !clientPresent ==> Pkcs10RequestViaGowsdl(clientPresent, p, call1, pemDecode, checks, decode, parse) == Err(NilClient)
  {
  }

  /**
   * A certificate is returned only when the request went out with the fixed
   * fields and the base64 of the CSR's payload, and the response carried
   * non-empty certificate data that parseEJBCAcertData accepted; the
   * certificate is what that gives.
   */
  lemma IssuedFromRequest(clientPresent: bool, p: Pkcs10Params, call: Pkcs10Call,
                          pemDecode: Pem.Decoder, checks: Session.CsrChecks,
                          decode: ParseHelper.Base64Decoder, parse: ParseHelper.X509Parser)
    requires Pkcs10RequestViaGowsdl(clientPresent, p, call, pemDecode, checks, decode, parse).Ok?
    ensures clientPresent
    ensures var block := FirstBlock(p.csrPem, pemDecode);
            block.Some? && checks.parses(block.value.bytes) && checks.signatureValid(block.value.bytes) &&
            var req := RequestFor(p, Base64.Encode(block.value.bytes));
            req.xmlnsNs1 == "http://ws.protocol.core.ejbca.org/" && req.arg0 == p.username && req.arg1 == p.password &&
            Base64.Decode(req.arg2) == Ok(block.value.bytes) && req.arg3 == "" && req.arg4 == "CERTIFICATE" &&
            call(req).Ok? && call(req).value.Some? && call(req).value.value.return_.Some? &&
            var data := call(req).value.value.return_.value.data;
            |data| > 0 &&
            ParseHelper.CertData(data, decode, parse) == Ok(Pkcs10RequestViaGowsdl(clientPresent, p, call, pemDecode, checks, decode, parse).value)
  {
    CsrConversion(p.csrPem, pemDecode, checks);
  }
}
