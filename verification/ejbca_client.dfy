/**
 * The EJBCA client entry points (ejbcaHttpsClient/ejbcaClient.go): the
 * connection test, the renewal check of a job, the enrolment with its
 * sanity checks, and the PEM encoding of an issued certificate.
 *
 * The HTTP round trip, the SOAP calls, the x509 and PEM library code and the
 * clock are parameters. Times are whole seconds; the renewal check compares
 * Go time.Duration values, in nanoseconds, with Go's int64 arithmetic.
 */
module EjbcaClient {
  import opened Wrappers
  import opened Bytes
  import Base64
  import Pem
  import GoInt
  import ParseHelper
  import FindCerts
  import Pkcs10
  import Session
  import ContextManager

  // ---------------------------------------------------------------------------
  // TestConnection
  // ---------------------------------------------------------------------------

  /** The outcome of the GET request: the status code, or the error of c.Do. */
  type HttpOutcome = Result<int, string>

  /** TestConnection: the CA answers, with a status code that is not below 200 and not above 299. */
  function TestConnection(resp: HttpOutcome): (ok: bool)
  {
    if resp.Err? then false
    else if resp.value > 299 || resp.value < 200 then false
    else true
  }

  /** The test passes exactly for the 2xx status codes. */
  lemma TestConnectionStatus(resp: HttpOutcome)
    ensures TestConnection(resp) <==> resp.Ok? && resp.value / 100 == 2
  {
  }

  // ---------------------------------------------------------------------------
  // CheckCertState
  // ---------------------------------------------------------------------------

  /** time.Second, in nanoseconds. */
  const NanosPerSecond: int := 1_000_000_000

  /** The largest window, in seconds, whose nanoseconds fit an int64. */
  const MaxWindowSeconds: nat := 9_223_372_036

  /** time.Duration(changeAfter) * time.Second: the uint64 is converted to int64 and multiplied, both with wrap-around. */
  function WindowNanos(changeAfter: nat): (w: int)
    ensures GoInt.IsInt64(w)
  {
    GoInt.Wrap64(GoInt.Wrap64(changeAfter) * NanosPerSecond)
  }

  /** t.Sub(u) for times in whole seconds: the difference in nanoseconds, saturated to the int64 range. */
  function SubNanos(t: int, u: int): (d: int)
    ensures GoInt.IsInt64(d)
  {
    GoInt.Saturate64((t - u) * NanosPerSecond)
  }

  /** NeedsRenew as CheckCertState calls it, on Durations. */
  function NeedsRenewNanos(now: int, best: ParseHelper.Certificate, windowNanos: int): bool
  {
    SubNanos(best.notAfter, now) <= windowNanos
  }

  /**
   * CheckCertState: look up all certificates of the job's end entity; renew
   * when the lookup fails, finds nothing or finds nothing valid now, and
   * otherwise when the best valid one expires within ChangeAfter seconds.
   */
  function CheckCertState(name: string, changeAfter: nat, now: int, call: FindCerts.FindCertsCall,
                          decode: ParseHelper.Base64Decoder, parse: ParseHelper.X509Parser): bool
  {
    match FindCerts.Found(name, false, call, decode, parse)
    case Err(_) => true
    case Ok(certs) =>
      if |certs| == 0 then true
      else
        var best := ParseHelper.Chosen(certs, ParseHelper.BestValid(certs, now));
        if best.None? then true
        else NeedsRenewNanos(now, best.value, WindowNanos(changeAfter))
  }

  /**
   * For a window of at most MaxWindowSeconds seconds the comparison in
   * nanoseconds, saturation included, decides as NeedsRenew does in seconds.
   */
  lemma WindowAgrees(now: int, c: ParseHelper.Certificate, changeAfter: nat)
    requires changeAfter <= MaxWindowSeconds
    ensures WindowNanos(changeAfter) == changeAfter * NanosPerSecond
    ensures NeedsRenewNanos(now, c, WindowNanos(changeAfter)) == ParseHelper.NeedsRenew(now, Some(c), changeAfter)
  {
  }

  /**
   * The renewal check: renewal is skipped only when the lookup succeeds and
   * some certificate found is valid now and lasts beyond the window; with a
   * window of at most MaxWindowSeconds this is a remaining lifetime of more
   * than ChangeAfter seconds.
   */
  lemma CheckCertStateDecision(name: string, changeAfter: nat, now: int, call: FindCerts.FindCertsCall,
                               decode: ParseHelper.Base64Decoder, parse: ParseHelper.X509Parser)
    ensures var found := FindCerts.Found(name, false, call, decode, parse);
            !CheckCertState(name, changeAfter, now, call, decode, parse) <==>
              found.Ok? && exists k :: 0 <= k < |found.value| && ParseHelper.ValidAt(found.value[k], now) &&
                                       !NeedsRenewNanos(now, found.value[k], WindowNanos(changeAfter))
    ensures var found := FindCerts.Found(name, false, call, decode, parse);
            changeAfter <= MaxWindowSeconds ==>
              (!CheckCertState(name, changeAfter, now, call, decode, parse) <==>
               found.Ok? && exists k :: 0 <= k < |found.value| && FindCerts.Lasting(found.value[k], now, changeAfter))
  {
    var found := FindCerts.Found(name, false, call, decode, parse);
    if found.Ok? {
      var cs := found.value;
      var w := WindowNanos(changeAfter);
      ParseHelper.BestValidIsBest(cs, now);
      var best := ParseHelper.BestValid(cs, now);
      if best.Some? {
        var b := best.value;
        forall k | 0 <= k < |cs| && ParseHelper.ValidAt(cs[k], now)
          ensures !NeedsRenewNanos(now, cs[k], w) ==> !NeedsRenewNanos(now, cs[b], w)
        {
          assert cs[k].notAfter <= cs[b].notAfter;
          assert (cs[k].notAfter - now) * NanosPerSecond <= (cs[b].notAfter - now) * NanosPerSecond;
        }
        if !NeedsRenewNanos(now, cs[b], w) {
          assert ParseHelper.ValidAt(cs[b], now);
        }
        if changeAfter <= MaxWindowSeconds {
          forall k | 0 <= k < |cs|
            ensures FindCerts.Lasting(cs[k], now, changeAfter) <==> ParseHelper.ValidAt(cs[k], now) && !NeedsRenewNanos(now, cs[k], w)
          {
            WindowAgrees(now, cs[k], changeAfter);
          }
        }
      }
    }
  }

  /**
   * A window of more than MaxWindowSeconds seconds wraps around: one second
   * more gives a negative Duration, and a certificate that is valid now is
   * then never renewed, however soon it expires.
   */
  lemma WindowWraps(now: int, c: ParseHelper.Certificate)
    requires ParseHelper.ValidAt(c, now)
    ensures WindowNanos(MaxWindowSeconds + 1) < 0
    ensures !NeedsRenewNanos(now, c, WindowNanos(MaxWindowSeconds + 1))
  {
  }

  /**
   * The evidently intended window: ChangeAfter seconds in exact nanoseconds,
   * saturated to the int64 range as time.Time.Sub saturates the remaining
   * lifetime. Up to MaxWindowSeconds it is the window as written.
   */
  function WindowNanosSaturated(changeAfter: nat): (w: int)
    ensures GoInt.IsInt64(w) && w >= 0
    ensures changeAfter <= MaxWindowSeconds ==> w == WindowNanos(changeAfter)
    ensures changeAfter > MaxWindowSeconds ==> w == GoInt.MaxInt64
  {
    GoInt.Saturate64(changeAfter * NanosPerSecond)
  }

  /** With the saturated window, every renewal NeedsRenew asks for in seconds is made, whatever ChangeAfter is. */
  lemma SaturatedWindowRenews(now: int, c: ParseHelper.Certificate, changeAfter: nat)
    requires ParseHelper.NeedsRenew(now, Some(c), changeAfter)
    ensures NeedsRenewNanos(now, c, WindowNanosSaturated(changeAfter))
  {
    var left := c.notAfter - now;
    assert left * NanosPerSecond <= changeAfter * NanosPerSecond by {
      assert left <= changeAfter;
    }
  }

  /** With the saturated window a longer ChangeAfter never turns a renewal off. */
  lemma SaturatedWindowMonotone(now: int, c: ParseHelper.Certificate, a1: nat, a2: nat)
    requires a1 <= a2 && NeedsRenewNanos(now, c, WindowNanosSaturated(a1))
    ensures NeedsRenewNanos(now, c, WindowNanosSaturated(a2))
  {
    assert a1 * NanosPerSecond <= a2 * NanosPerSecond;
  }

  // ---------------------------------------------------------------------------
  // EnrollOrRenewCert
  // ---------------------------------------------------------------------------

  /** The library calls the enrolment goes through. */
  datatype Services = Services(
    clientPresent: bool,
    call: Pkcs10.Pkcs10Call,
    pemDecode: Pem.Decoder,
    checks: Session.CsrChecks,
    decode: ParseHelper.Base64Decoder,
    parse: ParseHelper.X509Parser)

  /**
   * What EnrollOrRenewCert returns: the issued certificate, or None when the
   * PKCS#10 enrolment fails or the certificate is already expired at `now`.
   * `hostnameMatches` is the outcome of VerifyHostname, which only warns.
   */
  function Enrolled(name: string, password: string, csrPem: seq<byte>, svc: Services, now: int, hostnameMatches: bool)
    : Option<ParseHelper.Certificate>
  {
    var r := Pkcs10.Pkcs10RequestViaGowsdl(svc.clientPresent, Pkcs10.Pkcs10Params(name, password, csrPem),
                                           svc.call, svc.pemDecode, svc.checks, svc.decode, svc.parse);
    if r.Err? then None
    else if now > r.value.notAfter then None
    else Some(r.value)
  }

  /**
   * A certificate is returned exactly when the enrolment for the job's name
   * and password succeeds and the certificate has not expired: a NotAfter
   * equal to now is accepted. The hostname check changes nothing.
   */
  lemma EnrolledChecks(name: string, password: string, csrPem: seq<byte>, svc: Services, now: int, hostnameMatches: bool)
    ensures var r := Pkcs10.Pkcs10RequestViaGowsdl(svc.clientPresent, Pkcs10.Pkcs10Params(name, password, csrPem),
                                                   svc.call, svc.pemDecode, svc.checks, svc.decode, svc.parse);
            var e := Enrolled(name, password, csrPem, svc, now, hostnameMatches);
            (e.Some? <==> r.Ok? && now <= r.value.notAfter) &&
            (e.Some? ==> e.value == r.value) &&
            e == Enrolled(name, password, csrPem, svc, now, !hostnameMatches)
  {
  }

  /**
   * EnrollOrRenewCert: take the shared context, as GetContext does, and
   * enrol. The context only bounds the SOAP call in time. A failed
   * hostname verification is only logged.
   */
  method EnrollOrRenewCert(store: ContextManager.ContextStore, name: string, password: string, csrPem: seq<byte>,
                           svc: Services, now: int, hostnameMatches: bool)
    returns (cert: Option<ParseHelper.Certificate>)
    modifies store
    ensures store.State() == ContextManager.Acquire(old(store.State()), false, 0).0
    ensures cert == Enrolled(name, password, csrPem, svc, now, hostnameMatches)
  {
    var ctx := store.GetContext();
    var p := Pkcs10.Pkcs10Params(name, password, csrPem);
    var r := Pkcs10.Pkcs10RequestViaGowsdl(svc.clientPresent, p, svc.call, svc.pemDecode, svc.checks, svc.decode, svc.parse);
    if r.Err? {
      return None;
    }
    var c := r.value;
    if now > c.notAfter {
      return None;
    }
    return Some(c);
  }

  // ---------------------------------------------------------------------------
  // CertToPEM
  // ---------------------------------------------------------------------------

  /** bytes.Buffer: the bytes written so far. */
  class Buffer {
    var data: seq<byte>

    constructor()
      ensures data == []
    {
      data := [];
    }

    method Write(b: seq<byte>)
      modifies this
      ensures data == old(data) + b
    {
      data := data + b;
    }
  }

  /** The PEM label of a certificate (section 5.1 of RFC 7468). */
  const CertificateLabel := "CERTIFICATE"

  /** pem.Encode into a buffer: the BEGIN line, the base64 body in lines, the END line. */
  method PemEncode(buf: Buffer, b: Pem.Block)
    modifies buf
    ensures buf.data == old(buf.data) + Pem.Encode(b)
  {
    ghost var d0 := buf.data;
    var head := Ascii("-----BEGIN " + b.kind + "-----\n");
    var body := Pem.Lines(Base64.Encode(b.bytes));
    var tail := Ascii("-----END " + b.kind + "-----\n");
    buf.Write(head);
    buf.Write(body);
    buf.Write(tail);
    assert Pem.Encode(b) == head + body + tail;
    assert d0 + head + body + tail == d0 + (head + body + tail);
  }

  /**
   * CertToPEM: the certificate's DER bytes as one PEM block labelled
   * CERTIFICATE, written into a fresh buffer. Writing to a bytes.Buffer does
   * not fail, so no error is returned.
   */
  method CertToPEM(cert: ParseHelper.Certificate) returns (out: seq<byte>, err: Option<string>)
    ensures err.None?
    ensures out == Pem.Encode(Pem.Block(CertificateLabel, cert.raw))
  {
    var buf := new Buffer();
    PemEncode(buf, Pem.Block(CertificateLabel, cert.raw));
    return buf.data, None;
  }

  /**
   * The PEM text is one block labelled CERTIFICATE whose body decodes to the
   * certificate's DER bytes unchanged.
   */
  lemma CertToPEMFrame(cert: ParseHelper.Certificate, kind: string)
    requires kind == CertificateLabel
    ensures var r := Pem.Encode(Pem.Block(kind, cert.raw));
            var head := Ascii("-----BEGIN " + kind + "-----\n");
            var tail := Ascii("-----END " + kind + "-----\n");
            |r| >= |head| + |tail| && r[..|head|] == head && r[|r| - |tail|..] == tail &&
            Base64.Decode(r[|head|..|r| - |tail|]) == Ok(cert.raw)
  {
    Pem.EncodeFrame(Pem.Block(kind, cert.raw));
  }
}
