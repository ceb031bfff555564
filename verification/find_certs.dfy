/**
 * Looking up the certificates EJBCA holds for an end entity and deciding
 * from them whether to renew (ejbcaHttpsClient/ejbcaGowsdlFindCerts.go).
 *
 * The findCerts SOAP call is a parameter: it maps the request to the
 * `return` items of the response, a nil item being None, or to the
 * transport error. x509.ParseCertificate and the base64 decoder are
 * parameters too, as in ParseHelper.
 */
module FindCerts {
  import opened Wrappers
  import opened Bytes
  import Base64
  import EjbcaWs
  import ParseHelper

  /** The two ways the lookup fails: the SOAP call, or an item whose data gives no certificate ("x509 parse"). */
  datatype FindError = Soap(msg: string) | X509Parse(cause: ParseHelper.CertDataError)

  /** ws.FindCertsContext: the items of the response, or the error of the call. */
  type FindCertsCall = EjbcaWs.FindCerts -> Result<seq<Option<EjbcaWs.Certificate>>, string>

  /** An item that is not nil and has certificate data; all others are skipped. */
  predicate Carries(item: Option<EjbcaWs.Certificate>)
  {
    item.Some? && |item.value.certificateData| > 0
  }

  /** The certificate data of the items that carry some, in response order. */
  function Carrying(items: seq<Option<EjbcaWs.Certificate>>): (ds: seq<seq<byte>>)
    decreases |items|
  {
    if items == [] then []
    else
      var last := items[|items| - 1];
      Carrying(items[..|items| - 1]) + (if Carries(last) then [last.value.certificateData] else [])
  }

  /** What parseEJBCAcertData makes of one entry. */
  type EntryDecoder = seq<byte> -> Result<ParseHelper.Certificate, ParseHelper.CertDataError>

  /** parseEJBCAcertData with the given base64 decoder and x509 parser. */
  function CertDataWith(decode: ParseHelper.Base64Decoder, parse: ParseHelper.X509Parser): EntryDecoder
  {
    d => ParseHelper.CertData(d, decode, parse)
  }

  /** The certificates of `ds`, one per entry in order, or the error of the first entry that gives none. */
  function Collect(ds: seq<seq<byte>>, cert: EntryDecoder): Result<seq<ParseHelper.Certificate>, ParseHelper.CertDataError>
    decreases |ds|
  {
    if ds == [] then Ok([])
    else
      var init := Collect(ds[..|ds| - 1], cert);
      if init.Err? then init
      else
        var c := cert(ds[|ds| - 1]);
        if c.Err? then Err(c.error) else Ok(init.value + [c.value])
  }

  /** What FindCertsViaGowsdl returns for the end entity `name`. */
  function Found(name: string, onlyValid: bool, call: FindCertsCall,
                 decode: ParseHelper.Base64Decoder, parse: ParseHelper.X509Parser)
    : Result<seq<ParseHelper.Certificate>, FindError>
  {
    match call(EjbcaWs.FindCerts(name, onlyValid))
    case Err(e) => Err(Soap(e))
    case Ok(items) =>
      match Collect(Carrying(items), CertDataWith(decode, parse))
      case Err(c) => Err(X509Parse(c))
      case Ok(cs) => Ok(cs)
  }

  /** The item filter works item by item: a nil item and an item without data are dropped. */
  lemma {:induction false} CarryingAppend(a: seq<Option<EjbcaWs.Certificate>>, b: seq<Option<EjbcaWs.Certificate>>)
    ensures Carrying(a + b) == Carrying(a) + Carrying(b)
    ensures Carrying([None]) == [] && Carrying([Some(EjbcaWs.Certificate([]))]) == []
    decreases |b|
  {
    var nil: seq<Option<EjbcaWs.Certificate>> := [None];
    var noData: seq<Option<EjbcaWs.Certificate>> := [Some(EjbcaWs.Certificate([]))];
    assert nil[..0] == [] && noData[..0] == [];
    if b == [] {
      assert a + b == a;
    } else {
      var b' := b[..|b| - 1];
      CarryingAppend(a, b');
      assert (a + b)[..|a + b| - 1] == a + b';
      assert (a + b)[|a + b| - 1] == b[|b| - 1];
    }
  }

  /** Every entry kept is the data of an item, and none is empty. */
  lemma {:induction false} CarryingNonEmpty(items: seq<Option<EjbcaWs.Certificate>>)
    ensures |Carrying(items)| <= |items|
    ensures forall k :: 0 <= k < |Carrying(items)| ==> |Carrying(items)[k]| > 0
    decreases |items|
  {
    if items != [] {
      CarryingNonEmpty(items[..|items| - 1]);
    }
  }

  /** When every item carries data, every item is kept. */
  lemma {:induction false} CarryingAll(items: seq<Option<EjbcaWs.Certificate>>)
    requires forall k :: 0 <= k < |items| ==> Carries(items[k])
    ensures |Carrying(items)| == |items|
    ensures forall k :: 0 <= k < |items| ==> items[k].Some? && Carrying(items)[k] == items[k].value.certificateData
    decreases |items|
  {
    if items != [] {
      var init := items[..|items| - 1];
      assert forall k :: 0 <= k < |init| ==> init[k] == items[k];
      CarryingAll(init);
    }
  }

  /** One more entry: it fails the lookup unless an earlier one has, or adds its certificate. */
  lemma CollectSnoc(ds: seq<seq<byte>>, d: seq<byte>, cert: EntryDecoder)
    ensures Collect(ds + [d], cert) ==
              if Collect(ds, cert).Err? then Collect(ds, cert)
              else if cert(d).Err? then Err(cert(d).error)
              else Ok(Collect(ds, cert).value + [cert(d).value])
  {
    assert (ds + [d])[..|ds + [d]| - 1] == ds;
  }

  /** Once an entry has failed, later entries change nothing: the first error is the one reported. */
  lemma {:induction false} CollectErrStays(a: seq<seq<byte>>, b: seq<seq<byte>>,
                                          cert: EntryDecoder)
    requires Collect(a, cert).Err?
    ensures Collect(a + b, cert) == Collect(a, cert)
    decreases |b|
  {
    if b == [] {
      assert a + b == a;
    } else {
      var b' := b[..|b| - 1];
      CollectErrStays(a, b', cert);
      assert (a + b)[..|a + b| - 1] == a + b';
    }
  }

  /**
   * The lookup succeeds exactly when every entry gives a certificate, and
   * then holds the certificate of each entry at the entry's position.
   */
  lemma {:induction false} CollectOk(ds: seq<seq<byte>>, cert: EntryDecoder)
    ensures Collect(ds, cert).Ok? <==> forall k :: 0 <= k < |ds| ==> cert(ds[k]).Ok?
    ensures Collect(ds, cert).Ok? ==>
              var cs := Collect(ds, cert).value;
              |cs| == |ds| && forall k :: 0 <= k < |ds| ==> cs[k] == cert(ds[k]).value
    decreases |ds|
  {
    if ds != [] {
      var init := ds[..|ds| - 1];
      CollectOk(init, cert);
      assert forall k :: 0 <= k < |init| ==> init[k] == ds[k];
    }
  }

  /**
   * A failed lookup reports the error of the first entry that gives no
   * certificate; all entries before it give one.
   */
  lemma {:induction false} CollectErr(ds: seq<seq<byte>>, cert: EntryDecoder)
    requires Collect(ds, cert).Err?
    ensures exists k :: 0 <= k < |ds| && cert(ds[k]) == Err(Collect(ds, cert).error) &&
                        forall j :: 0 <= j < k ==> cert(ds[j]).Ok?
    decreases |ds|
  {
    var init := ds[..|ds| - 1];
    var last := |ds| - 1;
    assert forall k :: 0 <= k < |init| ==> init[k] == ds[k];
    if Collect(init, cert).Err? {
      CollectErr(init, cert);
      var k :| 0 <= k < |init| && cert(init[k]) == Err(Collect(init, cert).error) &&
               forall j :: 0 <= j < k ==> cert(init[j]).Ok?;
      assert cert(ds[k]) == Err(Collect(ds, cert).error);
    } else {
      CollectOk(init, cert);
      assert cert(ds[last]) == Err(Collect(ds, cert).error);
    }
  }

  /**
   * FindCertsViaGowsdl: ask for the certificates of `name`, then decode the
   * data of every item that carries some; the first item that gives no
   * certificate fails the whole lookup.
   */
  method FindCertsViaGowsdl(name: string, onlyValid: bool, call: FindCertsCall,
                            decode: ParseHelper.Base64Decoder, parse: ParseHelper.X509Parser)
    returns (r: Result<seq<ParseHelper.Certificate>, FindError>)
    ensures r == Found(name, onlyValid, call, decode, parse)
  {
    var resp := call(EjbcaWs.FindCerts(name, onlyValid));
    if resp.Err? {
      return Err(Soap(resp.error));
    }
    var items := resp.value;
    ghost var cert := CertDataWith(decode, parse);
    var out: seq<ParseHelper.Certificate> := [];
    for i := 0 to |items|
      invariant Collect(Carrying(items[..i]), cert) == Ok(out)
    {
      var item := items[i];
      ghost var done := Carrying(items[..i]);
      assert items[..i + 1] == items[..i] + [item];
      CarryingAppend(items[..i], [item]);
      assert [item][..0] == [];
      if item.None? || |item.value.certificateData| == 0 {
        assert Carrying([item]) == [];
        assert Carrying(items[..i + 1]) == done + [] == done;
        continue;
      }
      var data := item.value.certificateData;
      var c := ParseHelper.ParseEJBCACertData(data, decode, parse);
      assert c == cert(data);
      assert Carrying(items[..i + 1]) == done + [data];
      CollectSnoc(done, data, cert);
      if c.Err? {
        assert items == items[..i + 1] + items[i + 1..];
        CarryingAppend(items[..i + 1], items[i + 1..]);
        CollectErrStays(done + [data], Carrying(items[i + 1..]), cert);
        return Err(X509Parse(c.error));
      }
      assert Collect(Carrying(items[..i + 1]), cert) == Ok(out + [c.value]);
      out := out + [c.value];
    }
    assert items[..|items|] == items;
    return Ok(out);
  }

  // ---------------------------------------------------------------------------
  // decodeEjbcaCertDataToX509
  // ---------------------------------------------------------------------------

  /** The errors of decodeEjbcaCertDataToX509: "base64 decode", or "x509 parse" with the cause. */
  datatype DecodeError = Base64Failed | X509Failed(cause: ParseHelper.CertDataError)

  /** decodeEjbcaCertDataToX509: clean the text up, decode it once, and hand the bytes to parseEJBCAcertData. */
  function DecodeCertDataToX509(certData: seq<byte>, decode: ParseHelper.Base64Decoder, parse: ParseHelper.X509Parser)
    : Result<ParseHelper.Certificate, DecodeError>
  {
    match decode(StripForBase64(certData))
    case Err(_) => Err(Base64Failed)
    case Ok(der) =>
      match ParseHelper.CertData(der, decode, parse)
      case Err(e) => Err(X509Failed(e))
      case Ok(c) => Ok(c)
  }

  /**
   * The base64 of DER gives its certificate, and so do the second and the
   * third base64 of it, since the one decoding here comes before the up to
   * two rounds of parseEJBCAcertData.
   */
  lemma DecodeCertDataRoundTrip(d: seq<byte>, decode: ParseHelper.Base64Decoder, parse: ParseHelper.X509Parser)
    requires ParseHelper.InvertsEncode(decode)
    requires ParseHelper.StartsAsDer(d) && !IsAsciiSpace(d[|d| - 1]) && parse(d).Some?
    ensures DecodeCertDataToX509(Base64.Encode(d), decode, parse) == Ok(parse(d).value)
    ensures DecodeCertDataToX509(Base64.Encode(Base64.Encode(d)), decode, parse) == Ok(parse(d).value)
    ensures DecodeCertDataToX509(Base64.Encode(Base64.Encode(Base64.Encode(d))), decode, parse) == Ok(parse(d).value)
  {
    var e1 := Base64.Encode(d);
    var e2 := Base64.Encode(e1);
    ParseHelper.RoundOfEncoding(d, decode);
    ParseHelper.RoundOfEncoding(e1, decode);
    ParseHelper.RoundOfEncoding(e2, decode);
    ParseHelper.CertDataRoundTrip(d, decode, parse);
  }

  /** Text that does not decode as base64 is reported as such, before any parsing. */
  lemma DecodeCertDataNeedsBase64(certData: seq<byte>, decode: ParseHelper.Base64Decoder, parse: ParseHelper.X509Parser)
    ensures DecodeCertDataToX509(certData, decode, parse) == Err(Base64Failed) <==> decode(StripForBase64(certData)).Err?
    ensures DecodeCertDataToX509(certData, decode, parse).Ok? ==>
              ParseHelper.CertData(decode(StripForBase64(certData)).value, decode, parse) ==
              Ok(DecodeCertDataToX509(certData, decode, parse).value)
  {
  }

  // ---------------------------------------------------------------------------
  // ShouldRenewViaGowsdl
  // ---------------------------------------------------------------------------

  /** The fixed renewal window of ShouldRenewViaGowsdl: 14 days, in seconds. */
  const RenewWindow: int := 14 * 24 * 3600

  /**
   * ShouldRenewViaGowsdl: look up all certificates of `name` (valid or not),
   * and renew when there is none, none is valid at `now`, or the best valid
   * one expires within the window. A failed lookup gives (false, error).
   */
  function ShouldRenewViaGowsdl(name: string, now: int, call: FindCertsCall,
                                decode: ParseHelper.Base64Decoder, parse: ParseHelper.X509Parser)
    : (bool, Option<FindError>)
  {
    match Found(name, false, call, decode, parse)
    case Err(e) => (false, Some(e))
    case Ok(certs) =>
      if |certs| == 0 then (true, None)
      else
        var best := ParseHelper.BestValid(certs, now);
        if best.None? then (true, None)
        else (ParseHelper.NeedsRenew(now, ParseHelper.Chosen(certs, best), RenewWindow), None)
  }

  /** A certificate that stays valid beyond the window. */
  predicate Lasting(c: ParseHelper.Certificate, now: int, window: int)
  {
    ParseHelper.ValidAt(c, now) && c.notAfter - now > window
  }

  /**
   * The decision: an error exactly when the lookup fails, and then no
   * renewal; otherwise no renewal exactly when some certificate found is
   * valid now and expires more than 14 days from now.
   */
  lemma ShouldRenewDecision(name: string, now: int, call: FindCertsCall,
                            decode: ParseHelper.Base64Decoder, parse: ParseHelper.X509Parser)
    ensures var (renew, err) := ShouldRenewViaGowsdl(name, now, call, decode, parse);
            var found := Found(name, false, call, decode, parse);
            (err.Some? <==> found.Err?) &&
            (err.Some? ==> !renew && err.value == found.error) &&
            (err.None? ==> (!renew <==> exists k :: 0 <= k < |found.value| && Lasting(found.value[k], now, RenewWindow)))
  {
    var found := Found(name, false, call, decode, parse);
    if found.Ok? {
      var cs := found.value;
      ParseHelper.BestValidIsBest(cs, now);
      var best := ParseHelper.BestValid(cs, now);
      if best.Some? {
        var b := best.value;
        if cs[b].notAfter - now > RenewWindow {
          assert Lasting(cs[b], now, RenewWindow);
        }
      }
    }
  }
}
