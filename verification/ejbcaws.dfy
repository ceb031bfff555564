/**
 * The hand-written XML (un)marshalling of the EJBCA findCerts operation
 * (ejbcaws/unmarshal_fix_findcerts_response.go and ejbcaws/marshal_fix.go).
 *
 * encoding/xml is library code. Its decoder enters the model as a stream of
 * `Event`s: a start element event already carries what decoding (for a
 * `return` element) or skipping (for any other element) its content gives,
 * and the end of the stream is io.EOF. Its encoder enters the model as a
 * record of the items written, with a `fault` function saying which
 * operation, counted from the first, fails and with what error.
 */
module EjbcaWs {
  import opened Wrappers
  import opened Bytes

  /** The namespace of the EJBCA web service. */
  const Namespace := "http://ws.protocol.core.ejbca.org/"

  /** xml.Name */
  datatype Name = Name(space: string, local: string)

  /** A decoder error other than io.EOF. */
  type XmlError = string

  /** One certificate of a findCerts response: its certificateData text, as bytes. */
  datatype Certificate = Certificate(certificateData: seq<byte>)

  /** The findCerts request: the end-entity name and whether only valid certificates are wanted. */
  datatype FindCerts = FindCerts(arg0: string, arg1: bool)

  // ---------------------------------------------------------------------
  // UnmarshalXML of FindCertsResponse

  /** What Decoder.Token returns next. */
  datatype Event =
    | Start(name: Name, content: Result<seq<byte>, XmlError>)  // content: certificateData of a `return` element, or the outcome of Skip
    | End(name: Name)
    | Other                                                    // character data, comments and the like
    | Fail(err: XmlError)

  /** The outcome of decoding: the certificates, the error returned, and the number of events read. */
  datatype Scan = Scan(items: seq<Certificate>, err: Option<XmlError>, used: nat)

  /** The certificate an event that does not end decoding contributes. */
  function Found(e: Event): seq<Certificate>
  {
    if e.Start? && e.name.local == "return" && e.content.Ok? then [Certificate(e.content.value)] else []
  }

  /** One event read: what it makes of the decoding `rest` of the events after it. */
  function Step(e: Event, rest: Scan, start: Name): Scan
  {
    match e
    case Fail(err) => Scan([], Some(err), 1)
    case Start(_, content) =>
      if content.Err? then Scan([], Some(content.error), 1)
      else Scan(Found(e) + rest.items, rest.err, rest.used + 1)
    case End(n) => if n == start then Scan([], None, 1) else Scan(rest.items, rest.err, rest.used + 1)
    case Other => Scan(rest.items, rest.err, rest.used + 1)
  }

  /** The decoding of the events from position `p` on, inside the element named `start`. */
  function Decode(evs: seq<Event>, p: nat, start: Name): (r: Scan)
    requires p <= |evs|
    ensures p + r.used <= |evs|
    decreases |evs| - p
  {
    if p == |evs| then Scan([], None, 0)
    else Step(evs[p], Decode(evs, p + 1, start), start)
  }

  /** The certificates of the `return` elements among the events from `p` to `q`, in document order. */
  function ReturnData(evs: seq<Event>, p: nat, q: nat): seq<Certificate>
    requires p <= q <= |evs|
    decreases q - p
  {
    if p == q then [] else Found(evs[p]) + ReturnData(evs, p + 1, q)
  }

  /** The certificates decoded are those of the `return` elements read, in order. */
  lemma {:induction false} DecodeReadsReturns(evs: seq<Event>, p: nat, start: Name)
    requires p <= |evs|
    ensures var r := Decode(evs, p, start);
            r.items == ReturnData(evs, p, p + r.used)
    decreases |evs| - p
  {
    if p < |evs| {
      var e := evs[p];
      var rest := Decode(evs, p + 1, start);
      if e.Fail? || (e.Start? && e.content.Err?) || e == End(start) {
        assert Decode(evs, p, start) == Scan([], Decode(evs, p, start).err, 1);
        assert ReturnData(evs, p, p + 1) == Found(e) + ReturnData(evs, p + 1, p + 1);
      } else {
        DecodeReadsReturns(evs, p + 1, start);
        assert Decode(evs, p, start) == Scan(Found(e) + rest.items, rest.err, rest.used + 1);
        assert ReturnData(evs, p, p + 1 + rest.used) == Found(e) + ReturnData(evs, p + 1, p + 1 + rest.used);
      }
    }
  }

  /**
   * An error comes from the last event read, which is a failed token or an
   * element whose content could not be decoded or skipped.
   */
  lemma {:induction false} DecodeErrorSource(evs: seq<Event>, p: nat, start: Name)
    requires p <= |evs|
    ensures var r := Decode(evs, p, start);
            r.err.Some? ==>
              (r.used > 0 &&
               (evs[p + r.used - 1] == Fail(r.err.value) ||
                (evs[p + r.used - 1].Start? && evs[p + r.used - 1].content == Err(r.err.value))))
    decreases |evs| - p
  {
    if p < |evs| {
      var e := evs[p];
      if !(e.Fail? || (e.Start? && e.content.Err?) || e == End(start)) {
        DecodeErrorSource(evs, p + 1, start);
      }
    }
  }

  /** Decoding that ends without an error before the end of the stream ends at the end element of `start`. */
  lemma {:induction false} DecodeStopsAtEnd(evs: seq<Event>, p: nat, start: Name)
    requires p <= |evs|
    ensures var r := Decode(evs, p, start);
            r.err.None? && p + r.used < |evs| ==> r.used > 0 && evs[p + r.used - 1] == End(start)
    decreases |evs| - p
  {
    if p < |evs| {
      DecodeStopsAtEnd(evs, p + 1, start);
    }
  }

  /** The end of the stream without a closing element is a successful end. */
  lemma {:induction false} EofEndsDecoding(evs: seq<Event>, p: nat, start: Name)
    requires p <= |evs|
    requires forall k :: p <= k < |evs| ==> !evs[k].Fail? && !(evs[k].Start? && evs[k].content.Err?) && evs[k] != End(start)
    ensures Decode(evs, p, start) == Scan(ReturnData(evs, p, |evs|), None, |evs| - p)
    decreases |evs| - p
  {
    if p < |evs| {
      EofEndsDecoding(evs, p + 1, start);
    }
  }

  /** An event that ends decoding: a failed token, content that could not be read, or the end of `start`. */
  predicate Stops(e: Event, start: Name)
  {
    e.Fail? || (e.Start? && e.content.Err?) || e == End(start)
  }

  /** What decoding returns when it ends at `e`. */
  function StopErr(e: Event): Option<XmlError>
  {
    if e.Fail? then Some(e.err)
    else if e.Start? && e.content.Err? then Some(e.content.error)
    else None
  }

  /** The decoding from `p0`, seen at `p` with `done` already collected. */
  ghost predicate DecodedSoFar(evs: seq<Event>, p0: nat, p: nat, done: seq<Certificate>, start: Name)
    requires p0 <= p <= |evs|
  {
    var rest := Decode(evs, p, start);
    Decode(evs, p0, start) == Scan(done + rest.items, rest.err, p - p0 + rest.used)
  }

  /** Reading an event that does not end decoding adds what it carries and goes on. */
  lemma ReadOn(evs: seq<Event>, p0: nat, p: nat, done: seq<Certificate>, start: Name)
    requires p0 <= p < |evs| && DecodedSoFar(evs, p0, p, done, start) && !Stops(evs[p], start)
    ensures DecodedSoFar(evs, p0, p + 1, done + Found(evs[p]), start)
  {
    var later := Decode(evs, p + 1, start).items;
    assert (done + Found(evs[p])) + later == done + (Found(evs[p]) + later);
  }

  /** Reading an event that ends decoding gives what was collected and that event's error. */
  lemma ReadLast(evs: seq<Event>, p0: nat, p: nat, done: seq<Certificate>, start: Name)
    requires p0 <= p < |evs| && DecodedSoFar(evs, p0, p, done, start) && Stops(evs[p], start)
    ensures Decode(evs, p0, start) == Scan(done, StopErr(evs[p]), p + 1 - p0)
  {
    assert done + [] == done;
  }

  /** The decoding state of the token stream: its events and the position of the next one. */
  class Decoder {
    var events: seq<Event>
    var pos: nat

    constructor(evs: seq<Event>)
      ensures events == evs && pos == 0
    {
      events := evs;
      pos := 0;
    }

    /** Decoder.Token: the next event, or None at io.EOF. */
    method Token() returns (e: Option<Event>)
      modifies this
      ensures events == old(events)
      ensures old(pos) < |events| ==> e == Some(events[old(pos)]) && pos == old(pos) + 1
      ensures old(pos) >= |events| ==> e.None? && pos == old(pos)
    {
      if pos < |events| {
        e := Some(events[pos]);
        pos := pos + 1;
      } else {
        e := None;
      }
    }
  }

  /** FindCertsResponse */
  class FindCertsResponse {
    var xmlName: Name
    var return_: seq<Certificate>

    constructor()
      ensures xmlName == Name("", "") && return_ == []
    {
      xmlName := Name("", "");
      return_ := [];
    }

    /**
     * UnmarshalXML: the list is cleared, then filled from the element's
     * events up to its end element, io.EOF or the first error. On an error
     * the certificates read before it stay in the list.
     */
    method UnmarshalXML(d: Decoder, start: Name) returns (err: Option<XmlError>)
      requires d != this as object
      requires d.pos <= |d.events|
      modifies this, d
      ensures d.events == old(d.events)
      ensures var r := Decode(old(d.events), old(d.pos), start);
              xmlName == start && return_ == r.items && err == r.err && d.pos == old(d.pos) + r.used
    {
      xmlName := start;
      return_ := [];
      ghost var all := d.events;
      ghost var p0 := d.pos;
      while true
        invariant d.events == all && xmlName == start
        invariant p0 <= d.pos <= |all|
        invariant DecodedSoFar(all, p0, d.pos, return_, start)
        decreases |all| - d.pos
      {
        ghost var p := d.pos;
        var tok := d.Token();
        if tok.None? {
          assert return_ + [] == return_;
          return None;
        }
        match tok.value
        case Fail(e) =>
          ReadLast(all, p0, p, return_, start);
          return Some(e);
        case Start(n, content) =>
          if n.local == "return" {
            if content.Err? {
              ReadLast(all, p0, p, return_, start);
              return Some(content.error);
            }
            ReadOn(all, p0, p, return_, start);
            return_ := return_ + [Certificate(content.value)];
          } else {
            if content.Err? {
              ReadLast(all, p0, p, return_, start);
              return Some(content.error);
            }
            ReadOn(all, p0, p, return_, start);
            assert return_ + [] == return_;
          }
        case End(n) =>
          if n == start {
            ReadLast(all, p0, p, return_, start);
            return None;
          }
          ReadOn(all, p0, p, return_, start);
          assert return_ + [] == return_;
        case Other =>
          ReadOn(all, p0, p, return_, start);
          assert return_ + [] == return_;
      }
    }
  }

  // ---------------------------------------------------------------------
  // MarshalXML of FindCerts

  datatype Attr = Attr(name: string, value: string)

  /** What the encoder is asked to write. */
  datatype Item =
    | StartTag(name: string, attrs: seq<Attr>)
    | Element(name: string, text: string)
    | EndTag(name: string)
    | Flush

  /** The text encoding/xml gives a bool. */
  function BoolText(b: bool): string
  {
    if b then "true" else "false"
  }

  /** The operations MarshalXML performs, in order. */
  function FindCertsItems(t: FindCerts): seq<Item>
  {
    [StartTag("tns:findCerts", [Attr("xmlns:tns", Namespace)]),
     Element("arg1", BoolText(t.arg1)),
     Element("arg0", t.arg0),
     EndTag("tns:findCerts"),
     Flush]
  }

  /** None of the `k` operations numbered from `n` on fails. */
  predicate Clear(fault: nat -> Option<string>, n: nat, k: nat)
    decreases k
  {
    k == 0 || (fault(n).None? && Clear(fault, n + 1, k - 1))
  }

  /** Each operation of a clear run succeeds. */
  lemma {:induction false} ClearAt(fault: nat -> Option<string>, n: nat, k: nat, j: nat)
    requires Clear(fault, n, k) && j < k
    ensures fault(n + j).None?
    decreases k
  {
    if j > 0 {
      ClearAt(fault, n + 1, k - 1, j - 1);
    }
  }

  /**
   * Operation number `n + k` is the first of `items`, started at number `n`,
   * that fails, or `k` is the number of items when none fails.
   */
  predicate StopsAt(items: seq<Item>, fault: nat -> Option<string>, n: nat, k: nat)
  {
    k <= |items| && Clear(fault, n, k) && (k < |items| ==> fault(n + k).Some?)
  }

  /** The encoder: the items written so far; `fault(k)` is the error of operation number k, if it fails. */
  class Encoder {
    var written: seq<Item>
    const fault: nat -> Option<string>

    constructor(fault: nat -> Option<string>)
      ensures written == [] && this.fault == fault
    {
      written := [];
      this.fault := fault;
    }

    /** EncodeToken, EncodeElement or Flush: write one item, or report the fault of this operation. */
    method Put(it: Item) returns (err: Option<string>)
      modifies this
      ensures err == fault(|old(written)|)
      ensures written == if err.None? then old(written) + [it] else old(written)
    {
      err := fault(|written|);
      if err.None? {
        written := written + [it];
      }
    }
  }

  /**
   * MarshalXML: the wrapper tns:findCerts with its namespace attribute, arg1
   * before arg0, the end tag and a flush. The start element passed in is not
   * used. The first failing operation ends the call with its error.
   */
  method MarshalXML(t: FindCerts, enc: Encoder, start: Name) returns (err: Option<string>, ghost k: nat)
    modifies enc
    ensures StopsAt(FindCertsItems(t), enc.fault, |old(enc.written)|, k)
    ensures enc.written == old(enc.written) + FindCertsItems(t)[..k]
    ensures err == if k < 5 then enc.fault(|old(enc.written)| + k) else None
  {
    ghost var w0 := enc.written;
    ghost var items := FindCertsItems(t);
    k := 0;
    err := enc.Put(StartTag("tns:findCerts", [Attr("xmlns:tns", Namespace)]));
    if err.Some? {
      return;
    }
    assert enc.written == w0 + items[..1];
    k := 1;
    err := enc.Put(Element("arg1", BoolText(t.arg1)));
    if err.Some? {
      return;
    }
    assert enc.written == w0 + items[..2];
    k := 2;
    err := enc.Put(Element("arg0", t.arg0));
    if err.Some? {
      return;
    }
    assert enc.written == w0 + items[..3];
    k := 3;
    err := enc.Put(EndTag("tns:findCerts"));
    if err.Some? {
      return;
    }
    assert enc.written == w0 + items[..4];
    k := 4;
    err := enc.Put(Flush);
    if err.Some? {
      return;
    }
    assert enc.written == w0 + items;
    k := 5;
  }

  /**
   * The outcome of a marshalling is determined: the stopping point is unique,
   * and with no failing operation it is the whole request, arg1 before arg0.
   */
  lemma {:induction false} StopsAtUnique(t: FindCerts, fault: nat -> Option<string>, n: nat, k1: nat, k2: nat)
    requires StopsAt(FindCertsItems(t), fault, n, k1) && StopsAt(FindCertsItems(t), fault, n, k2)
    ensures k1 == k2
    ensures Clear(fault, n, 5) ==> k1 == 5
  {
    if k1 < k2 {
      ClearAt(fault, n, k2, k1);
    } else if k2 < k1 {
      ClearAt(fault, n, k1, k2);
    }
    if Clear(fault, n, 5) && k1 < 5 {
      ClearAt(fault, n, 5, k1);
    }
  }
}
