/**
 * The textual encoding of section 2 of RFC 7468 as Go's encoding/pem writes it:
 * a "-----BEGIN <kind>-----" line, the base64 of the payload in lines of 64
 * characters, and an "-----END <kind>-----" line. Reading PEM (pem.Decode) is
 * library code and enters the model only as a `Decoder` value.
 */
module Pem {
  import opened Wrappers
  import opened Bytes
  import Base64
  import Seqs

  /** A PEM block without headers: its type label and its payload. */
  datatype Block = Block(kind: string, bytes: seq<byte>)

  /**
   * pem.Decode: the first block found in the data and the data after it, or
   * None when no block is found. A block found always consumes its own
   * BEGIN line, so the rest is shorter than the input.
   */
  type Decoder = f: seq<byte> -> Option<(Block, seq<byte>)>
    | forall d :: f(d).Some? ==> |f(d).value.1| < |d|
    witness (d: seq<byte>) => None

  const LineLength := 64

  /** Go's pem line breaker: every run of 64 characters, and the final partial run, ends with '\n'. */
  function Lines(e: seq<byte>): (r: seq<byte>)
    ensures e == [] <==> r == []
    ensures r != [] ==> r[|r| - 1] == 10
    decreases |e|
  {
    if e == [] then []
    else if |e| <= LineLength then e + [10]
    else e[..LineLength] + [10] + Lines(e[LineLength..])
  }

  /** pem.Encode / pem.EncodeToMemory for a block without headers. */
  function Encode(b: Block): (r: seq<byte>)
  {
    Ascii("-----BEGIN " + b.kind + "-----\n") + Lines(Base64.Encode(b.bytes)) + Ascii("-----END " + b.kind + "-----\n")
  }

  /** Removing the line breaks of the body gives the unbroken text back; other bytes absent from it stay absent. */
  lemma {:induction false} LinesRemove(e: seq<byte>, x: byte)
    requires x !in e
    ensures Seqs.Remove(Lines(e), x) == if x == 10 then e else Lines(e)
    decreases |e|
  {
    if e == [] {
    } else if |e| <= LineLength {
      Seqs.RemoveConcat(e, [10], x);
      Seqs.RemoveNoop(e, x);
      if x != 10 {
        Seqs.RemoveNoop([10], x);
      }
    } else {
      var h := e[..LineLength];
      assert x !in h && x !in e[LineLength..] by {
        assert e == h + e[LineLength..];
      }
      Seqs.RemoveConcat(h + [10], Lines(e[LineLength..]), x);
      Seqs.RemoveConcat(h, [10], x);
      LinesRemove(e[LineLength..], x);
      Seqs.RemoveNoop(h, x);
      if x != 10 {
        Seqs.RemoveNoop([10], x);
      }
      if x == 10 {
        assert e == h + e[LineLength..];
      }
    }
  }

  /** The body of an encoded block decodes to the payload: the base64 decoder skips the line breaks. */
  lemma BodyRoundTrip(payload: seq<byte>)
    ensures Base64.Decode(Lines(Base64.Encode(payload))) == Ok(payload)
  {
    var e := Base64.Encode(payload);
    Base64.EncodeHasNoSpace(payload);
    assert 13 !in e && 10 !in e;
    LinesRemove(e, 13);
    LinesRemove(e, 10);
    Base64.DecodeEncode(payload);
    Base64.EncodeSkipsNothing(payload);
  }

  /** An encoded block is its BEGIN line, its body and its END line, each carrying the kind. */
  lemma EncodeFrame(b: Block)
    ensures var r := Encode(b);
            var head := Ascii("-----BEGIN " + b.kind + "-----\n");
            var tail := Ascii("-----END " + b.kind + "-----\n");
            |r| >= |head| + |tail| && r[..|head|] == head && r[|r| - |tail|..] == tail &&
            Base64.Decode(r[|head|..|r| - |tail|]) == Ok(b.bytes)
  {
    var head := Ascii("-----BEGIN " + b.kind + "-----\n");
    var body := Lines(Base64.Encode(b.bytes));
    var tail := Ascii("-----END " + b.kind + "-----\n");
    var r := Encode(b);
    assert r == head + body + tail;
    assert r[..|head|] == head;
    assert r[|r| - |tail|..] == tail;
    assert r[|head|..|r| - |tail|] == body;
    BodyRoundTrip(b.bytes);
  }
}
