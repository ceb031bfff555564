/** Byte strings and the helpers of Go's bytes package that the modelled code calls. */
module Bytes {
  import Seqs

  type byte = x: int | 0 <= x < 256

  /** The ASCII whitespace bytes trimmed by bytes.TrimSpace. */
  predicate IsAsciiSpace(b: byte)
  {
    b == 9 || b == 10 || b == 11 || b == 12 || b == 13 || b == 32
  }

  /** bytes.TrimSpace on byte strings (ASCII whitespace). */
  function TrimSpace(b: seq<byte>): (r: seq<byte>)
    ensures r == [] || (!IsAsciiSpace(r[0]) && !IsAsciiSpace(r[|r| - 1]))
    ensures |r| <= |b|
  {
    Seqs.Trim(b, IsAsciiSpace)
  }

  /**
   * bytes.TrimSpace keeps the infix of `b` between its leading and its
   * trailing whitespace: everything before and after it is whitespace.
   */
  lemma TrimSpaceInfix(b: seq<byte>)
    ensures var i := Seqs.TrimStart(b, IsAsciiSpace);
      var r := TrimSpace(b);
      i + |r| <= |b| && r == b[i..i + |r|] &&
      (forall k :: 0 <= k < i ==> IsAsciiSpace(b[k])) &&
      (forall k :: i + |r| <= k < |b| ==> IsAsciiSpace(b[k]))
  {
    Seqs.TrimInfix(b, IsAsciiSpace);
  }

  /** The bytes the base64 clean-up keeps: all but '\n', '\r' and ' '. */
  predicate KeptForBase64(x: byte)
  {
    x != 10 && x != 13 && x != 32
  }

  /**
   * The clean-up applied before every base64 decode in the certificate code:
   * trim surrounding whitespace, then remove every '\n', '\r' and ' '.
   */
  function StripForBase64(b: seq<byte>): (r: seq<byte>)
    ensures |r| <= |b|
  {
    Seqs.Remove(Seqs.Remove(Seqs.Remove(TrimSpace(b), 10), 13), 32)
  }

  /** The clean-up keeps exactly the trimmed bytes other than '\n', '\r' and ' ', in order. */
  lemma StripKeeps(b: seq<byte>)
    ensures StripForBase64(b) == Seqs.Filter(TrimSpace(b), KeptForBase64)
  {
    StripIsFilter(TrimSpace(b));
  }

  /** Removing '\n', then '\r', then ' ' keeps exactly the other bytes, in order. */
  lemma {:induction false} StripIsFilter(s: seq<byte>)
    ensures Seqs.Remove(Seqs.Remove(Seqs.Remove(s, 10), 13), 32) == Seqs.Filter(s, KeptForBase64)
    decreases |s|
  {
    if s != [] {
      StripIsFilter(s[1..]);
      var r1 := Seqs.Remove(s[1..], 10);
      var r2 := Seqs.Remove(r1, 13);
      var x := s[0];
      if x == 10 {
      } else if x == 13 {
        assert Seqs.Remove(s, 10) == [x] + r1;
        assert ([x] + r1)[1..] == r1;
      } else if x == 32 {
        assert Seqs.Remove(s, 10) == [x] + r1;
        assert ([x] + r1)[1..] == r1;
        assert Seqs.Remove([x] + r1, 13) == [x] + r2;
        assert ([x] + r2)[1..] == r2;
      } else {
        assert Seqs.Remove(s, 10) == [x] + r1;
        assert ([x] + r1)[1..] == r1;
        assert Seqs.Remove([x] + r1, 13) == [x] + r2;
        assert ([x] + r2)[1..] == r2;
        assert Seqs.Remove([x] + r2, 32) == [x] + Seqs.Remove(r2, 32);
      }
    }
  }

  /** bytes.TrimSpace drops a trailing whitespace byte after one that is not. */
  lemma TrailingSpaceTrimmed(c: byte, w: byte)
    requires !IsAsciiSpace(c) && IsAsciiSpace(w)
    ensures TrimSpace([c, w]) == [c]
  {
    var d: seq<byte> := [c, w];
    assert Seqs.TrimLeft(d, IsAsciiSpace) == d;
    assert d[..1] == [c];
    assert Seqs.TrimRight(d, IsAsciiSpace) == Seqs.TrimRight(d[..1], IsAsciiSpace);
  }

  /** Bytes of an ASCII string (Go's []byte(s) for the ASCII labels and headers used here). */
  function Ascii(s: string): (r: seq<byte>)
    ensures |r| == |s|
    ensures forall k :: 0 <= k < |s| && s[k] as int < 256 ==> r[k] == s[k] as int
  {
    seq(|s|, k requires 0 <= k < |s| => (s[k] as int) % 256)
  }

  /** A byte string without any whitespace is left alone by the base64 clean-up. */
  lemma StripNoop(b: seq<byte>)
    requires forall k :: 0 <= k < |b| ==> !IsAsciiSpace(b[k])
    ensures TrimSpace(b) == b && StripForBase64(b) == b
  {
    assert TrimSpace(b) == b by {
      Seqs.TrimNoop(b, IsAsciiSpace);
    }
    assert forall k :: 0 <= k < |b| ==> KeptForBase64(b[k]);
    Seqs.FilterAll(b, KeptForBase64);
    StripKeeps(b);
  }
}
