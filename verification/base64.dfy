/**
 * The standard, padded base64 encoding of section 4 of RFC 4648, as Go's
 * base64.StdEncoding implements it: EncodeToString, and DecodeString, which
 * skips '\r' and '\n', requires padding, accepts padding only in the final
 * quantum and ignores the unused low bits of a padded quantum.
 */
module Base64 {
  import opened Wrappers
  import opened Bytes
  import Seqs

  /** The padding character '='. */
  const Pad: byte := 61

  /** The character of the base64 alphabet that stands for the 6-bit value `v`. */
  function SextetChar(v: nat): (c: byte)
    requires v < 64
  {
    if v < 26 then 65 + v        // 'A'..'Z'
    else if v < 52 then v + 71   // 'a'..'z'
    else if v < 62 then v - 4    // '0'..'9'
    else if v == 62 then 43      // '+'
    else 47                      // '/'
  }

  /** The 6-bit value of an alphabet character, or None for any other byte. */
  function CharSextet(c: byte): (r: Option<nat>)
    ensures r.Some? ==> r.value < 64 && SextetChar(r.value) == c
  {
    if 65 <= c <= 90 then Some(c - 65)
    else if 97 <= c <= 122 then Some(c - 71)
    else if 48 <= c <= 57 then Some(c + 4)
    else if c == 43 then Some(62)
    else if c == 47 then Some(63)
    else None
  }

  /** A character produced by the encoder: an alphabet character or the padding. */
  predicate IsEncoderChar(c: byte)
  {
    CharSextet(c).Some? || c == Pad
  }

  /** The four characters for the 24-bit group b0 b1 b2. */
  function EncodeGroup(b0: byte, b1: byte, b2: byte): (r: seq<byte>)
    ensures |r| == 4
  {
    [SextetChar(b0 / 4), SextetChar((b0 % 4) * 16 + b1 / 16), SextetChar((b1 % 16) * 4 + b2 / 64), SextetChar(b2 % 64)]
  }

  /** base64.StdEncoding.EncodeToString. */
  function Encode(s: seq<byte>): (r: seq<byte>)
    ensures |r| % 4 == 0
    ensures |r| == 4 * ((|s| + 2) / 3)
    decreases |s|
  {
    if |s| >= 3 then EncodeGroup(s[0], s[1], s[2]) + Encode(s[3..])
    else if |s| == 2 then EncodeGroup(s[0], s[1], 0)[..3] + [Pad]
    else if |s| == 1 then EncodeGroup(s[0], 0, 0)[..2] + [Pad, Pad]
    else []
  }

  datatype DecodeError = CorruptInput

  /** The three bytes held by four 6-bit values. */
  function GroupBytes(a: nat, b: nat, c: nat, d: nat): (r: seq<byte>)
    requires a < 64 && b < 64 && c < 64 && d < 64
    ensures |r| == 3
  {
    [a * 4 + b / 16, (b % 16) * 16 + c / 4, (c % 4) * 64 + d]
  }

  /** Decoding of a padded string whose length is a multiple of four, quantum by quantum. */
  function DecodeQuanta(s: seq<byte>): Result<seq<byte>, DecodeError>
    requires |s| % 4 == 0
    decreases |s|
  {
    if s == [] then Ok([])
    else
      var a, b, c, d := CharSextet(s[0]), CharSextet(s[1]), CharSextet(s[2]), CharSextet(s[3]);
      if a.None? || b.None? then Err(CorruptInput)
      else if |s| == 4 && s[2] == Pad && s[3] == Pad then Ok(GroupBytes(a.value, b.value, 0, 0)[..1])
      else if |s| == 4 && c.Some? && s[3] == Pad then Ok(GroupBytes(a.value, b.value, c.value, 0)[..2])
      else if c.None? || d.None? then Err(CorruptInput)
      else match DecodeQuanta(s[4..])
        case Ok(rest) => Ok(GroupBytes(a.value, b.value, c.value, d.value) + rest)
        case Err(e) => Err(e)
  }

  /** base64.StdEncoding.DecodeString: '\r' and '\n' are skipped, then the length must be a multiple of four. */
  function Decode(s: seq<byte>): Result<seq<byte>, DecodeError>
  {
    var t := Seqs.Remove(Seqs.Remove(s, 13), 10);
    if |t| % 4 != 0 then Err(CorruptInput) else DecodeQuanta(t)
  }

  /** Text whose length, line breaks skipped, is not a multiple of four is rejected. */
  lemma DecodeNeedsQuanta(s: seq<byte>)
    requires |Seqs.Remove(Seqs.Remove(s, 13), 10)| % 4 != 0
    ensures Decode(s) == Err(CorruptInput)
  {
  }

  /** A single character other than a line break is no base64 text. */
  lemma OneCharRejected(c: byte)
    requires c != 10 && c != 13
    ensures Decode([c]) == Err(CorruptInput)
  {
    var t: seq<byte> := [c];
    assert |Seqs.Remove(Seqs.Remove(t, 13), 10)| == 1 by {
      Seqs.RemoveNoop(t, 13);
      Seqs.RemoveNoop(t, 10);
    }
    DecodeNeedsQuanta(t);
  }

  lemma SextetRoundTrip(v: nat)
    requires v < 64
    ensures CharSextet(SextetChar(v)) == Some(v)
  {
  }

  /** Splitting a 24-bit group into four sextets and joining them back gives the three bytes. */
  lemma GroupRoundTrip(b0: byte, b1: byte, b2: byte)
    ensures GroupBytes(b0 / 4, (b0 % 4) * 16 + b1 / 16, (b1 % 16) * 4 + b2 / 64, b2 % 64) == [b0, b1, b2]
  {
    var b := (b0 % 4) * 16 + b1 / 16;
    var c := (b1 % 16) * 4 + b2 / 64;
    assert b / 16 == b0 % 4 && b % 16 == b1 / 16;
    assert c / 4 == b1 % 16 && c % 4 == b2 / 64;
  }

  /** Every character the encoder emits is an alphabet character or the padding. */
  lemma {:induction false} EncodeChars(s: seq<byte>)
    ensures forall k :: 0 <= k < |Encode(s)| ==> IsEncoderChar(Encode(s)[k])
    decreases |s|
  {
    if |s| >= 3 {
      EncodeChars(s[3..]);
    }
  }

  /** Encoded text holds no whitespace byte. */
  lemma EncodeHasNoSpace(s: seq<byte>)
    ensures forall k :: 0 <= k < |Encode(s)| ==> !IsAsciiSpace(Encode(s)[k])
  {
    EncodeChars(s);
  }

  /** The first character of an encoding is determined by the top six bits of the first byte. */
  lemma EncodeFirstChar(s: seq<byte>)
    requires |s| > 0
    ensures |Encode(s)| > 0 && Encode(s)[0] == SextetChar(s[0] / 4)
  {
  }

  /** A quantum of four alphabet characters followed by more text. */
  lemma FullQuantum(e: seq<byte>, a: nat, b: nat, c: nat, d: nat)
    requires |e| >= 4 && |e| % 4 == 0 && a < 64 && b < 64 && c < 64 && d < 64
    requires e[0] == SextetChar(a) && e[1] == SextetChar(b)
    requires e[2] == SextetChar(c) && e[3] == SextetChar(d)
    ensures DecodeQuanta(e) == match DecodeQuanta(e[4..])
              case Ok(rest) => Ok(GroupBytes(a, b, c, d) + rest)
              case Err(x) => Err(x)
  {
    SextetRoundTrip(a);
    SextetRoundTrip(b);
    SextetRoundTrip(c);
    SextetRoundTrip(d);
    assert e[2] != Pad && e[3] != Pad;
  }

  /** A final quantum "xx==". */
  lemma OnePaddedQuantum(e: seq<byte>, a: nat, b: nat)
    requires |e| == 4 && a < 64 && b < 64
    requires CharSextet(e[0]) == Some(a) && CharSextet(e[1]) == Some(b) && e[2] == Pad && e[3] == Pad
    ensures DecodeQuanta(e) == Ok(GroupBytes(a, b, 0, 0)[..1])
  {
  }

  /** A final quantum "xxx=". */
  lemma TwoPaddedQuantum(e: seq<byte>, a: nat, b: nat, c: nat)
    requires |e| == 4 && a < 64 && b < 64 && c < 64
    requires CharSextet(e[0]) == Some(a) && CharSextet(e[1]) == Some(b)
    requires CharSextet(e[2]) == Some(c) && e[2] != Pad && e[3] == Pad
    ensures DecodeQuanta(e) == Ok(GroupBytes(a, b, c, 0)[..2])
  {
  }

  /** Decoding the four characters of a full group and then the rest. */
  lemma DecodeFullGroup(s: seq<byte>)
    requires |s| >= 3
    ensures var e := Encode(s);
            |e| >= 4 && e[4..] == Encode(s[3..]) &&
            DecodeQuanta(e) == match DecodeQuanta(e[4..])
              case Ok(rest) => Ok([s[0], s[1], s[2]] + rest)
              case Err(x) => Err(x)
  {
    var e := Encode(s);
    var a, b, c, d := s[0] / 4, (s[0] % 4) * 16 + s[1] / 16, (s[1] % 16) * 4 + s[2] / 64, s[2] % 64;
    assert GroupBytes(a, b, c, d) == [s[0], s[1], s[2]] by {
      GroupRoundTrip(s[0], s[1], s[2]);
    }
    var g := EncodeGroup(s[0], s[1], s[2]);
    assert e == g + Encode(s[3..]);
    assert e[4..] == Encode(s[3..]);
    assert e[0] == g[0] && e[1] == g[1] && e[2] == g[2] && e[3] == g[3];
    FullQuantum(e, a, b, c, d);
  }

  /** The final quantum "xx==" holds one byte. */
  lemma DecodeOnePadded(x: byte)
    ensures DecodeQuanta([SextetChar(x / 4), SextetChar((x % 4) * 16), Pad, Pad]) == Ok([x])
  {
    var a, b := x / 4, (x % 4) * 16;
    SextetRoundTrip(a);
    SextetRoundTrip(b);
    var e := [SextetChar(a), SextetChar(b), Pad, Pad];
    OnePaddedQuantum(e, a, b);
    assert GroupBytes(a, b, 0, 0)[..1] == [x] by {
      assert b / 16 == x % 4;
      assert GroupBytes(a, b, 0, 0)[0] == a * 4 + x % 4 == x;
    }
  }

  /** The final quantum "xxx=" holds two bytes. */
  lemma DecodeTwoPadded(x: byte, y: byte)
    ensures DecodeQuanta([SextetChar(x / 4), SextetChar((x % 4) * 16 + y / 16), SextetChar((y % 16) * 4), Pad])
            == Ok([x, y])
  {
    var a, b, c := x / 4, (x % 4) * 16 + y / 16, (y % 16) * 4;
    SextetRoundTrip(a);
    SextetRoundTrip(b);
    SextetRoundTrip(c);
    var e := [SextetChar(a), SextetChar(b), SextetChar(c), Pad];
    TwoPaddedQuantum(e, a, b, c);
    assert GroupBytes(a, b, c, 0)[..2] == [x, y] by {
      assert b / 16 == x % 4 && b % 16 == y / 16 && c / 4 == y % 16;
      assert GroupBytes(a, b, c, 0)[0] == a * 4 + x % 4 == x;
      assert GroupBytes(a, b, c, 0)[1] == (y / 16) * 16 + y % 16 == y;
    }
  }

  lemma {:induction false} DecodeQuantaEncode(s: seq<byte>)
    ensures DecodeQuanta(Encode(s)) == Ok(s)
    decreases |s|
  {
    if |s| >= 3 {
      DecodeFullGroup(s);
      DecodeQuantaEncode(s[3..]);
      assert s == [s[0], s[1], s[2]] + s[3..];
    } else if |s| == 2 {
      DecodeTwoPadded(s[0], s[1]);
      assert Encode(s) == [SextetChar(s[0] / 4), SextetChar((s[0] % 4) * 16 + s[1] / 16), SextetChar((s[1] % 16) * 4), Pad];
      assert s == [s[0], s[1]];
    } else if |s| == 1 {
      DecodeOnePadded(s[0]);
      assert Encode(s) == [SextetChar(s[0] / 4), SextetChar((s[0] % 4) * 16), Pad, Pad];
      assert s == [s[0]];
    }
  }

  /** Skipping line breaks leaves encoded text unchanged. */
  lemma EncodeSkipsNothing(s: seq<byte>)
    ensures Seqs.Remove(Seqs.Remove(Encode(s), 13), 10) == Encode(s)
  {
    EncodeHasNoSpace(s);
    var e := Encode(s);
    assert forall k :: 0 <= k < |e| ==> e[k] != 13 by {
      forall k | 0 <= k < |e| ensures e[k] != 13 {
        assert !IsAsciiSpace(e[k]);
      }
    }
    assert forall k :: 0 <= k < |e| ==> e[k] != 10 by {
      forall k | 0 <= k < |e| ensures e[k] != 10 {
        assert !IsAsciiSpace(e[k]);
      }
    }
    Seqs.RemoveNoop(e, 13);
    Seqs.RemoveNoop(e, 10);
  }

  /** Decoding an encoding gives the original bytes back. */
  lemma DecodeEncode(s: seq<byte>)
    ensures Decode(Encode(s)) == Ok(s)
  {
    var e := Encode(s);
    EncodeSkipsNothing(s);
    DecodeQuantaEncode(s);
    assert Decode(e) == DecodeQuanta(e);
  }
}
