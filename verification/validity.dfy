/**
 * EJBCA-style validity strings such as "1y 2mo 4d 1h" and their value in
 * seconds (ParseEJBCAValidity in config/iniFileHandler.go).
 *
 * The string is trimmed, then read as a sequence of terms: optional
 * whitespace, a decimal number, optional whitespace and a unit. Any
 * malformed input and any overflow of an unsigned 64-bit total gives 0.
 * The outer trim removes any Unicode whitespace, but the scanner reads the
 * UTF-8 bytes one by one: its whitespace is ASCII only, and a character
 * above 0x7F inside the trimmed text makes the value 0 (`NonAsciiIsZero`).
 * `Step`, `Tokens` and `ValidityValue` state the meaning position by
 * position; the method `ParseEJBCAValidity` is the scanner, proved equal to
 * `ValidityValue`.
 */
module Validity {
  import opened Wrappers
  import Text
  import Seqs

  /** The largest uint64. */
  const Max: nat := 0xFFFF_FFFF_FFFF_FFFF
  /** 2^64: uint64 products wrap modulo this. */
  const Modulus: nat := 0x1_0000_0000_0000_0000

  const SecPerMinute: nat := 60
  const SecPerHour: nat := 60 * SecPerMinute
  const SecPerDay: nat := 24 * SecPerHour
  /** 365.25 days. */
  const SecPerYear: nat := 31557600
  const SecPerMonth: nat := SecPerYear / 12

  datatype Unit = Year | Month | Day | Hour | Minute | Second

  function Seconds(u: Unit): (r: nat)
    ensures 1 <= r <= SecPerYear
  {
    match u
    case Year => SecPerYear
    case Month => SecPerMonth
    case Day => SecPerDay
    case Hour => SecPerHour
    case Minute => SecPerMinute
    case Second => 1
  }

  /** The spelling of a unit in a validity string. */
  function UnitName(u: Unit): string
  {
    match u
    case Year => "y"
    case Month => "mo"
    case Day => "d"
    case Hour => "h"
    case Minute => "m"
    case Second => "s"
  }

  /** One "<count><unit>" term. */
  datatype Token = Token(count: nat, unit: Unit)

  function Value(t: Token): nat
  {
    t.count * Seconds(t.unit)
  }

  /** The exact, unbounded sum of the terms. */
  function Sum(ts: seq<Token>): nat
  {
    if ts == [] then 0 else Sum(ts[..|ts| - 1]) + Value(ts[|ts| - 1])
  }

  /**
   * The unit at the start of `t` and its length: the strings.HasPrefix tests
   * of the scanner, "mo" tried before "m".
   */
  function UnitPrefix(t: string): (r: Option<(Unit, nat)>)
    ensures r.Some? ==> 1 <= r.value.1 <= |t|
  {
    if |t| == 0 then None
    else if |t| >= 2 && t[0] == 'm' && t[1] == 'o' then Some((Month, 2))
    else if t[0] == 'y' then Some((Year, 1))
    else if t[0] == 'd' then Some((Day, 1))
    else if t[0] == 'h' then Some((Hour, 1))
    else if t[0] == 'm' then Some((Minute, 1))
    else if t[0] == 's' then Some((Second, 1))
    else None
  }

  /** The two character classes the scanner skips over. */
  datatype CharClass = Spaces | Digits

  predicate InClass(c: char, cls: CharClass)
  {
    match cls
    case Spaces => Text.IsAsciiSpace(c)
    case Digits => Text.IsDigit(c)
  }

  /** The end of the run of characters of class `cls` that starts at position `i`. */
  function RunEnd(t: string, i: nat, cls: CharClass): (j: nat)
    requires i <= |t|
    ensures i <= j <= |t|
    decreases |t| - i
  {
    if i < |t| && InClass(t[i], cls) then RunEnd(t, i + 1, cls) else i
  }

  /** A scan from `i` over characters of class `cls` that stops at `j` has found RunEnd. */
  lemma {:induction false} RunEndAt(t: string, i: nat, j: nat, cls: CharClass)
    requires i <= j <= |t|
    requires forall k :: i <= k < j ==> InClass(t[k], cls)
    requires j == |t| || !InClass(t[j], cls)
    ensures RunEnd(t, i, cls) == j
    decreases j - i
  {
    if i < j {
      RunEndAt(t, i + 1, j, cls);
    }
  }

  /** What reading one term from a position finds: the end of the text, a malformed term, or a term. */
  datatype Scan = AtEnd | Malformed | Term(n: nat, unit: Unit, mul: nat, next: nat)

  /**
   * One term read from position `i`: skip whitespace, read the digits, skip
   * whitespace, read the unit. The term is malformed when there is no digit,
   * when the number exceeds the uint64 range, when the text ends before the
   * unit, or when the unit is unknown.
   */
  function Step(t: string, i: nat): (r: Scan)
    requires i <= |t|
    ensures r.Term? ==> i < r.next <= |t| && r.n <= Max && r.mul == Seconds(r.unit)
  {
    var a := RunEnd(t, i, Spaces);
    if a == |t| then AtEnd
    else
      var b := RunEnd(t, a, Digits);
      if b == a then Malformed
      else
        var n := Text.DecimalValue(t[a..b]);
        if n > Max then Malformed
        else
          var c := RunEnd(t, b, Spaces);
          if c == |t| then Malformed
          else match UnitPrefix(t[c..])
            case None => Malformed
            case Some((unit, len)) => Term(n, unit, Seconds(unit), c + len)
  }

  /** `done` followed by the tokens of a successful tokenization. */
  function Prepend(done: seq<Token>, rest: Option<seq<Token>>): Option<seq<Token>>
  {
    match rest
    case None => None
    case Some(ts) => Some(done + ts)
  }

  /** The terms of `t` from position `i` on, or None when one of them is malformed. */
  function Tokens(t: string, i: nat): Option<seq<Token>>
    requires i <= |t|
    decreases |t| - i
  {
    match Step(t, i)
    case AtEnd => Some([])
    case Malformed => None
    case Term(n, unit, _, next) => Prepend([Token(n, unit)], Tokens(t, next))
  }

  /** The number of seconds ParseEJBCAValidity returns for `s`: always a uint64. */
  function ValidityValue(s: string): (r: nat)
    ensures r <= Max
  {
    match Tokens(Text.TrimSpace(s), 0)
    case None => 0
    case Some(ts) => if Sum(ts) <= Max then Sum(ts) else 0
  }

  lemma PrependAssoc(done: seq<Token>, tok: Token, rest: Option<seq<Token>>)
    ensures Prepend(done, Prepend([tok], rest)) == Prepend(done + [tok], rest)
  {
    if rest.Some? {
      assert done + ([tok] + rest.value) == done + [tok] + rest.value;
    }
  }

  lemma {:induction false} SumConcat(a: seq<Token>, b: seq<Token>)
    ensures Sum(a + b) == Sum(a) + Sum(b)
    decreases |b|
  {
    if b == [] {
      assert a + b == a;
    } else {
      assert (a + b)[..|a + b| - 1] == a + b[..|b| - 1];
      SumConcat(a, b[..|b| - 1]);
    }
  }

  lemma SumAppend(done: seq<Token>, tok: Token)
    ensures Sum(done + [tok]) == Sum(done) + Value(tok)
  {
    assert (done + [tok])[..|done|] == done;
  }

  /** The uint64 product guard `add/mul != n`, with `add` the wrapped product, fails exactly when the product fits. */
  lemma MulGuard(n: nat, mul: nat)
    requires 0 < mul
    ensures ((n * mul) % Modulus) / mul == n <==> n * mul <= Max
    ensures n * mul <= Max ==> (n * mul) % Modulus == n * mul
  {
    var p := n * mul;
    var add := p % Modulus;
    var q := add / mul;
    assert add == q * mul + add % mul;
    if p <= Max {
      assert add == p;
      assert (n - q) * mul == add % mul;
      MulAwayFromZero(n - q, mul);
    }
  }

  /** A non-zero multiple of `m` is at least `m` away from zero. */
  lemma MulAwayFromZero(x: int, m: int)
    requires 0 <= m
    ensures x >= 1 ==> x * m >= m
    ensures x <= -1 ==> x * m <= -m
  {
    if x >= 1 {
      assert x * m == m + (x - 1) * m;
    } else if x <= -1 {
      assert x * m == -m + (x + 1) * m;
    }
  }

  /** The whitespace-skipping loop of the scanner. */
  method SkipWhitespace(t: string, i: nat) returns (j: nat)
    requires i <= |t|
    ensures j == RunEnd(t, i, Spaces)
  {
    j := i;
    while j < |t| && Text.IsAsciiSpace(t[j])
      invariant i <= j <= |t|
      invariant RunEnd(t, j, Spaces) == RunEnd(t, i, Spaces)
      decreases |t| - j
    {
      j := j + 1;
    }
  }

  /** The number-reading loop of the scanner. */
  method SkipDigits(t: string, i: nat) returns (j: nat)
    requires i <= |t|
    ensures j == RunEnd(t, i, Digits)
  {
    j := i;
    while j < |t| && Text.IsDigit(t[j])
      invariant i <= j <= |t|
      invariant RunEnd(t, j, Digits) == RunEnd(t, i, Digits)
      decreases |t| - j
    {
      j := j + 1;
    }
  }

  /** The unit switch of the scanner: "mo" is tried before "m"; `ok` is false for an unknown unit. */
  method ReadUnit(t: string, j: nat) returns (unit: Unit, mul: nat, len: nat, ok: bool)
    requires j <= |t|
    ensures ok <==> UnitPrefix(t[j..]).Some?
    ensures ok ==> UnitPrefix(t[j..]) == Some((unit, len)) && mul == Seconds(unit)
  {
    ok := true;
    var rest := t[j..];
    if |rest| >= 2 && rest[0] == 'm' && rest[1] == 'o' {
      unit, mul, len := Month, SecPerMonth, 2;
    } else if |rest| >= 1 && rest[0] == 'y' {
      unit, mul, len := Year, SecPerYear, 1;
    } else if |rest| >= 1 && rest[0] == 'd' {
      unit, mul, len := Day, SecPerDay, 1;
    } else if |rest| >= 1 && rest[0] == 'h' {
      unit, mul, len := Hour, SecPerHour, 1;
    } else if |rest| >= 1 && rest[0] == 'm' {
      unit, mul, len := Minute, SecPerMinute, 1;
    } else if |rest| >= 1 && rest[0] == 's' {
      unit, mul, len := Second, 1, 1;
    } else {
      unit, mul, len, ok := Second, 0, 0, false;
    }
  }

  /** One pass of the scanner's outer loop from position `i`. */
  method ScanTerm(t: string, i: nat) returns (sc: Scan)
    requires i <= |t|
    ensures sc == Step(t, i)
  {
    var startNum := SkipWhitespace(t, i);
    if startNum >= |t| {
      return AtEnd;
    }
    var endNum := SkipDigits(t, startNum);
    if startNum == endNum {
      return Malformed;
    }
    var n := Text.DecimalValue(t[startNum..endNum]);
    if n > Max {
      return Malformed;
    }
    var j := SkipWhitespace(t, endNum);
    if j >= |t| {
      return Malformed;
    }
    var unit, mul, len, ok := ReadUnit(t, j);
    if !ok {
      return Malformed;
    }
    return Term(n, unit, mul, j + len);
  }

  /**
   * The overflow guards of the scanner on uint64 values: the product `add`
   * wraps modulo 2^64 and is rejected when dividing it back by `mul` does not
   * give `n`; the sum is rejected when `total` exceeds the room left under the
   * maximum. `ok` is true exactly when the exact total fits.
   */
  method AddTerm(total: nat, n: nat, mul: nat) returns (ok: bool, sum: nat)
    requires total <= Max && n <= Max && mul <= Max
    ensures ok <==> total + n * mul <= Max
    ensures ok ==> sum == total + n * mul
  {
    var add := (n * mul) % Modulus;
    if mul != 0 {
      MulGuard(n, mul);
      if add / mul != n {
        return false, 0;
      }
    }
    if total > Max - add {
      return false, 0;
    }
    return true, total + add;
  }

  /**
   * ParseEJBCAValidity: the scanner of the source, returning the number of
   * seconds, or 0 for malformed input or uint64 overflow.
   */
  method ParseEJBCAValidity(s: string) returns (total: nat)
    ensures total == ValidityValue(s)
    ensures total <= Max
  {
    var t := Text.TrimSpace(s);
    if t == [] {
      return 0;
    }
    total := 0;
    var i := 0;
    ghost var done: seq<Token> := [];
    assert Prepend([], Tokens(t, 0)) == Tokens(t, 0) by {
      if Tokens(t, 0).Some? {
        assert [] + Tokens(t, 0).value == Tokens(t, 0).value;
      }
    }
    while i < |t|
      invariant 0 <= i <= |t|
      invariant total == Sum(done) <= Max
      invariant Tokens(t, 0) == Prepend(done, Tokens(t, i))
      decreases |t| - i
    {
      var sc := ScanTerm(t, i);
      if sc.AtEnd? {
        AllTokens(s, done);
        return;
      }
      if sc.Malformed? {
        NoTokens(s, done);
        return 0;
      }
      var tok := Token(sc.n, sc.unit);
      var ok, sum := AddTerm(total, sc.n, sc.mul);
      if !ok {
        NoTotal(s, done, tok, Tokens(t, sc.next));
        return 0;
      }
      total := sum;
      SumAppend(done, tok);
      PrependAssoc(done, tok, Tokens(t, sc.next));
      done := done + [tok];
      i := sc.next;
    }
    assert Step(t, i) == AtEnd;
    AllTokens(s, done);
  }

  /** A malformed term anywhere makes the whole string worth 0. */
  lemma NoTokens(s: string, done: seq<Token>)
    requires Tokens(Text.TrimSpace(s), 0) == Prepend(done, None)
    ensures ValidityValue(s) == 0
  {
  }

  /** Terms read to the end whose sum fits a uint64 give that sum. */
  lemma AllTokens(s: string, done: seq<Token>)
    requires Tokens(Text.TrimSpace(s), 0) == Prepend(done, Some([]))
    requires Sum(done) <= Max
    ensures ValidityValue(s) == Sum(done)
  {
    assert done + [] == done;
  }

  /** Once the terms read so far exceed the uint64 range, the whole string is worth 0. */
  lemma NoTotal(s: string, done: seq<Token>, tok: Token, rest: Option<seq<Token>>)
    requires Tokens(Text.TrimSpace(s), 0) == Prepend(done, Prepend([tok], rest))
    requires Sum(done) + Value(tok) > Max
    ensures ValidityValue(s) == 0
  {
    if rest.Some? {
      SumConcat(done, [tok] + rest.value);
      SumConcat([tok], rest.value);
      assert Sum([tok]) == Value(tok) by {
        assert [tok][..0] == [];
      }
      assert done + ([tok] + rest.value) == Tokens(Text.TrimSpace(s), 0).value;
    }
  }

  /** A validity string is worth 0 when it holds nothing but whitespace. */
  lemma AllWhitespaceIsZero(s: string)
    requires forall k :: 0 <= k < |s| ==> Text.IsSpace(s[k])
    ensures ValidityValue(s) == 0
  {
    Seqs.TrimAll(s, Text.IsSpace);
    assert Text.TrimSpace(s) == [];
    assert Step([], 0) == AtEnd;
  }

  /** Whitespace the scanner skips, between and inside terms. */
  predicate Blank(s: string)
  {
    forall k :: 0 <= k < |s| ==> Text.IsAsciiSpace(s[k])
  }

  /**
   * A term as written: its digits, possibly with leading zeros, the
   * whitespace between number and unit, its unit, and the whitespace that
   * separates it from the next term, which may be empty.
   */
  datatype Written = Written(digits: string, gap: string, unit: Unit, sep: string)

  /** A written term has at least one digit and nothing but digits, and whitespace only in its gap and separator. */
  predicate WrittenOk(w: Written)
  {
    w.digits != [] && Text.AllDigits(w.digits) && Blank(w.gap) && Blank(w.sep)
  }

  /** Every written term is well formed. */
  predicate WellWritten(ws: seq<Written>)
    decreases |ws|
  {
    ws == [] || (WrittenOk(ws[0]) && WellWritten(ws[1..]))
  }

  /** A term without its separator. */
  function Word(w: Written): string
  {
    w.digits + w.gap + UnitName(w.unit)
  }

  /** Written terms, each followed by its separator except the last. */
  function Spell(ws: seq<Written>): string
  {
    if ws == [] then ""
    else if |ws| == 1 then Word(ws[0])
    else Word(ws[0]) + ws[0].sep + Spell(ws[1..])
  }

  /** The token a written term stands for. */
  function TokenOf(w: Written): Token
  {
    Token(Text.DecimalValue(w.digits), w.unit)
  }

  /** The tokens that written terms stand for. */
  function Meant(ws: seq<Written>): (ts: seq<Token>)
    ensures |ts| == |ws|
  {
    if ws == [] then [] else [TokenOf(ws[0])] + Meant(ws[1..])
  }

  /** Every count is a uint64. */
  predicate CountsFit(ts: seq<Token>)
  {
    forall k :: 0 <= k < |ts| ==> ts[k].count <= Max
  }

  /** Skipping the characters of a class from `i` gets as far as from any later point of the same run. */
  lemma {:induction false} RunEndSkip(t: string, i: nat, j: nat, cls: CharClass)
    requires i <= j <= |t|
    requires forall k :: i <= k < j ==> InClass(t[k], cls)
    ensures RunEnd(t, i, cls) == RunEnd(t, j, cls)
    decreases j - i
  {
    if i < j {
      RunEndSkip(t, i + 1, j, cls);
    }
  }

  /** Whitespace in front of a term does not change what is read. */
  lemma TokensSkipBlank(t: string, e: nat, f: nat)
    requires e <= f <= |t|
    requires forall k :: e <= k < f ==> InClass(t[k], Spaces)
    ensures Tokens(t, e) == Tokens(t, f)
  {
    RunEndSkip(t, e, f, Spaces);
    assert Step(t, e) == Step(t, f);
  }

  /** The scanner never passes a character outside the class it skips. */
  lemma {:induction false} RunEndStops(t: string, i: nat, k: nat, cls: CharClass)
    requires i <= k < |t| && !InClass(t[k], cls)
    ensures RunEnd(t, i, cls) <= k
    decreases k - i
  {
    if i < k && InClass(t[i], cls) {
      RunEndStops(t, i + 1, k, cls);
    }
  }

  /**
   * A character outside ASCII stops the scanner, which reads the UTF-8
   * bytes: it is no whitespace, no digit and no unit, so reading fails from
   * any position before it.
   */
  lemma {:induction false} NonAsciiStops(t: string, i: nat, k: nat)
    requires i <= k < |t| && t[k] as int >= 0x80
    ensures Tokens(t, i).None?
    decreases |t| - i
  {
    var a := RunEnd(t, i, Spaces);
    RunEndStops(t, i, k, Spaces);
    var s := Step(t, i);
    if s.Term? {
      var b := RunEnd(t, a, Digits);
      RunEndStops(t, a, k, Digits);
      var c := RunEnd(t, b, Spaces);
      RunEndStops(t, b, k, Spaces);
      assert t[c..][0] == t[c];
      if c + 1 < |t| {
        assert t[c..][1] == t[c + 1];
      }
      assert s.next <= k;
      NonAsciiStops(t, s.next, k);
    }
  }

  /** A character outside ASCII anywhere in the trimmed text makes the whole string worth 0. */
  lemma NonAsciiIsZero(s: string, k: nat)
    requires k < |Text.TrimSpace(s)| && Text.TrimSpace(s)[k] as int >= 0x80
    ensures ValidityValue(s) == 0
  {
    NonAsciiStops(Text.TrimSpace(s), 0, k);
  }

  /** A unit name is neither a digit nor whitespace at its start, nor whitespace at its end. */
  lemma UnitNameStart(u: Unit)
    ensures |UnitName(u)| >= 1 && !Text.IsDigit(UnitName(u)[0])
    ensures !Text.IsSpace(UnitName(u)[0]) && !Text.IsAsciiSpace(UnitName(u)[0])
    ensures !Text.IsSpace(UnitName(u)[|UnitName(u)| - 1])
  {
  }

  /** `t` holds `s` at position `i`. */
  predicate Holds(t: string, i: nat, s: string)
  {
    i + |s| <= |t| && forall k :: 0 <= k < |s| ==> t[i + k] == s[k]
  }

  /** A text holds its own suffix. */
  lemma HoldsSuffix(t: string, i: nat)
    requires i <= |t|
    ensures Holds(t, i, t[i..])
  {
    forall k | 0 <= k < |t| - i
      ensures t[i + k] == t[i..][k]
    {
    }
  }

  /** What `t` holds at position `i` is the slice there. */
  lemma HoldsSlice(t: string, i: nat, s: string)
    requires Holds(t, i, s)
    ensures t[i..i + |s|] == s
  {
    forall k | 0 <= k < |s|
      ensures t[i..i + |s|][k] == s[k]
    {
      assert t[i..i + |s|][k] == t[i + k];
    }
  }

  /** Three sequences held one after the other at position `i` are each held at their place. */
  lemma Holds3(t: string, i: nat, s: string, a: string, b: string, c: string)
    requires Holds(t, i, s) && s == a + b + c
    ensures Holds(t, i, a) && Holds(t, i + |a|, b) && Holds(t, i + |a| + |b|, c)
  {
    forall k | 0 <= k < |a|
      ensures t[i + k] == a[k]
    {
      assert (a + b + c)[k] == a[k];
    }
    forall k | 0 <= k < |b|
      ensures t[i + |a| + k] == b[k]
    {
      assert (a + b + c)[|a| + k] == b[k];
    }
    forall k | 0 <= k < |c|
      ensures t[i + |a| + |b| + k] == c[k]
    {
      assert (a + b + c)[|a| + |b| + k] == c[k];
    }
  }

  /** A unit name followed by the end of the text or by anything but an 'o' is read as that unit. */
  lemma UnitNameAt(t: string, c: nat, u: Unit)
    requires Holds(t, c, UnitName(u))
    requires c + |UnitName(u)| == |t| || t[c + |UnitName(u)|] != 'o'
    ensures UnitPrefix(t[c..]) == Some((u, |UnitName(u)|))
  {
    var name := UnitName(u);
    assert t[c + 0] == name[0];
    assert t[c..][0] == t[c];
    if u == Month {
      assert t[c + 1] == name[1];
      assert t[c..][1] == t[c + 1];
    } else if c + 1 < |t| {
      assert t[c..][1] == t[c + 1];
    }
  }

  /** Digits `d` held at position `i` are a run of digits. */
  lemma DigitsRun(t: string, i: nat, d: string)
    requires Text.AllDigits(d) && Holds(t, i, d)
    ensures forall k :: i <= k < i + |d| ==> InClass(t[k], Digits)
  {
    forall k | i <= k < i + |d|
      ensures InClass(t[k], Digits)
    {
      assert t[i + (k - i)] == d[k - i];
    }
  }

  /** Whitespace `g` held at position `e` is a run of the class the scanner skips. */
  lemma BlankRun(t: string, e: nat, g: string)
    requires Blank(g) && Holds(t, e, g)
    ensures forall k :: e <= k < e + |g| ==> InClass(t[k], Spaces)
  {
    forall k | e <= k < e + |g|
      ensures InClass(t[k], Spaces)
    {
      assert t[e + (k - e)] == g[k - e];
    }
  }

  /**
   * A term laid out by position: digits on [i, b), whitespace on [b, c) and
   * the name of unit `u` at `c`, followed by the end of the text or by
   * anything but an 'o', is read as that term.
   */
  lemma TermRead(t: string, i: nat, b: nat, c: nat, u: Unit)
    requires i < b <= c && c + |UnitName(u)| <= |t|
    requires forall k :: i <= k < b ==> InClass(t[k], Digits)
    requires forall k :: b <= k < c ==> InClass(t[k], Spaces)
    requires Holds(t, c, UnitName(u))
    requires c + |UnitName(u)| == |t| || t[c + |UnitName(u)|] != 'o'
    ensures Step(t, i) == ScanOf(Token(Text.DecimalValue(t[i..b]), u), c + |UnitName(u)|)
  {
    var name := UnitName(u);
    assert !InClass(t[c], Digits) && !InClass(t[c], Spaces) by {
      UnitNameStart(u);
      assert t[c + 0] == name[0];
    }
    assert InClass(t[i], Digits);
    RunEndAt(t, i, i, Spaces);
    if b < c {
      assert InClass(t[b], Spaces);
    }
    RunEndAt(t, i, b, Digits);
    RunEndAt(t, b, c, Spaces);
    UnitNameAt(t, c, u);
    var n := Text.DecimalValue(t[i..b]);
    if n <= Max {
      StepTerm(t, i, b, c, n, u, |name|);
    } else {
      StepOverflow(t, i, b);
    }
  }

  /** One term held at position `i`, followed by the end of the text or by anything but an 'o', is read as that term. */
  lemma WordAt(t: string, i: nat, w: Written)
    requires w.digits != [] && Text.AllDigits(w.digits) && Blank(w.gap)
    requires Holds(t, i, Word(w))
    requires i + |Word(w)| == |t| || t[i + |Word(w)|] != 'o'
    ensures Step(t, i) == ScanOf(TokenOf(w), i + |Word(w)|)
  {
    var b := i + |w.digits|;
    Holds3(t, i, Word(w), w.digits, w.gap, UnitName(w.unit));
    DigitsRun(t, i, w.digits);
    BlankRun(t, b, w.gap);
    HoldsSlice(t, i, w.digits);
    TermRead(t, i, b, b + |w.gap|, w.unit);
  }

  /** A scan that finds no leading whitespace, digits up to `b` worth at most Max, whitespace up to `c` and a unit there reads that term. */
  lemma StepTerm(t: string, i: nat, b: nat, c: nat, n: nat, u: Unit, len: nat)
    requires i < b <= c < |t|
    requires RunEnd(t, i, Spaces) == i && RunEnd(t, i, Digits) == b && Text.DecimalValue(t[i..b]) == n <= Max
    requires RunEnd(t, b, Spaces) == c && UnitPrefix(t[c..]) == Some((u, len))
    ensures Step(t, i) == Term(n, u, Seconds(u), c + len)
  {
  }

  /** A scan that finds no leading whitespace and digits up to `b` worth more than Max is malformed. */
  lemma StepOverflow(t: string, i: nat, b: nat)
    requires i < b <= |t|
    requires RunEnd(t, i, Spaces) == i && RunEnd(t, i, Digits) == b && Text.DecimalValue(t[i..b]) > Max
    ensures Step(t, i) == Malformed
  {
  }

  /** The scan that reads `tok` and stops at `next`: malformed when its count overflows. */
  function ScanOf(tok: Token, next: nat): Scan
  {
    if tok.count <= Max then Term(tok.count, tok.unit, Seconds(tok.unit), next) else Malformed
  }

  /** A term read from position `i` and followed by whitespace up to `f`, after which reading goes on. */
  lemma TokensWord(t: string, i: nat, tok: Token, e: nat, f: nat)
    requires i < e <= f <= |t| && Step(t, i) == ScanOf(tok, e)
    requires forall k :: e <= k < f ==> InClass(t[k], Spaces)
    ensures Tokens(t, i) == Lead(tok, Tokens(t, f))
  {
    TokensSkipBlank(t, e, f);
  }

  /** Several written terms held at position `i` are the first one, its separator and the rest. */
  lemma SpellFirst(t: string, i: nat, ws: seq<Written>)
    requires |ws| >= 2 && Holds(t, i, Spell(ws))
    ensures Holds(t, i, Word(ws[0])) && Holds(t, i + |Word(ws[0])|, ws[0].sep)
    ensures Holds(t, i + |Word(ws[0])| + |ws[0].sep|, Spell(ws[1..]))
  {
    Holds3(t, i, Spell(ws), Word(ws[0]), ws[0].sep, Spell(ws[1..]));
  }

  /** A single written term at the end of a text: its token, or nothing when its count overflows. */
  lemma SpellSingle(t: string, i: nat, w: Written)
    requires w.digits != [] && Text.AllDigits(w.digits) && Blank(w.gap)
    requires Holds(t, i, Word(w)) && i + |Word(w)| == |t|
    ensures Tokens(t, i) == if TokenOf(w).count <= Max then Some([TokenOf(w)]) else None
  {
    var tok := TokenOf(w);
    WordAt(t, i, w);
    assert Tokens(t, |t|) == Some([]) by {
      RunEndAt(t, |t|, |t|, Spaces);
    }
    if tok.count <= Max {
      assert Tokens(t, i) == Prepend([tok], Tokens(t, |t|));
      assert [tok] + [] == [tok];
    }
  }

  /** One written term from position `i` to the end of the text. */
  lemma TokensSingle(t: string, i: nat, ws: seq<Written>)
    requires |ws| == 1 && WellWritten(ws) && i <= |t| && SpelledAt(t, i, ws)
    ensures ReadsAs(t, i, ws)
  {
    var w := ws[0];
    SpellSingle(t, i, w);
    var tok := TokenOf(w);
    assert Meant(ws) == [tok];
    assert CountsFit([tok]) <==> tok.count <= Max by {
      assert [tok][0] == tok;
    }
  }

  lemma CountsFitCons(ts: seq<Token>)
    requires ts != []
    ensures CountsFit(ts) <==> ts[0].count <= Max && CountsFit(ts[1..])
  {
    if ts[0].count <= Max && CountsFit(ts[1..]) {
      forall k | 0 <= k < |ts|
        ensures ts[k].count <= Max
      {
        if k > 0 {
          assert ts[k] == ts[1..][k - 1];
        }
      }
    }
    if CountsFit(ts) {
      forall k | 0 <= k < |ts[1..]|
        ensures ts[1..][k].count <= Max
      {
        assert ts[1..][k] == ts[k + 1];
      }
    }
  }

  /** `t` holds the written terms from position `i` to its end, each but the last followed by its separator. */
  predicate SpelledAt(t: string, i: nat, ws: seq<Written>)
    decreases |ws|
  {
    if ws == [] then i == |t|
    else
      var e := i + |Word(ws[0])|;
      Holds(t, i, Word(ws[0])) &&
      if |ws| == 1 then e == |t|
      else Holds(t, e, ws[0].sep) && SpelledAt(t, e + |ws[0].sep|, ws[1..])
  }

  /** Spelling written terms puts them at the end of the text. */
  lemma {:induction false} SpellSpelled(t: string, i: nat, ws: seq<Written>)
    requires Holds(t, i, Spell(ws)) && i + |Spell(ws)| == |t|
    ensures SpelledAt(t, i, ws)
    decreases |ws|
  {
    if |ws| >= 2 {
      SpellFirst(t, i, ws);
      SpellSpelled(t, i + |Word(ws[0])| + |ws[0].sep|, ws[1..]);
    }
  }

  /** Reading from position `i` gives the tokens the written terms stand for when every count is a uint64, and nothing otherwise. */
  predicate ReadsAs(t: string, i: nat, ws: seq<Written>)
    requires i <= |t|
  {
    Tokens(t, i) == if CountsFit(Meant(ws)) then Some(Meant(ws)) else None
  }

  /** Written terms at the end of a text are read back as the tokens they stand for, as long as every count is a uint64. */
  lemma {:induction false} TokensSpell(t: string, i: nat, ws: seq<Written>)
    requires WellWritten(ws) && i <= |t| && SpelledAt(t, i, ws)
    ensures ReadsAs(t, i, ws)
    decreases |ws|
  {
    if ws == [] {
      assert Step(t, i) == AtEnd;
    } else if |ws| == 1 {
      TokensSingle(t, i, ws);
    } else {
      SpelledCons(t, i, ws);
      TokensSpell(t, i + |Word(ws[0])| + |ws[0].sep|, ws[1..]);
      TokensCons(t, i, ws);
    }
  }

  /** Several written terms are the first one, its separator and the rest, which starts with a digit. */
  lemma SpelledCons(t: string, i: nat, ws: seq<Written>)
    requires |ws| >= 2 && WellWritten(ws) && SpelledAt(t, i, ws)
    ensures WrittenOk(ws[0]) && WellWritten(ws[1..]) && SepAt(t, i, ws[0])
    ensures SpelledAt(t, i + |Word(ws[0])| + |ws[0].sep|, ws[1..])
  {
    var f := i + |Word(ws[0])| + |ws[0].sep|;
    var w := ws[1];
    assert ws[1..][0] == w;
    assert Holds(t, f, Word(w));
    assert t[f + 0] == Word(w)[0] == w.digits[0];
  }

  /** Term `w` held at position `i`, then its separator, then a digit. */
  predicate SepAt(t: string, i: nat, w: Written)
  {
    var e := i + |Word(w)|;
    Holds(t, i, Word(w)) && Holds(t, e, w.sep) && e + |w.sep| < |t| && Text.IsDigit(t[e + |w.sep|])
  }

  /** A term followed by its separator and a digit is read, then reading goes on after the separator. */
  lemma WordThenSep(t: string, i: nat, w: Written)
    requires WrittenOk(w) && SepAt(t, i, w)
    ensures Tokens(t, i) == Lead(TokenOf(w), Tokens(t, i + |Word(w)| + |w.sep|))
  {
    var e := i + |Word(w)|;
    var f := e + |w.sep|;
    assert Step(t, i) == ScanOf(TokenOf(w), e) by {
      assert t[e] != 'o' by {
        if w.sep != [] {
          assert t[e + 0] == w.sep[0];
        }
      }
      WordAt(t, i, w);
    }
    BlankRun(t, e, w.sep);
    TokensWord(t, i, TokenOf(w), e, f);
  }

  /** The first of several written terms is read, then the rest. */
  lemma TokensCons(t: string, i: nat, ws: seq<Written>)
    requires |ws| >= 2 && WrittenOk(ws[0]) && SepAt(t, i, ws[0])
    requires ReadsAs(t, i + |Word(ws[0])| + |ws[0].sep|, ws[1..])
    ensures ReadsAs(t, i, ws)
  {
    WordThenSep(t, i, ws[0]);
    var tok := TokenOf(ws[0]);
    var ms := Meant(ws[1..]);
    ReadCons(Tokens(t, i), Tokens(t, i + |Word(ws[0])| + |ws[0].sep|), tok, ms);
    assert Meant(ws) == [tok] + ms;
  }

  /** What is read when a term is followed by the rest of the text: nothing when its count overflows. */
  function Lead(tok: Token, rest: Option<seq<Token>>): Option<seq<Token>>
  {
    if tok.count <= Max then Prepend([tok], rest) else None
  }

  /** Reading one term in front of a list of terms, stated on the results alone. */
  lemma ReadCons(here: Option<seq<Token>>, next: Option<seq<Token>>, tok: Token, rest: seq<Token>)
    requires here == Lead(tok, next)
    requires CountsFit(rest) ==> next == Some(rest)
    requires !CountsFit(rest) ==> next == None
    ensures CountsFit([tok] + rest) ==> here == Some([tok] + rest)
    ensures !CountsFit([tok] + rest) ==> here == None
  {
    var ts := [tok] + rest;
    CountsFitCons(ts);
    assert ts[1..] == rest;
  }

  lemma {:induction false} SpellEnds(ws: seq<Written>)
    requires WellWritten(ws) && ws != []
    ensures |Spell(ws)| > 0 && !Text.IsSpace(Spell(ws)[0]) && !Text.IsSpace(Spell(ws)[|Spell(ws)| - 1])
    decreases |ws|
  {
    UnitNameStart(ws[0].unit);
    var p := Word(ws[0]);
    assert p[0] == ws[0].digits[0];
    assert p[|p| - 1] == UnitName(ws[0].unit)[|UnitName(ws[0].unit)| - 1];
    if |ws| >= 2 {
      SpellEnds(ws[1..]);
      var r := Spell(ws[1..]);
      assert Spell(ws) == p + ws[0].sep + r;
      assert Spell(ws)[0] == p[0];
      assert Spell(ws)[|Spell(ws)| - 1] == r[|r| - 1];
    }
  }

  /** Each term is at most the total. */
  lemma {:induction false} TermBound(ts: seq<Token>, k: nat)
    requires k < |ts|
    ensures ts[k].count <= Value(ts[k]) <= Sum(ts)
    decreases |ts|
  {
    MulAwayFromZero(Seconds(ts[k].unit), ts[k].count);
    if k < |ts| - 1 {
      TermBound(ts[..|ts| - 1], k);
    }
  }

  /**
   * Terms written with decimal counts and unit names, with any ASCII
   * whitespace between number and unit and any, possibly none, between
   * terms, are worth the exact sum of their seconds when it fits a uint64,
   * and 0 otherwise.
   */
  lemma SpellRoundTrip(ws: seq<Written>)
    requires WellWritten(ws)
    ensures ValidityValue(Spell(ws)) == if Sum(Meant(ws)) <= Max then Sum(Meant(ws)) else 0
  {
    var f := Spell(ws);
    if ws != [] {
      SpellEnds(ws);
    }
    Seqs.TrimNoop(f, Text.IsSpace);
    assert f[0..] == f;
    HoldsSuffix(f, 0);
    SpellSpelled(f, 0, ws);
    TokensSpell(f, 0, ws);
    var ts := Meant(ws);
    if Sum(ts) <= Max {
      forall k | 0 <= k < |ts|
        ensures ts[k].count <= Max
      {
        TermBound(ts, k);
      }
    }
  }

  /** The canonical spelling of tokens: decimal counts without leading zeros. */
  function Canonical(ts: seq<Token>): (ws: seq<Written>)
    ensures |ws| == |ts|
  {
    if ts == [] then [] else [Written(Text.NatToDecimal(ts[0].count), "", ts[0].unit, " ")] + Canonical(ts[1..])
  }

  /** The canonical spelling is well written and stands for the tokens it spells. */
  lemma {:induction false} CanonicalMeant(ts: seq<Token>)
    ensures WellWritten(Canonical(ts)) && Meant(Canonical(ts)) == ts
    decreases |ts|
  {
    if ts != [] {
      CanonicalMeant(ts[1..]);
      var ws := Canonical(ts);
      assert ws[1..] == Canonical(ts[1..]);
      Text.DecimalRoundTrip(ts[0].count);
      assert Blank(ws[0].sep) by {
        assert ws[0].sep == " ";
      }
      assert ts == [ts[0]] + ts[1..];
    }
  }

  /**
   * Printing tokens in the canonical form and parsing the text gives their
   * exact sum in seconds when it fits a uint64, and 0 otherwise.
   */
  lemma FormatRoundTrip(ts: seq<Token>)
    ensures ValidityValue(Spell(Canonical(ts))) == if Sum(ts) <= Max then Sum(ts) else 0
  {
    CanonicalMeant(ts);
    SpellRoundTrip(Canonical(ts));
  }
}
