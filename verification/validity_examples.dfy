/**
 * Worked examples of ParseEJBCAValidity (config/iniFileHandler.go). Each
 * text is scanned position by position in a lemma over its characters; its
 * value is then read off the tokens.
 */
module ValidityExamples {
  import opened Wrappers
  import opened Validity
  import Text
  import Seqs

  /** Reading from position `i` is what one scan there finds, followed by the rest. */
  lemma TokensOfStep(t: string, i: nat)
    requires i <= |t|
    ensures Step(t, i).Malformed? ==> Tokens(t, i).None?
    ensures Step(t, i).AtEnd? ==> Tokens(t, i) == Some([])
    ensures Step(t, i).Term? ==>
              Tokens(t, i) == Prepend([Token(Step(t, i).n, Step(t, i).unit)], Tokens(t, Step(t, i).next))
  {
  }

  /** The value of a text with nothing to trim, from its tokens. */
  lemma ValueOfTokens(s: string, ts: seq<Token>)
    requires s != [] && !Text.IsSpace(s[0]) && !Text.IsSpace(s[|s| - 1])
    ensures Tokens(s, 0).None? ==> ValidityValue(s) == 0
    ensures Tokens(s, 0) == Some(ts) ==> ValidityValue(s) == if Sum(ts) <= Max then Sum(ts) else 0
  {
    Seqs.TrimNoop(s, Text.IsSpace);
  }

  /** The sum of one term. */
  lemma SumOne(a: Token)
    ensures Sum([a]) == Value(a)
  {
    assert [a][..0] == [];
  }

  /** The sum of two terms. */
  lemma SumTwo(a: Token, b: Token)
    ensures Sum([a, b]) == Value(a) + Value(b)
  {
    assert [a, b][..1] == [a];
    SumOne(a);
  }

  /** A text of four characters from "1min": "m" is read as minutes, and then "in" is no number. */
  lemma ScanMin(t: string)
    requires |t| == 4 && t[0] == '1' && t[1] == 'm' && t[2] == 'i' && t[3] == 'n'
    ensures Step(t, 0) == Term(1, Minute, SecPerMinute, 2) && Step(t, 2) == Malformed
  {
    assert Step(t, 0) == Term(1, Minute, SecPerMinute, 2) by {
      RunEndAt(t, 0, 0, Spaces);
      RunEndAt(t, 0, 1, Digits);
      assert Text.DecimalValue(t[0..1]) == 1;
      RunEndAt(t, 1, 1, Spaces);
    }
    assert Step(t, 2) == Malformed by {
      RunEndAt(t, 2, 2, Spaces);
      RunEndAt(t, 2, 2, Digits);
    }
  }

  /** The text "1min" is worth 0: the unknown unit voids the whole string and no partial total is kept. */
  lemma UnknownUnitIsZero(t: string)
    requires |t| == 4 && t[0] == '1' && t[1] == 'm' && t[2] == 'i' && t[3] == 'n'
    ensures ValidityValue(t) == 0
  {
    ScanMin(t);
    TokensOfStep(t, 2);
    TokensOfStep(t, 0);
    ValueOfTokens(t, []);
  }

  /** The first term of "1d2h": the day unit ends where the next number starts. */
  lemma ScanDay(t: string)
    requires |t| == 4 && t[0] == '1' && t[1] == 'd' && t[2] == '2' && t[3] == 'h'
    ensures Step(t, 0) == Term(1, Day, SecPerDay, 2)
  {
    RunEndAt(t, 0, 0, Spaces);
    RunEndAt(t, 0, 1, Digits);
    assert Text.DecimalValue(t[0..1]) == 1;
    RunEndAt(t, 1, 1, Spaces);
  }

  /** The second term of "1d2h", read right after the first, and the end of the text. */
  lemma ScanHour(t: string)
    requires |t| == 4 && t[0] == '1' && t[1] == 'd' && t[2] == '2' && t[3] == 'h'
    ensures Step(t, 2) == Term(2, Hour, SecPerHour, 4)
  {
    RunEndAt(t, 2, 2, Spaces);
    RunEndAt(t, 2, 3, Digits);
    assert Text.DecimalValue(t[2..3]) == 2;
    RunEndAt(t, 3, 3, Spaces);
  }

  /** The text "1d2h" is one day and two hours: a number may follow a unit directly. */
  lemma UnitThenNumber(t: string)
    requires |t| == 4 && t[0] == '1' && t[1] == 'd' && t[2] == '2' && t[3] == 'h'
    ensures ValidityValue(t) == SecPerDay + 2 * SecPerHour
  {
    ScanDay(t);
    ScanHour(t);
    RunEndAt(t, 4, 4, Spaces);
    TokensOfStep(t, 4);
    TokensOfStep(t, 2);
    TokensOfStep(t, 0);
    var ts := [Token(1, Day), Token(2, Hour)];
    assert [Token(1, Day)] + ([Token(2, Hour)] + []) == ts;
    SumTwo(Token(1, Day), Token(2, Hour));
    ValueOfTokens(t, ts);
  }

  /** "2mo" is read as months. */
  lemma ScanMonth(t: string)
    requires |t| == 3 && t[0] == '2' && t[1] == 'm' && t[2] == 'o'
    ensures Step(t, 0) == Term(2, Month, SecPerMonth, 3)
  {
    RunEndAt(t, 0, 0, Spaces);
    RunEndAt(t, 0, 1, Digits);
    assert Text.DecimalValue(t[0..1]) == 2;
    RunEndAt(t, 1, 1, Spaces);
  }

  /** "2m" is read as minutes. */
  lemma ScanMinute(u: string)
    requires |u| == 2 && u[0] == '2' && u[1] == 'm'
    ensures Step(u, 0) == Term(2, Minute, SecPerMinute, 2)
  {
    RunEndAt(u, 0, 0, Spaces);
    RunEndAt(u, 0, 1, Digits);
    assert Text.DecimalValue(u[0..1]) == 2;
    RunEndAt(u, 1, 1, Spaces);
  }

  /** The text "2mo" is two months: "mo" is tried before "m". */
  lemma MonthsBeforeMinutes(t: string)
    requires |t| == 3 && t[0] == '2' && t[1] == 'm' && t[2] == 'o'
    ensures ValidityValue(t) == 2 * SecPerMonth
  {
    ScanMonth(t);
    RunEndAt(t, 3, 3, Spaces);
    TokensOfStep(t, 3);
    TokensOfStep(t, 0);
    assert [Token(2, Month)] + [] == [Token(2, Month)];
    SumOne(Token(2, Month));
    ValueOfTokens(t, [Token(2, Month)]);
  }

  /** The text "2m" is two minutes. */
  lemma MinutesAlone(u: string)
    requires |u| == 2 && u[0] == '2' && u[1] == 'm'
    ensures ValidityValue(u) == 2 * SecPerMinute
  {
    ScanMinute(u);
    RunEndAt(u, 2, 2, Spaces);
    TokensOfStep(u, 2);
    TokensOfStep(u, 0);
    assert [Token(2, Minute)] + [] == [Token(2, Minute)];
    SumOne(Token(2, Minute));
    ValueOfTokens(u, [Token(2, Minute)]);
  }

  /** The scan of "5": a number that the text ends after. */
  lemma ScanNumberOnly(t: string)
    requires |t| == 1 && t[0] == '5'
    ensures Step(t, 0) == Malformed
  {
    RunEndAt(t, 0, 0, Spaces);
    RunEndAt(t, 0, 1, Digits);
    assert Text.DecimalValue(t[0..1]) == 5;
    RunEndAt(t, 1, 1, Spaces);
  }

  /** The text "5", a number without a unit, is worth 0. */
  lemma MissingUnitIsZero(t: string)
    requires |t| == 1 && t[0] == '5'
    ensures ValidityValue(t) == 0
  {
    ScanNumberOnly(t);
    TokensOfStep(t, 0);
    ValueOfTokens(t, []);
  }

  /**
   * The text "1\u00A0d", a no-break space between number and unit, is worth
   * 0: it survives the trim, and its UTF-8 bytes are no ASCII whitespace.
   */
  lemma NoBreakSpaceIsZero(t: string)
    requires |t| == 3 && t[0] == '1' && t[1] == '\U{A0}' && t[2] == 'd'
    ensures ValidityValue(t) == 0
  {
    NonAsciiStops(t, 0, 1);
    ValueOfTokens(t, []);
  }
}
