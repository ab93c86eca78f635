/** The shape each validator of lab_3/lr3.py accepts, written out by hand as
    lengths, digit positions and literal separators, and proved equal, for
    every string, to the language of the transcribed pattern. */
module Shapes {
  import opened Text
  import opened Regex
  import opened Patterns

  // ---------------------------------------------------------------------
  // Templates: patterns that fix one character class per position

  /** The language of `r` is exactly the strings that follow `t`. */
  ghost predicate Denotes(r: Regex, t: string)
  {
    forall x :: Matches(r, x) <==> Fits(x, t)
  }

  lemma CatDenotes(a: Regex, b: Regex, ta: string, tb: string)
    requires Denotes(a, ta) && Denotes(b, tb)
    ensures Denotes(Cat(a, b), ta + tb)
  {
    forall x
      ensures Matches(Cat(a, b), x) <==> Fits(x, ta + tb)
    {
      FitsCat(x, ta, tb);
      if Matches(Cat(a, b), x) {
        var k :| 0 <= k <= |x| && Matches(a, x[..k]) && Matches(b, x[k..]);
        assert k == |ta|;
      }
      if Fits(x, ta + tb) {
        assert Matches(a, x[..|ta|]) && Matches(b, x[|ta|..]);
      }
    }
  }

  lemma StrDenotes(w: string)
    requires DIGIT_SLOT !in w
    ensures Denotes(Str(w), w)
  {
    forall x
      ensures Matches(Str(w), x) <==> Fits(x, w)
    {
      StrMatches(w, x);
      FitsLiteral(x, w);
    }
  }

  lemma CharDenotes(c: char)
    requires c != DIGIT_SLOT
    ensures Denotes(Char(c), [c])
  {
    forall x
      ensures Matches(Char(c), x) <==> Fits(x, [c])
    {
      CharMatches(c, x);
      FitsLiteral(x, [c]);
    }
  }

  lemma DigitDenotes()
    ensures Denotes(DIGIT, [DIGIT_SLOT])
  {
  }

  lemma DigitsMatch(n: nat, s: string)
    ensures Matches(Times(DIGIT, n), s) <==> |s| == n && AllDigits(s)
  {
    TimesMatches(DIGITS, n, s);
  }

  lemma DigitsDenotes(n: nat, t: string)
    requires |t| == n && forall i :: 0 <= i < n ==> t[i] == DIGIT_SLOT
    ensures Denotes(Times(DIGIT, n), t)
  {
    forall x
      ensures Matches(Times(DIGIT, n), x) <==> Fits(x, t)
    {
      DigitsMatch(n, x);
    }
  }

  // ---------------------------------------------------------------------
  // telephone: `+7-(DDD)-DDD-DD-DD`

  const TELEPHONE_FORM := "+7-(###)-###-##-##"

  predicate IsTelephone(s: string)
  {
    Fits(s, TELEPHONE_FORM)
  }

  lemma TelephoneShape(s: string)
    ensures Matches(TELEPHONE, s) <==> IsTelephone(s)
  {
    var d2 := Times(DIGIT, 2);
    var d3 := Times(DIGIT, 3);
    StrDenotes("+7-(");
    StrDenotes(")-");
    CharDenotes('-');
    DigitsDenotes(2, "##");
    DigitsDenotes(3, "###");
    CatDenotes(Char('-'), d2, "-", "##");
    CatDenotes(d2, Cat(Char('-'), d2), "##", "-" + "##");
    CatDenotes(Char('-'), Cat(d2, Cat(Char('-'), d2)), "-", "##" + ("-" + "##"));
    assert "-" + ("##" + ("-" + "##")) == "-##-##";
    CatDenotes(d3, Cat(Char('-'), Cat(d2, Cat(Char('-'), d2))), "###", "-##-##");
    CatDenotes(Str(")-"), Cat(d3, Cat(Char('-'), Cat(d2, Cat(Char('-'), d2)))), ")-", "###" + "-##-##");
    assert ")-" + ("###" + "-##-##") == ")-###-##-##";
    CatDenotes(d3, Cat(Str(")-"), Cat(d3, Cat(Char('-'), Cat(d2, Cat(Char('-'), d2))))), "###", ")-###-##-##");
    CatDenotes(Str("+7-("), Cat(d3, Cat(Str(")-"), Cat(d3, Cat(Char('-'), Cat(d2, Cat(Char('-'), d2)))))),
      "+7-(", "###" + ")-###-##-##");
    assert "+7-(" + ("###" + ")-###-##-##") == TELEPHONE_FORM;
  }

  // ---------------------------------------------------------------------
  // inn: twelve digits

  const INN_FORM := "############"

  predicate IsInn(s: string)
  {
    Fits(s, INN_FORM)
  }

  lemma InnShape(s: string)
    ensures Matches(INN, s) <==> IsInn(s)
  {
    DigitsDenotes(12, INN_FORM);
  }

  // ---------------------------------------------------------------------
  // identifier: `DD-DD/DD`

  const IDENTIFIER_FORM := "##-##/##"

  predicate IsIdentifier(s: string)
  {
    Fits(s, IDENTIFIER_FORM)
  }

  lemma IdentifierShape(s: string)
    ensures Matches(IDENTIFIER, s) <==> IsIdentifier(s)
  {
    var d2 := Times(DIGIT, 2);
    DigitsDenotes(2, "##");
    CharDenotes('-');
    CharDenotes('/');
    CatDenotes(Char('/'), d2, "/", "##");
    CatDenotes(d2, Cat(Char('/'), d2), "##", "/" + "##");
    CatDenotes(Char('-'), Cat(d2, Cat(Char('/'), d2)), "-", "##" + ("/" + "##"));
    CatDenotes(d2, Cat(Char('-'), Cat(d2, Cat(Char('/'), d2))), "##", "-" + ("##" + ("/" + "##")));
    assert "##" + ("-" + ("##" + ("/" + "##"))) == IDENTIFIER_FORM;
  }

  // ---------------------------------------------------------------------
  // issn: `DDDD-DDDD`

  const ISSN_FORM := "####-####"

  predicate IsIssn(s: string)
  {
    Fits(s, ISSN_FORM)
  }

  lemma IssnShape(s: string)
    ensures Matches(ISSN, s) <==> IsIssn(s)
  {
    var d4 := Times(DIGIT, 4);
    DigitsDenotes(4, "####");
    CharDenotes('-');
    CatDenotes(Char('-'), d4, "-", "####");
    CatDenotes(d4, Cat(Char('-'), d4), "####", "-" + "####");
    assert "####" + ("-" + "####") == ISSN_FORM;
  }

  // ---------------------------------------------------------------------
  // isbn: `D-DDDDD-DDD-D`, optionally after `DDD-`

  const ISBN_FORM := "#-#####-###-#"
  const ISBN_PREFIX_FORM := "###-"

  predicate IsIsbn(s: string)
  {
    Fits(s, ISBN_FORM) || Fits(s, ISBN_PREFIX_FORM + ISBN_FORM)
  }

  lemma IsbnShape(s: string)
    ensures Matches(ISBN, s) <==> IsIsbn(s)
  {
    var d3 := Times(DIGIT, 3);
    var d5 := Times(DIGIT, 5);
    DigitDenotes();
    DigitsDenotes(3, "###");
    DigitsDenotes(5, "#####");
    CharDenotes('-');
    var r3 := Cat(Char('-'), DIGIT);
    CatDenotes(Char('-'), DIGIT, "-", "#");
    var r2 := Cat(d3, r3);
    CatDenotes(d3, r3, "###", "-" + "#");
    var r1 := Cat(Char('-'), r2);
    CatDenotes(Char('-'), r2, "-", "###" + ("-" + "#"));
    var r0 := Cat(d5, r1);
    CatDenotes(d5, r1, "#####", "-" + ("###" + ("-" + "#")));
    var core0 := Cat(Char('-'), r0);
    CatDenotes(Char('-'), r0, "-", "#####" + ("-" + ("###" + ("-" + "#"))));
    var core := Cat(DIGIT, core0);
    CatDenotes(DIGIT, core0, "#", "-" + ("#####" + ("-" + ("###" + ("-" + "#")))));
    assert "#" + ("-" + ("#####" + ("-" + ("###" + ("-" + "#"))))) == ISBN_FORM;
    var prefix := Cat(d3, Char('-'));
    CatDenotes(d3, Char('-'), "###", "-");
    assert "###" + "-" == ISBN_PREFIX_FORM;
    CatDenotes(prefix, core, ISBN_PREFIX_FORM, ISBN_FORM);
    CatOptLeft(prefix, core, s);
  }

  // ---------------------------------------------------------------------
  // uuid: 36 characters from `[a-f0-9\-]`

  predicate IsHexOrHyphen(c: char)
  {
    'a' <= c <= 'f' || IsDigit(c) || c == '-'
  }

  predicate IsUuid(s: string)
  {
    |s| == 36 && forall i :: 0 <= i < |s| ==> IsHexOrHyphen(s[i])
  }

  lemma HexOrHyphenClass(c: char)
    ensures InClass(c, HEX_OR_HYPHEN) <==> IsHexOrHyphen(c)
  {
    if 'a' <= c <= 'f' {
      assert CharRange('a', 'f') in HEX_OR_HYPHEN;
    } else if IsDigit(c) {
      assert CharRange('0', '9') in HEX_OR_HYPHEN;
    } else if c == '-' {
      assert CharRange('-', '-') in HEX_OR_HYPHEN;
    }
  }

  lemma UuidShape(s: string)
    ensures Matches(UUID, s) <==> IsUuid(s)
  {
    TimesMatches(HEX_OR_HYPHEN, 36, s);
    forall i | 0 <= i < |s| {
      HexOrHyphenClass(s[i]);
    }
  }

  // ---------------------------------------------------------------------
  // occupation: one or more Latin or Cyrillic letters, hyphens or spaces

  predicate IsOccupationChar(c: char)
  {
    'A' <= c <= 'Z' || 'a' <= c <= 'z'
    || '\U{0410}' <= c <= '\U{042F}' || '\U{0430}' <= c <= '\U{044F}'
    || c == '\U{0451}' || c == '\U{0401}' || c == '-' || c == ' '
  }

  predicate IsOccupation(s: string)
  {
    |s| >= 1 && forall i :: 0 <= i < |s| ==> IsOccupationChar(s[i])
  }

  lemma OccupationClass(c: char)
    ensures InClass(c, OCCUPATION_CHARS) <==> IsOccupationChar(c)
  {
    if 'A' <= c <= 'Z' {
      assert CharRange('A', 'Z') in OCCUPATION_CHARS;
    } else if 'a' <= c <= 'z' {
      assert CharRange('a', 'z') in OCCUPATION_CHARS;
    } else if '\U{0410}' <= c <= '\U{042F}' {
      assert CharRange('\U{0410}', '\U{042F}') in OCCUPATION_CHARS;
    } else if '\U{0430}' <= c <= '\U{044F}' {
      assert CharRange('\U{0430}', '\U{044F}') in OCCUPATION_CHARS;
    } else if c == '\U{0451}' {
      assert CharRange('\U{0451}', '\U{0451}') in OCCUPATION_CHARS;
    } else if c == '\U{0401}' {
      assert CharRange('\U{0401}', '\U{0401}') in OCCUPATION_CHARS;
    } else if c == '-' {
      assert CharRange('-', '-') in OCCUPATION_CHARS;
    } else if c == ' ' {
      assert CharRange(' ', ' ') in OCCUPATION_CHARS;
    }
  }

  lemma OccupationShape(s: string)
    ensures Matches(OCCUPATION, s) <==> IsOccupation(s)
  {
    PlusMatches(OCCUPATION_CHARS, s);
    forall i | 0 <= i < |s| {
      OccupationClass(s[i]);
    }
  }

  // ---------------------------------------------------------------------
  // http status message: three digits, a space, then letters or spaces

  predicate IsLatinOrSpace(c: char)
  {
    'A' <= c <= 'Z' || 'a' <= c <= 'z' || c == ' '
  }

  lemma LatinOrSpaceClass(c: char)
    ensures InClass(c, LATIN_OR_SPACE) <==> IsLatinOrSpace(c)
  {
    if 'A' <= c <= 'Z' {
      assert CharRange('A', 'Z') in LATIN_OR_SPACE;
    } else if 'a' <= c <= 'z' {
      assert CharRange('a', 'z') in LATIN_OR_SPACE;
    } else if c == ' ' {
      assert CharRange(' ', ' ') in LATIN_OR_SPACE;
    }
  }

  const STATUS_CODE_FORM := "### "

  predicate IsHttpStatusMessage(s: string)
  {
    |s| >= 5 && Fits(s[..4], STATUS_CODE_FORM) && forall i :: 4 <= i < |s| ==> IsLatinOrSpace(s[i])
  }

  lemma StatusWordsShape(w: string)
    ensures Matches(Plus(Class(LATIN_OR_SPACE)), w) <==> |w| >= 1 && forall i :: 0 <= i < |w| ==> IsLatinOrSpace(w[i])
  {
    PlusMatches(LATIN_OR_SPACE, w);
    forall i | 0 <= i < |w| {
      LatinOrSpaceClass(w[i]);
    }
  }

  lemma HttpStatusMessageShape(s: string)
    ensures Matches(HTTP_STATUS_MESSAGE, s) <==> IsHttpStatusMessage(s)
  {
    var code := Cat(Times(DIGIT, 3), Char(' '));
    var words := Plus(Class(LATIN_OR_SPACE));
    DigitsDenotes(3, "###");
    CharDenotes(' ');
    CatDenotes(Times(DIGIT, 3), Char(' '), "###", " ");
    assert "###" + " " == STATUS_CODE_FORM;
    CatAssoc(Times(DIGIT, 3), Char(' '), words, s);
    CatSplitLeft(code, words, s);
    if |s| >= 4 {
      StatusWordsShape(s[4..]);
      assert forall i :: 4 <= i < |s| ==> s[i] == s[4..][i - 4];
    }
  }

  // ---------------------------------------------------------------------
  // blood type: `A`, `B`, `AB` or `O`, then `+` or U+2212

  /** U+2212 MINUS SIGN; the ASCII hyphen-minus is not accepted. */
  const MINUS_SIGN := '\U{2212}'

  predicate IsBloodGroup(g: string)
  {
    g == "A" || g == "B" || g == "AB" || g == "O"
  }

  predicate IsRhesusSign(c: char)
  {
    c == '+' || c == MINUS_SIGN
  }

  predicate IsBloodType(s: string)
  {
    |s| >= 2 && IsBloodGroup(s[..|s| - 1]) && IsRhesusSign(s[|s| - 1])
  }

  const BLOOD_GROUPS: Regex := Alt(Str("A"), Alt(Str("B"), Alt(Str("AB"), Str("O"))))

  lemma BloodGroupShape(g: string)
    ensures Matches(BLOOD_GROUPS, g) <==> IsBloodGroup(g)
  {
    StrMatches("AB", g);
    StrMatches("O", g);
    var rest := Alt(Str("AB"), Str("O"));
    assert Matches(rest, g) <==> g == "AB" || g == "O";
    StrMatches("B", g);
    assert Matches(Alt(Str("B"), rest), g) <==> g == "B" || g == "AB" || g == "O";
    StrMatches("A", g);
  }

  lemma RhesusSignShape(t: string)
    ensures Matches(Class(PLUS_OR_MINUS_SIGN), t) <==> |t| == 1 && IsRhesusSign(t[0])
  {
    ClassMatches(PLUS_OR_MINUS_SIGN, t);
    if |t| == 1 && IsRhesusSign(t[0]) {
      assert t[0] == '+' ==> CharRange('+', '+') in PLUS_OR_MINUS_SIGN;
      assert t[0] == MINUS_SIGN ==> CharRange(MINUS_SIGN, MINUS_SIGN) in PLUS_OR_MINUS_SIGN;
    }
  }

  lemma BloodTypeShape(s: string)
    ensures Matches(BLOOD_TYPE, s) <==> IsBloodType(s)
  {
    assert BLOOD_TYPE == Cat(BLOOD_GROUPS, Class(PLUS_OR_MINUS_SIGN));
    assert Width(Class(PLUS_OR_MINUS_SIGN)) == Some(1);
    CatSplitRight(BLOOD_GROUPS, Class(PLUS_OR_MINUS_SIGN), s, 1);
    if |s| >= 1 {
      var group, sign := s[..|s| - 1], s[|s| - 1..];
      BloodGroupShape(group);
      RhesusSignShape(sign);
      assert sign[0] == s[|s| - 1];
      assert IsBloodGroup(group) ==> |group| >= 1;
    }
  }

  // ---------------------------------------------------------------------
  // date: `DDDD-MM-DD`, month 00-12, day 00-31

  /** `0` then a digit, or `1` then `0`-`2`: 00 to 12. */
  predicate IsMonth(m: string)
  {
    |m| == 2 && ((m[0] == '0' && IsDigit(m[1])) || (m[0] == '1' && '0' <= m[1] <= '2'))
  }

  /** `0`-`2` then a digit, or `3` then `0`-`1`: 00 to 31. */
  predicate IsDay(d: string)
  {
    |d| == 2 && (('0' <= d[0] <= '2' && IsDigit(d[1])) || (d[0] == '3' && '0' <= d[1] <= '1'))
  }

  const YEAR_FORM := "####-"

  predicate IsDate(s: string)
  {
    |s| == 10 && Fits(s[..5], YEAR_FORM) && IsMonth(s[5..7]) && s[7] == '-' && IsDay(s[8..])
  }

  lemma MonthShape(m: string)
    ensures Matches(MONTH, m) <==> IsMonth(m)
  {
    CatSplitLeft(Char('0'), DIGIT, m);
    CatSplitLeft(Char('1'), Class([CharRange('0', '2')]), m);
    if |m| >= 1 {
      CharMatches('0', m[..1]);
      CharMatches('1', m[..1]);
    }
  }

  lemma DayShape(d: string)
    ensures Matches(DAY, d) <==> IsDay(d)
  {
    CatSplitLeft(Class([CharRange('0', '2')]), DIGIT, d);
    CatSplitLeft(Char('3'), Class([CharRange('0', '1')]), d);
    if |d| >= 1 {
      CharMatches('3', d[..1]);
    }
  }

  /** The part of a date after its year and first hyphen. */
  lemma MonthDayShape(y: string)
    ensures Matches(Cat(MONTH, Cat(Char('-'), DAY)), y) <==>
      |y| == 5 && IsMonth(y[..2]) && y[2] == '-' && IsDay(y[3..])
  {
    assert Width(MONTH) == Some(2);
    CatSplitLeft(MONTH, Cat(Char('-'), DAY), y);
    if |y| >= 2 {
      MonthShape(y[..2]);
      var z := y[2..];
      CatSplitLeft(Char('-'), DAY, z);
      if |z| >= 1 {
        CharMatches('-', z[..1]);
        DayShape(z[1..]);
        assert z[1..] == y[3..];
      }
    }
  }

  lemma DateShape(s: string)
    ensures Matches(DATE, s) <==> IsDate(s)
  {
    var year := Cat(Times(DIGIT, 4), Char('-'));
    var rest := Cat(MONTH, Cat(Char('-'), DAY));
    DigitsDenotes(4, "####");
    CharDenotes('-');
    CatDenotes(Times(DIGIT, 4), Char('-'), "####", "-");
    assert "####" + "-" == YEAR_FORM;
    CatAssoc(Times(DIGIT, 4), Char('-'), rest, s);
    CatSplitLeft(year, rest, s);
    if |s| >= 5 {
      MonthDayShape(s[5..]);
      if |s| == 10 {
        assert s[5..][..2] == s[5..7];
        assert s[5..][3..] == s[8..];
      }
    }
  }

  // ---------------------------------------------------------------------
  // height: `[1-2]?\d(\.\d{1,2})?` or `3(\.00)?`

  /** Nothing, or a point and one or two digits. */
  predicate IsShortFraction(f: string)
  {
    |f| == 0 || (2 <= |f| <= 3 && f[0] == '.' && AllDigits(f[1..]))
  }

  /** A whole part of one digit, or of two digits the first of which is 1
      or 2, then a short fraction; or `3` or `3.00` (which the first
      alternative already admits). */
  predicate IsHeightForm(s: string)
  {
    (|s| >= 1 && IsDigit(s[0]) && IsShortFraction(s[1..]))
    || (|s| >= 2 && (s[0] == '1' || s[0] == '2') && IsDigit(s[1]) && IsShortFraction(s[2..]))
    || s == "3" || s == "3.00"
  }

  const SHORT_FRACTION: Regex := Opt(Cat(Char('.'), Repeat(DIGIT, 1, 2)))

  lemma ShortFractionShape(f: string)
    ensures Matches(SHORT_FRACTION, f) <==> IsShortFraction(f)
  {
    CatSplitLeft(Char('.'), Repeat(DIGIT, 1, 2), f);
    if |f| >= 1 {
      CharMatches('.', f[..1]);
      RepeatMatches(DIGITS, 1, 2, f[1..]);
    }
  }

  lemma HeightUnitsShape(y: string)
    ensures Matches(Cat(DIGIT, SHORT_FRACTION), y) <==> |y| >= 1 && IsDigit(y[0]) && IsShortFraction(y[1..])
  {
    CatSplitLeft(DIGIT, SHORT_FRACTION, y);
    if |y| >= 1 {
      ShortFractionShape(y[1..]);
    }
  }

  /** The first alternative of the height pattern, with a two-digit whole
      part. */
  lemma HeightTensShape(s: string)
    ensures Matches(Cat(Class([CharRange('1', '2')]), Cat(DIGIT, SHORT_FRACTION)), s) <==>
      |s| >= 2 && (s[0] == '1' || s[0] == '2') && IsDigit(s[1]) && IsShortFraction(s[2..])
  {
    CatSplitLeft(Class([CharRange('1', '2')]), Cat(DIGIT, SHORT_FRACTION), s);
    if |s| >= 1 {
      HeightUnitsShape(s[1..]);
      assert |s| >= 2 ==> s[1..][1..] == s[2..];
    }
  }

  /** The first alternative of the height pattern. */
  lemma HeightDecimalShape(s: string)
    ensures Matches(Cat(Opt(Class([CharRange('1', '2')])), Cat(DIGIT, SHORT_FRACTION)), s) <==>
      (|s| >= 1 && IsDigit(s[0]) && IsShortFraction(s[1..]))
      || (|s| >= 2 && (s[0] == '1' || s[0] == '2') && IsDigit(s[1]) && IsShortFraction(s[2..]))
  {
    CatOptLeft(Class([CharRange('1', '2')]), Cat(DIGIT, SHORT_FRACTION), s);
    HeightUnitsShape(s);
    HeightTensShape(s);
  }

  /** The second alternative of the height pattern. */
  lemma HeightThreeShape(s: string)
    ensures Matches(Cat(Char('3'), Opt(Str(".00"))), s) <==> s == "3" || s == "3.00"
  {
    CatSplitLeft(Char('3'), Opt(Str(".00")), s);
    if |s| >= 1 {
      CharMatches('3', s[..1]);
      StrMatches(".00", s[1..]);
      assert s == s[..1] + s[1..];
    }
  }

  lemma HeightShape(s: string)
    ensures Matches(HEIGHT, s) <==> IsHeightForm(s)
  {
    HeightDecimalShape(s);
    HeightThreeShape(s);
  }

  // ---------------------------------------------------------------------
  // latitude: `-?([1-8]?\d(\.\d+)?|90(\.0+)?)`

  /** Nothing, or a point and at least one digit. */
  predicate IsFraction(f: string)
  {
    |f| == 0 || (|f| >= 2 && f[0] == '.' && AllDigits(f[1..]))
  }

  /** Nothing, or a point and at least one `0`. */
  predicate IsZeroFraction(f: string)
  {
    |f| == 0 || (|f| >= 2 && f[0] == '.' && forall i :: 1 <= i < |f| ==> f[i] == '0')
  }

  /** A whole part of one digit, or of two digits the first of which is 1 to
      8, then a fraction; or `90` then a fraction of zeros. */
  predicate IsLatitudeMagnitude(m: string)
  {
    (|m| >= 1 && IsDigit(m[0]) && IsFraction(m[1..]))
    || (|m| >= 2 && '1' <= m[0] <= '8' && IsDigit(m[1]) && IsFraction(m[2..]))
    || (|m| >= 2 && m[..2] == "90" && IsZeroFraction(m[2..]))
  }

  /** A magnitude, optionally after a `-`. */
  predicate IsLatitude(s: string)
  {
    IsLatitudeMagnitude(s) || (|s| >= 1 && s[0] == '-' && IsLatitudeMagnitude(s[1..]))
  }

  const FRACTION: Regex := Opt(Cat(Char('.'), Plus(DIGIT)))
  const ZERO_FRACTION: Regex := Opt(Cat(Char('.'), Plus(Char('0'))))

  lemma FractionShape(f: string)
    ensures Matches(FRACTION, f) <==> IsFraction(f)
  {
    CatSplitLeft(Char('.'), Plus(DIGIT), f);
    if |f| >= 1 {
      CharMatches('.', f[..1]);
      PlusMatches(DIGITS, f[1..]);
    }
  }

  lemma ZeroFractionShape(f: string)
    ensures Matches(ZERO_FRACTION, f) <==> IsZeroFraction(f)
  {
    CatSplitLeft(Char('.'), Plus(Char('0')), f);
    if |f| >= 1 {
      CharMatches('.', f[..1]);
      PlusMatches([CharRange('0', '0')], f[1..]);
      assert forall i :: 1 <= i < |f| ==> f[i] == f[1..][i - 1];
    }
  }

  lemma LatitudeUnitsShape(y: string)
    ensures Matches(Cat(DIGIT, FRACTION), y) <==> |y| >= 1 && IsDigit(y[0]) && IsFraction(y[1..])
  {
    CatSplitLeft(DIGIT, FRACTION, y);
    if |y| >= 1 {
      FractionShape(y[1..]);
    }
  }

  lemma LatitudeTensShape(m: string)
    ensures Matches(Cat(Class([CharRange('1', '8')]), Cat(DIGIT, FRACTION)), m) <==>
      |m| >= 2 && '1' <= m[0] <= '8' && IsDigit(m[1]) && IsFraction(m[2..])
  {
    CatSplitLeft(Class([CharRange('1', '8')]), Cat(DIGIT, FRACTION), m);
    if |m| >= 1 {
      LatitudeUnitsShape(m[1..]);
      assert |m| >= 2 ==> m[1..][1..] == m[2..];
    }
  }

  lemma LatitudeNinetyShape(m: string)
    ensures Matches(Cat(Str("90"), ZERO_FRACTION), m) <==> |m| >= 2 && m[..2] == "90" && IsZeroFraction(m[2..])
  {
    CatSplitLeft(Str("90"), ZERO_FRACTION, m);
    if |m| >= 2 {
      StrMatches("90", m[..2]);
      ZeroFractionShape(m[2..]);
    }
  }

  lemma LatitudeMagnitudeShape(m: string)
    ensures Matches(Alt(Cat(Opt(Class([CharRange('1', '8')])), Cat(DIGIT, FRACTION)), Cat(Str("90"), ZERO_FRACTION)), m)
      <==> IsLatitudeMagnitude(m)
  {
    CatOptLeft(Class([CharRange('1', '8')]), Cat(DIGIT, FRACTION), m);
    LatitudeUnitsShape(m);
    LatitudeTensShape(m);
    LatitudeNinetyShape(m);
  }

  lemma LatitudeShape(s: string)
    ensures Matches(LATITUDE, s) <==> IsLatitude(s)
  {
    var magnitude := Alt(Cat(Opt(Class([CharRange('1', '8')])), Cat(DIGIT, FRACTION)), Cat(Str("90"), ZERO_FRACTION));
    CatOptLeft(Char('-'), magnitude, s);
    CatSplitLeft(Char('-'), magnitude, s);
    LatitudeMagnitudeShape(s);
    if |s| >= 1 {
      CharMatches('-', s[..1]);
      LatitudeMagnitudeShape(s[1..]);
    }
  }

  // ---------------------------------------------------------------------
  // ip_v4: four groups of one to three digits, separated by `.`

  predicate IsOctetText(g: string)
  {
    1 <= |g| <= 3 && AllDigits(g)
  }

  predicate IsIpV4(s: string)
  {
    OctetGroups(s, 4)
  }

  lemma OctetShape(g: string)
    ensures Matches(OCTET, g) <==> IsOctetText(g)
  {
    RepeatMatches(DIGITS, 1, 3, g);
  }

  const OCTET_DOT: Regex := Cat(OCTET, Char('.'))

  /** `([0-9]{1,3}\.){n}[0-9]{1,3}` */
  function Groups(n: nat): Regex
  {
    Cat(Times(OCTET_DOT, n), OCTET)
  }

  /** One more group: a leading octet, then the rest after the first `.`. */
  lemma GroupsStep(n: nat, s: string)
    requires n >= 1
    ensures Matches(Groups(n), s) <==>
      '.' in s && IsOctetText(s[..FirstIndex(s, '.')]) && Matches(Groups(n - 1), s[FirstIndex(s, '.') + 1..])
  {
    var rest := Groups(n - 1);
    CatAssoc(OCTET_DOT, Times(OCTET_DOT, n - 1), OCTET, s);
    CatAssoc(OCTET, Char('.'), rest, s);
    forall t | Matches(OCTET, t)
      ensures '.' !in t
    {
      OctetShape(t);
    }
    forall t | Matches(Cat(Char('.'), rest), t)
      ensures |t| > 0 && t[0] == '.'
    {
      CatSplitLeft(Char('.'), rest, t);
      CharMatches('.', t[..1]);
    }
    CatSplitAt(OCTET, Cat(Char('.'), rest), s, '.');
    if '.' in s {
      var k := FirstIndex(s, '.');
      var tail := s[k..];
      CatSplitLeft(Char('.'), rest, tail);
      CharMatches('.', tail[..1]);
      assert tail[1..] == s[k + 1..];
      OctetShape(s[..k]);
    }
  }

  /** The groups of `s`: pieces between `.`, each of one to three digits. */
  predicate OctetGroups(s: string, n: nat)
  {
    var groups := Split(s, '.');
    |groups| == n && forall i :: 0 <= i < n ==> IsOctetText(groups[i])
  }

  /** Peeling off the first group of a string with a `.` in it. */
  lemma OctetGroupsStep(s: string, n: nat)
    requires '.' in s && n >= 1
    ensures OctetGroups(s, n) <==>
      IsOctetText(s[..FirstIndex(s, '.')]) && OctetGroups(s[FirstIndex(s, '.') + 1..], n - 1)
  {
    var k := FirstIndex(s, '.');
    var groups := Split(s, '.');
    var later := Split(s[k + 1..], '.');
    assert groups == [s[..k]] + later;
    assert groups[0] == s[..k];
    forall i | 0 <= i < |later|
      ensures groups[i + 1] == later[i]
    {
    }
    if OctetGroups(s, n) {
      forall i | 0 <= i < n - 1
        ensures IsOctetText(later[i])
      {
        assert groups[i + 1] == later[i];
      }
    }
    if IsOctetText(s[..k]) && OctetGroups(s[k + 1..], n - 1) {
      forall i | 0 <= i < n
        ensures IsOctetText(groups[i])
      {
        if i > 0 {
          assert groups[i] == later[i - 1];
        }
      }
    }
  }

  /** A leading group joined by `.` to the rest of the address. */
  lemma OctetGroupsJoin(g: string, rest: string, n: nat)
    requires '.' !in g && n >= 1
    ensures OctetGroups(g + "." + rest, n) <==> IsOctetText(g) && OctetGroups(rest, n - 1)
  {
    var s := g + "." + rest;
    assert s[..|g|] == g && s[|g| + 1..] == rest;
    SplitAt(s, |g|, '.');
    OctetGroupsStep(s, n);
  }

  /** Any four groups of one to three digits joined by `.` make an address;
      nothing bounds a group by 255. */
  lemma IpV4OfGroups(groups: seq<string>)
    requires |groups| == 4 && forall i :: 0 <= i < 4 ==> IsOctetText(groups[i])
    ensures IsIpV4(Join(groups, '.'))
  {
    forall i | 0 <= i < 4
      ensures '.' !in groups[i]
    {
      OctetHasNoDot(groups[i]);
    }
    SplitJoin(groups, '.');
  }

  /** Every address is four such groups joined by `.`. */
  lemma GroupsOfIpV4(s: string)
    requires IsIpV4(s)
    ensures var groups := Split(s, '.');
      |groups| == 4 && (forall i :: 0 <= i < 4 ==> IsOctetText(groups[i])) && s == Join(groups, '.')
  {
    JoinSplit(s, '.');
  }

  /** A group of digits holds no `.`. */
  lemma OctetHasNoDot(g: string)
    requires IsOctetText(g)
    ensures '.' !in g
  {
    assert forall i :: 0 <= i < |g| ==> IsDigit(g[i]);
  }

  /** A first group of four or more digits is never an address. */
  lemma IpV4LongGroup(g: string, rest: string)
    requires |g| >= 4 && AllDigits(g)
    ensures !IsIpV4(g + "." + rest)
  {
    var s := g + "." + rest;
    assert forall i :: 0 <= i < |g| ==> g[i] != '.';
    assert s[..|g|] == g && s[|g|] == '.' && s[|g| + 1..] == rest;
    SplitAt(s, |g|, '.');
    assert Split(s, '.')[0] == g;
  }

  /** A single group: no `.`, and one to three digits. */
  lemma GroupsShapeBase(s: string)
    ensures Matches(Groups(0), s) <==> OctetGroups(s, 1)
  {
    assert Groups(0) == Cat(Empty, OCTET);
    CatEmptyLeft(OCTET, s);
    OctetShape(s);
    if '.' in s {
      assert |Split(s, '.')| == 1 + |Split(s[FirstIndex(s, '.') + 1..], '.')|;
      assert !IsDigit(s[FirstIndex(s, '.')]);
    } else {
      assert Split(s, '.')[0] == s;
    }
  }

  /** `([0-9]{1,3}\.){n}[0-9]{1,3}` matches exactly the strings that split
      at `.` into n + 1 groups of one to three digits. */
  lemma {:induction false} GroupsShape(n: nat, s: string)
    ensures Matches(Groups(n), s) <==> OctetGroups(s, n + 1)
    decreases n
  {
    if n == 0 {
      GroupsShapeBase(s);
    } else if '.' in s {
      GroupsShape(n - 1, s[FirstIndex(s, '.') + 1..]);
      GroupsShapeStep(n, s);
    } else {
      GroupsStep(n, s);
      assert Split(s, '.') == [s];
    }
  }

  /** The inductive step of GroupsShape, given the claim for what follows
      the first `.`. */
  lemma GroupsShapeStep(n: nat, s: string)
    requires n >= 1 && '.' in s
    requires Matches(Groups(n - 1), s[FirstIndex(s, '.') + 1..]) <==> OctetGroups(s[FirstIndex(s, '.') + 1..], n)
    ensures Matches(Groups(n), s) <==> OctetGroups(s, n + 1)
  {
    GroupsStep(n, s);
    OctetGroupsStep(s, n + 1);
  }

  lemma IpV4Shape(s: string)
    ensures Matches(IP_V4, s) <==> IsIpV4(s)
  {
    assert IP_V4 == Groups(3);
    GroupsShape(3, s);
  }
}
