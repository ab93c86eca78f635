/** The thirteen field validators of lab_3/lr3.py (lines 10-76). Each one
    computes its answer from the hand-written shape in module Shapes, and its
    contract says that the answer is exactly `re.match` of the anchored
    pattern, as `Regex.FullMatch` defines it. */
module Validators {
  import opened Text
  import opened Regex
  import opened Patterns
  import opened Shapes

  /** `s` without the one line feed that `$` may stand before. */
  function Chomped(s: string): (t: string)
    ensures EndsInNewline(s) ==> s == t + "\n"
    ensures !EndsInNewline(s) ==> t == s
  {
    if EndsInNewline(s) then s[..|s| - 1] else s
  }

  /** A shape tested the way `re.match` tests `^...$`: on the whole string,
      or on the whole string before a final line feed. */
  predicate Anchored(accepts: string -> bool, s: string)
  {
    accepts(s) || (EndsInNewline(s) && accepts(s[..|s| - 1]))
  }

  /** validate_telephone */
  predicate ValidateTelephone(telephone: string)
  {
    Anchored(IsTelephone, telephone)
  }

  /** ValidateTelephone answers as `re.match` of the anchored pattern does. */
  lemma TelephoneAgreesWithPattern(telephone: string)
    ensures ValidateTelephone(telephone) <==> FullMatch(TELEPHONE, telephone)
  {
    TelephoneShape(telephone);
    TelephoneShape(Chomped(telephone));
  }

  /** validate_http_status_message */
  predicate ValidateHttpStatusMessage(statusMessage: string)
  {
    Anchored(IsHttpStatusMessage, statusMessage)
  }

  /** ValidateHttpStatusMessage answers as `re.match` of the anchored pattern does. */
  lemma HttpStatusMessageAgreesWithPattern(statusMessage: string)
    ensures ValidateHttpStatusMessage(statusMessage) <==> FullMatch(HTTP_STATUS_MESSAGE, statusMessage)
  {
    HttpStatusMessageShape(statusMessage);
    HttpStatusMessageShape(Chomped(statusMessage));
  }

  /** validate_inn */
  predicate ValidateInn(inn: string)
  {
    Anchored(IsInn, inn)
  }

  /** ValidateInn answers as `re.match` of the anchored pattern does. */
  lemma InnAgreesWithPattern(inn: string)
    ensures ValidateInn(inn) <==> FullMatch(INN, inn)
  {
    InnShape(inn);
    InnShape(Chomped(inn));
  }

  /** validate_identifier */
  predicate ValidateIdentifier(identifier: string)
  {
    Anchored(IsIdentifier, identifier)
  }

  /** ValidateIdentifier answers as `re.match` of the anchored pattern does. */
  lemma IdentifierAgreesWithPattern(identifier: string)
    ensures ValidateIdentifier(identifier) <==> FullMatch(IDENTIFIER, identifier)
  {
    IdentifierShape(identifier);
    IdentifierShape(Chomped(identifier));
  }

  /** validate_ip_v4 */
  predicate ValidateIpV4(ipV4: string)
  {
    Anchored(IsIpV4, ipV4)
  }

  /** ValidateIpV4 answers as `re.match` of the anchored pattern does. */
  lemma IpV4AgreesWithPattern(ipV4: string)
    ensures ValidateIpV4(ipV4) <==> FullMatch(IP_V4, ipV4)
  {
    IpV4Shape(ipV4);
    IpV4Shape(Chomped(ipV4));
  }

  /** validate_latitude */
  predicate ValidateLatitude(latitude: string)
  {
    Anchored(IsLatitude, latitude)
  }

  /** ValidateLatitude answers as `re.match` of the anchored pattern does. */
  lemma LatitudeAgreesWithPattern(latitude: string)
    ensures ValidateLatitude(latitude) <==> FullMatch(LATITUDE, latitude)
  {
    LatitudeShape(latitude);
    LatitudeShape(Chomped(latitude));
  }

  /** validate_blood_type */
  predicate ValidateBloodType(bloodType: string)
  {
    Anchored(IsBloodType, bloodType)
  }

  /** ValidateBloodType answers as `re.match` of the anchored pattern does. */
  lemma BloodTypeAgreesWithPattern(bloodType: string)
    ensures ValidateBloodType(bloodType) <==> FullMatch(BLOOD_TYPE, bloodType)
  {
    BloodTypeShape(bloodType);
    BloodTypeShape(Chomped(bloodType));
  }

  /** validate_isbn */
  predicate ValidateIsbn(isbn: string)
  {
    Anchored(IsIsbn, isbn)
  }

  /** ValidateIsbn answers as `re.match` of the anchored pattern does. */
  lemma IsbnAgreesWithPattern(isbn: string)
    ensures ValidateIsbn(isbn) <==> FullMatch(ISBN, isbn)
  {
    IsbnShape(isbn);
    IsbnShape(Chomped(isbn));
  }

  /** validate_uuid */
  predicate ValidateUuid(uuid: string)
  {
    Anchored(IsUuid, uuid)
  }

  /** ValidateUuid answers as `re.match` of the anchored pattern does. */
  lemma UuidAgreesWithPattern(uuid: string)
    ensures ValidateUuid(uuid) <==> FullMatch(UUID, uuid)
  {
    UuidShape(uuid);
    UuidShape(Chomped(uuid));
  }

  /** validate_occupation */
  predicate ValidateOccupation(occupation: string)
  {
    Anchored(IsOccupation, occupation)
  }

  /** ValidateOccupation answers as `re.match` of the anchored pattern does. */
  lemma OccupationAgreesWithPattern(occupation: string)
    ensures ValidateOccupation(occupation) <==> FullMatch(OCCUPATION, occupation)
  {
    OccupationShape(occupation);
    OccupationShape(Chomped(occupation));
  }

  /** validate_issn */
  predicate ValidateIssn(issn: string)
  {
    Anchored(IsIssn, issn)
  }

  /** ValidateIssn answers as `re.match` of the anchored pattern does. */
  lemma IssnAgreesWithPattern(issn: string)
    ensures ValidateIssn(issn) <==> FullMatch(ISSN, issn)
  {
    IssnShape(issn);
    IssnShape(Chomped(issn));
  }

  /** validate_date */
  predicate ValidateDate(date: string)
  {
    Anchored(IsDate, date)
  }

  /** ValidateDate answers as `re.match` of the anchored pattern does. */
  lemma DateAgreesWithPattern(date: string)
    ensures ValidateDate(date) <==> FullMatch(DATE, date)
  {
    DateShape(date);
    DateShape(Chomped(date));
  }

  // ---------------------------------------------------------------------
  // validate_height: the pattern, then the range 0.5 to 3.00

  /** The value of a fraction `.d` or `.dd` in hundredths. */
  function FractionHundredths(f: string): (h: int)
    ensures IsShortFraction(f) ==> 0 <= h <= 99
    ensures IsShortFraction(f) ==> (h == 0 <==> forall i :: 1 <= i < |f| ==> f[i] == '0')
  {
    if |f| < 2 then 0
    else if |f| == 2 then 10 * DigitValue(f[1])
    else 10 * DigitValue(f[1]) + DigitValue(f[2])
  }

  /** `float(height) * 100` for a string the height pattern admits: the
      digits before the point, in hundreds, plus the fraction. The fraction
      has at most two digits, so the value is exact. */
  function Hundredths(height: string): int
  {
    var k := LeadingDigits(height);
    100 * NumberValue(height[..k]) + FractionHundredths(height[k..])
  }

  /** validate_height: the pattern on `str(height)`, and then
      `0.5 <= float(height) <= 3.00`. `float` ignores the line feed that
      `$` lets through. */
  predicate ValidateHeight(height: string)
  {
    Anchored(IsHeightForm, height) && 50 <= Hundredths(Chomped(height)) <= 300
  }

  /** ValidateHeight is the anchored pattern followed by the range test. */
  lemma HeightAgreesWithPattern(height: string)
    ensures ValidateHeight(height) <==> FullMatch(HEIGHT, height) && 50 <= Hundredths(Chomped(height)) <= 300
  {
    HeightShape(height);
    HeightShape(Chomped(height));
  }

  /** The heights ValidateHeight accepts, in closed form. */
  lemma HeightAccepted(height: string)
    ensures ValidateHeight(height) <==> Anchored(IsAcceptedHeight, height)
  {
    if EndsInNewline(height) {
      var t := Chomped(height);
      HeightInRange(t);
      NotHeightForm(height);
    } else {
      HeightInRange(height);
    }
  }

  /** The pattern and the range test together, on a string without the
      final line feed, are the closed form. */
  lemma HeightInRange(t: string)
    ensures IsHeightForm(t) && 50 <= Hundredths(t) <= 300 <==> IsAcceptedHeight(t)
  {
    if IsHeightForm(t) {
      HeightRange(t);
    }
    if IsAcceptedHeight(t) {
      AcceptedHeightIsForm(t);
      HeightRange(t);
    }
  }

  /** A string ending in a line feed neither fits the pattern nor has the
      closed form. */
  lemma NotHeightForm(s: string)
    requires EndsInNewline(s)
    ensures !IsHeightForm(s) && !IsAcceptedHeight(s)
  {
    if IsHeightForm(s) {
      HeightFormEndsInDigit(s);
    }
    if IsAcceptedHeight(s) {
      AcceptedHeightIsForm(s);
      HeightFormEndsInDigit(s);
    }
  }

  /** Every height of the closed form is one the pattern admits. */
  lemma AcceptedHeightIsForm(t: string)
    requires IsAcceptedHeight(t)
    ensures IsHeightForm(t)
  {
  }

  /** A height the pattern admits ends in a digit, never in a line feed. */
  lemma HeightFormEndsInDigit(t: string)
    requires IsHeightForm(t)
    ensures IsDigit(t[|t| - 1])
  {
    if |t| >= 2 && (t[0] == '1' || t[0] == '2') && IsDigit(t[1]) && IsShortFraction(t[2..]) {
      if |t| > 2 {
        assert t[|t| - 1] == t[2..][1..][|t| - 4];
      }
    } else if |t| >= 1 && IsDigit(t[0]) && IsShortFraction(t[1..]) {
      if |t| > 1 {
        assert t[|t| - 1] == t[1..][1..][|t| - 3];
      }
    }
  }

  /** The heights the validator accepts, by their whole part: 1 or 2 with
      any short fraction, 0 with a fraction of at least .5, or exactly 3. */
  predicate IsAcceptedHeight(t: string)
  {
    (|t| >= 1 && (t[0] == '1' || t[0] == '2') && IsShortFraction(t[1..]))
    || (|t| >= 3 && t[0] == '0' && '5' <= t[2] <= '9' && IsShortFraction(t[1..]))
    || t == "3" || t == "3.0" || t == "3.00"
  }

  /** A one-digit whole part stands for its digit's value in hundreds. */
  lemma UnitsHundredths(t: string)
    requires |t| >= 1 && IsDigit(t[0]) && IsShortFraction(t[1..])
    ensures IsHeightForm(t)
    ensures Hundredths(t) == 100 * DigitValue(t[0]) + FractionHundredths(t[1..])
  {
    assert LeadingDigits(t) == 1 by {
      assert |t| > 1 ==> t[1..][0] == '.';
    }
    assert t[..1][..0] == [] && t[..1][0] == t[0];
    assert NumberValue(t[..1]) == DigitValue(t[0]);
  }

  /** A two-digit whole part is at least 10, so the value is at least 1000
      hundredths. */
  lemma TensHundredths(t: string)
    requires |t| >= 2 && (t[0] == '1' || t[0] == '2') && IsDigit(t[1]) && IsShortFraction(t[2..])
    ensures IsHeightForm(t)
    ensures Hundredths(t) >= 1000
  {
    assert LeadingDigits(t) == 2 by {
      assert LeadingDigits(t[1..]) == 1 by {
        assert t[1..][1..] == t[2..];
        assert |t| > 2 ==> t[1..][1..][0] == '.';
      }
    }
    assert t[..2][..1] == t[..1];
    assert t[..1][..0] == [] && t[..1][0] == t[0];
    assert NumberValue(t[..1]) == DigitValue(t[0]) >= 1;
    assert NumberValue(t[..2]) >= 10;
  }

  /** The range test, on a string the pattern admits, in closed form. */
  lemma HeightRange(t: string)
    requires IsHeightForm(t)
    ensures 50 <= Hundredths(t) <= 300 <==> IsAcceptedHeight(t)
  {
    if |t| >= 2 && (t[0] == '1' || t[0] == '2') && IsDigit(t[1]) && IsShortFraction(t[2..]) {
      TensHundredths(t);
    } else {
      UnitsHundredths(t);
    }
  }

  // ---------------------------------------------------------------------
  // Examples: what the validators admit and reject

  lemma TelephoneExamples()
    ensures ValidateTelephone("+7-(123)-456-78-90")
    ensures !ValidateTelephone("+7-123-456-78-90")
  {
  }

  lemma HeightAcceptsExamples()
    ensures ValidateHeight("1.75") && ValidateHeight("3")
  {
    HeightAccepted("1.75");
    HeightAccepted("3");
  }

  lemma HeightRejectsExamples()
    ensures !ValidateHeight("3.50") && !ValidateHeight("0.3") && !ValidateHeight("29.5")
  {
    HeightAccepted("3.50");
    HeightAccepted("0.3");
    HeightAccepted("29.5");
  }

  /** The address check has no bound of 255 on a group. */
  lemma IpV4AcceptsDigitGroups(groups: seq<string>)
    requires |groups| == 4 && forall i :: 0 <= i < 4 ==> IsOctetText(groups[i])
    ensures ValidateIpV4(Join(groups, '.'))
  {
    IpV4OfGroups(groups);
  }

  /** A first group of four digits or more is rejected, whatever follows. */
  lemma IpV4RejectsLongGroup(g: string, rest: string)
    requires |g| >= 4 && AllDigits(g)
    ensures !ValidateIpV4(g + "." + rest)
  {
    var s := g + "." + rest;
    IpV4LongGroup(g, rest);
    if EndsInNewline(s) {
      assert s[..|s| - 1] == g + "." + rest[..|rest| - 1];
      IpV4LongGroup(g, rest[..|rest| - 1]);
    }
  }

  lemma IpV4AcceptsLargeGroups()
    ensures ValidateIpV4("999.999.1.1")
  {
    IpV4AcceptsDigitGroups(["999", "999", "1", "1"]);
    assert Join(["999", "999", "1", "1"], '.') == "999.999.1.1";
  }

  lemma IpV4RejectsFourDigits()
    ensures !ValidateIpV4("1000.1.1.1")
  {
    IpV4RejectsLongGroup("1000", "1.1.1");
    assert "1000" + "." + "1.1.1" == "1000.1.1.1";
  }

  lemma LatitudeExamples()
    ensures !ValidateLatitude("90.5") && !ValidateLatitude("91")
  {
    var a := "90.5";
    assert !IsLatitudeMagnitude(a) by {
      assert a[1..] == "0.5" && !IsFraction(a[1..]);
      assert a[2..] == ".5" && a[2..][1] == '5';
    }
    assert !EndsInNewline(a) && a[0] != '-';
    var b := "91";
    assert !IsLatitudeMagnitude(b) by {
      assert b[1..] == "1" && !IsFraction(b[1..]);
      assert b[..2] == b;
    }
    assert !EndsInNewline(b) && b[0] != '-';
  }

  lemma BloodTypeExamples()
    ensures ValidateBloodType("A+") && ValidateBloodType("AB\U{2212}")
    ensures !ValidateBloodType("A-")
  {
  }

  lemma DateExamples()
    ensures ValidateDate("2023-02-30") && ValidateDate("2023-00-00")
  {
  }
}
