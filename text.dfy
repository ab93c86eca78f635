/** Plain string notions the hand-written field shapes are stated in. */
module Text {

  /** An ASCII digit. */
  predicate IsDigit(c: char)
  {
    '0' <= c <= '9'
  }

  predicate AllDigits(s: string)
  {
    forall i :: 0 <= i < |s| ==> IsDigit(s[i])
  }

  /** The character used in a template for "any digit here". */
  const DIGIT_SLOT := '#'

  /** `s` follows the template `t` position by position: a digit where `t`
      has `#`, and `t`'s own character everywhere else. */
  predicate Fits(s: string, t: string)
  {
    |s| == |t| && forall i :: 0 <= i < |t| ==> if t[i] == DIGIT_SLOT then IsDigit(s[i]) else s[i] == t[i]
  }

  /** Following a concatenated template is following each part in turn. */
  lemma FitsCat(s: string, t1: string, t2: string)
    ensures Fits(s, t1 + t2) <==> |t1| <= |s| && Fits(s[..|t1|], t1) && Fits(s[|t1|..], t2)
  {
    if |t1| <= |s| && Fits(s[..|t1|], t1) && Fits(s[|t1|..], t2) {
      forall i | 0 <= i < |t1 + t2|
        ensures if (t1 + t2)[i] == DIGIT_SLOT then IsDigit(s[i]) else s[i] == (t1 + t2)[i]
      {
        if i < |t1| {
          assert s[i] == s[..|t1|][i];
        } else {
          assert s[i] == s[|t1|..][i - |t1|];
        }
      }
    }
    if Fits(s, t1 + t2) {
      forall i | 0 <= i < |t2|
        ensures if t2[i] == DIGIT_SLOT then IsDigit(s[|t1|..][i]) else s[|t1|..][i] == t2[i]
      {
        assert (t1 + t2)[|t1| + i] == t2[i];
      }
      forall i | 0 <= i < |t1|
        ensures if t1[i] == DIGIT_SLOT then IsDigit(s[..|t1|][i]) else s[..|t1|][i] == t1[i]
      {
        assert (t1 + t2)[i] == t1[i];
      }
    }
  }

  /** A template without digit slots is followed only by itself. */
  lemma FitsLiteral(s: string, t: string)
    requires DIGIT_SLOT !in t
    ensures Fits(s, t) <==> s == t
  {
    if Fits(s, t) {
      assert forall i :: 0 <= i < |t| ==> s[i] == t[i];
    }
  }

  /** The pieces of `s` between occurrences of `sep`, as Python's
      `s.split(sep)` gives them. */
  function Split(s: string, sep: char): (parts: seq<string>)
    ensures |parts| >= 1
    ensures forall i :: 0 <= i < |parts| ==> sep !in parts[i]
    decreases |s|
  {
    if sep in s then
      var k := FirstIndex(s, sep);
      [s[..k]] + Split(s[k + 1..], sep)
    else
      [s]
  }

  /** `sep.join(parts)` */
  function Join(parts: seq<string>, sep: char): string
    requires |parts| >= 1
  {
    if |parts| == 1 then parts[0] else parts[0] + [sep] + Join(parts[1..], sep)
  }

  /** The position of the first `c` in `s`. */
  function FirstIndex(s: string, c: char): (k: nat)
    requires c in s
    ensures k < |s| && s[k] == c && c !in s[..k]
  {
    if s[0] == c then 0 else FirstIndex(s[1..], c) + 1
  }

  lemma FirstIndexUnique(s: string, c: char, k: nat)
    requires k < |s| && s[k] == c && c !in s[..k]
    ensures FirstIndex(s, c) == k
  {
  }

  /** The first piece of `s` ends at the first `sep`. */
  lemma SplitAt(s: string, k: nat, sep: char)
    requires k < |s| && s[k] == sep && sep !in s[..k]
    ensures Split(s, sep) == [s[..k]] + Split(s[k + 1..], sep)
  {
    FirstIndexUnique(s, sep, k);
  }

  /** Splitting loses nothing: joining the pieces gives back the string. */
  lemma {:induction false} JoinSplit(s: string, sep: char)
    ensures Join(Split(s, sep), sep) == s
    decreases |s|
  {
    if sep in s {
      var k := FirstIndex(s, sep);
      var rest := s[k + 1..];
      var parts := Split(s, sep);
      assert parts == [s[..k]] + Split(rest, sep);
      assert parts[0] == s[..k] && parts[1..] == Split(rest, sep);
      JoinSplit(rest, sep);
      assert Join(parts, sep) == s[..k] + [sep] + rest;
      assert s == s[..k] + [sep] + rest;
    } else {
      assert Split(s, sep) == [s];
    }
  }

  /** Joining pieces without `sep` and splitting again gives the pieces back. */
  lemma {:induction false} SplitJoin(parts: seq<string>, sep: char)
    requires |parts| >= 1
    requires forall i :: 0 <= i < |parts| ==> sep !in parts[i]
    ensures Split(Join(parts, sep), sep) == parts
    decreases |parts|
  {
    if |parts| > 1 {
      var head, rest := parts[0], Join(parts[1..], sep);
      var s := head + [sep] + rest;
      assert Join(parts, sep) == s;
      assert s[..|head|] == head && s[|head|] == sep && s[|head| + 1..] == rest;
      SplitAt(s, |head|, sep);
      SplitJoin(parts[1..], sep);
      assert parts == [head] + parts[1..];
    }
  }

  /** The number of digits `s` starts with. */
  function LeadingDigits(s: string): (k: nat)
    ensures k <= |s| && AllDigits(s[..k])
    ensures k < |s| ==> !IsDigit(s[k])
  {
    if |s| > 0 && IsDigit(s[0]) then
      var k := LeadingDigits(s[1..]) + 1;
      assert forall i :: 1 <= i < k ==> s[..k][i] == s[1..][..k - 1][i - 1];
      k
    else
      0
  }

  function DigitValue(c: char): int
  {
    c as int - '0' as int
  }

  /** The value of a string of decimal digits; 0 for the empty string. */
  function NumberValue(ds: string): int
  {
    if |ds| == 0 then 0 else 10 * NumberValue(ds[..|ds| - 1]) + DigitValue(ds[|ds| - 1])
  }
}
