/** The regular expressions the field validators are written in, with the
    language semantics that Python's `re` gives a pattern anchored as `^...$`.

    Only the constructs the validators use are modelled: literal characters,
    bracket expressions of ranges, concatenation, alternation, `?`, `{n}`,
    `{m,n}` and `+`. The derived forms (`?`, `{n}`, `{m,n}`, literal text) are
    built from five primitives so that every lemma below is proved once. A
    pattern is matched by backtracking in Python, so `re.match` succeeds
    exactly when the subject is in the pattern's language; `Matches` states
    that language directly. */
module Regex {
  import opened Text

  datatype Option<T> = None | Some(value: T)

  /** An inclusive range of characters inside a bracket expression (`a-f`);
      a single character `x` is the range `x-x`. */
  datatype CharRange = CharRange(lo: char, hi: char)

  /** A bracket expression such as `[a-f0-9\-]`, one range per entry. */
  type CharClass = seq<CharRange>

  predicate InClass(c: char, cls: CharClass)
  {
    exists r :: r in cls && r.lo <= c <= r.hi
  }

  /** Every character of `s` is in the class. */
  predicate AllIn(s: string, cls: CharClass)
  {
    forall i :: 0 <= i < |s| ==> InClass(s[i], cls)
  }

  datatype Regex =
    | Empty                          // the empty string only
    | Class(cls: CharClass)          // one character of the class
    | Cat(left: Regex, right: Regex) // concatenation
    | Alt(left: Regex, right: Regex) // `left|right`
    | Plus(body: Regex)              // `body+`

  /** `s` is in the language of `r`. */
  predicate Matches(r: Regex, s: string)
    decreases r, |s|
  {
    match r
    case Empty => |s| == 0
    case Class(cls) => |s| == 1 && InClass(s[0], cls)
    case Cat(a, b) => exists k :: 0 <= k <= |s| && Matches(a, s[..k]) && Matches(b, s[k..])
    case Alt(a, b) => Matches(a, s) || Matches(b, s)
    case Plus(a) =>
      Matches(a, s) || exists k :: 1 <= k < |s| && Matches(a, s[..k]) && Matches(Plus(a), s[k..])
  }

  /** The string ends in a line feed. */
  predicate EndsInNewline(s: string)
  {
    |s| > 0 && s[|s| - 1] == '\n'
  }

  /** `re.match('^' + r + '$', s) is not None` with no flags: `^` anchors at
      the start, and `$` matches at the end or just before a final "\n". */
  predicate FullMatch(r: Regex, s: string)
  {
    Matches(r, s) || (EndsInNewline(s) && Matches(r, s[..|s| - 1]))
  }

  // ---------------------------------------------------------------------
  // Derived forms

  /** A literal character, escaped or not (`\+`, `7`). */
  function Char(c: char): (r: Regex)
    ensures Width(r) == Some(1)
  {
    Class([CharRange(c, c)])
  }

  /** Literal text, one character after another. */
  function Str(w: string): (r: Regex)
    ensures Width(r) == Some(|w|)
    decreases |w|
  {
    if |w| == 0 then Empty else Cat(Char(w[0]), Str(w[1..]))
  }

  /** `r?` */
  function Opt(r: Regex): Regex
  {
    Alt(r, Empty)
  }

  /** `r{n}` */
  function Times(r: Regex, n: nat): (t: Regex)
    ensures Width(r) == Some(1) ==> Width(t) == Some(n)
  {
    if n == 0 then Empty else Cat(r, Times(r, n - 1))
  }

  /** `(r(r(...)?)?)?` with `n` nested options: between 0 and `n` copies. */
  function UpTo(r: Regex, n: nat): Regex
  {
    if n == 0 then Empty else Opt(Cat(r, UpTo(r, n - 1)))
  }

  /** `r{lo,hi}` */
  function Repeat(r: Regex, lo: nat, hi: nat): Regex
    requires lo <= hi
  {
    Cat(Times(r, lo), UpTo(r, hi - lo))
  }

  /** The common length of all strings `r` matches, when `r` is built
      without `+` and both sides of each alternation have one length. */
  function Width(r: Regex): Option<nat>
  {
    match r
    case Empty => Some(0)
    case Class(_) => Some(1)
    case Cat(a, b) =>
      if Width(a).Some? && Width(b).Some? then Some(Width(a).value + Width(b).value) else None
    case Alt(a, b) => if Width(a) == Width(b) then Width(a) else None
    case Plus(_) => None
  }

  // ---------------------------------------------------------------------
  // Lemmas about the semantics

  lemma {:induction false} WidthSound(r: Regex, s: string)
    requires Width(r).Some? && Matches(r, s)
    ensures |s| == Width(r).value
  {
    match r
    case Empty =>
    case Class(_) =>
    case Cat(a, b) =>
      var k :| 0 <= k <= |s| && Matches(a, s[..k]) && Matches(b, s[k..]);
      WidthSound(a, s[..k]);
      WidthSound(b, s[k..]);
    case Alt(a, b) =>
      if Matches(a, s) {
        WidthSound(a, s);
      } else {
        WidthSound(b, s);
      }
  }

  /** A split of `s` into a match of `a` and a match of `b` is a match of
      their concatenation. */
  lemma CatAt(a: Regex, b: Regex, s: string, k: nat)
    requires k <= |s| && Matches(a, s[..k]) && Matches(b, s[k..])
    ensures Matches(Cat(a, b), s)
  {
  }

  /** A match of a concatenation splits into a match of each operand. */
  lemma CatSplit(a: Regex, b: Regex, s: string) returns (k: nat)
    requires Matches(Cat(a, b), s)
    ensures k <= |s| && Matches(a, s[..k]) && Matches(b, s[k..])
  {
    k :| 0 <= k <= |s| && Matches(a, s[..k]) && Matches(b, s[k..]);
  }

  /** A fixed-width left operand fixes where a concatenation splits. */
  lemma CatSplitLeft(a: Regex, b: Regex, s: string)
    requires Width(a).Some?
    ensures Matches(Cat(a, b), s) <==>
      Width(a).value <= |s| && Matches(a, s[..Width(a).value]) && Matches(b, s[Width(a).value..])
  {
    var w := Width(a).value;
    if Matches(Cat(a, b), s) {
      var k :| 0 <= k <= |s| && Matches(a, s[..k]) && Matches(b, s[k..]);
      WidthSound(a, s[..k]);
    }
    if w <= |s| && Matches(a, s[..w]) && Matches(b, s[w..]) {
      CatAt(a, b, s, w);
    }
  }

  /** A fixed-width right operand fixes where a concatenation splits. */
  lemma CatSplitRight(a: Regex, b: Regex, s: string, w: nat)
    requires Width(b) == Some(w)
    ensures Matches(Cat(a, b), s) <==> w <= |s| && Matches(a, s[..|s| - w]) && Matches(b, s[|s| - w..])
  {
    var cut := |s| - w;
    if Matches(Cat(a, b), s) {
      var k := CatSplit(a, b, s);
      WidthSound(b, s[k..]);
      assert k == cut;
    }
    if w <= |s| && Matches(a, s[..cut]) && Matches(b, s[cut..]) {
      CatAt(a, b, s, cut);
    }
  }

  lemma CatEmptyLeft(b: Regex, s: string)
    ensures Matches(Cat(Empty, b), s) <==> Matches(b, s)
  {
    CatSplitLeft(Empty, b, s);
    assert s[0..] == s;
  }

  /** Concatenation distributes over an alternation on its left. */
  lemma CatAltLeft(x: Regex, y: Regex, b: Regex, s: string)
    ensures Matches(Cat(Alt(x, y), b), s) <==> Matches(Cat(x, b), s) || Matches(Cat(y, b), s)
  {
    if Matches(Cat(Alt(x, y), b), s) {
      var k := CatSplit(Alt(x, y), b, s);
      if Matches(x, s[..k]) {
        CatAt(x, b, s, k);
      } else {
        CatAt(y, b, s, k);
      }
    }
    if Matches(Cat(x, b), s) {
      var k := CatSplit(x, b, s);
      CatAt(Alt(x, y), b, s, k);
    }
    if Matches(Cat(y, b), s) {
      var k := CatSplit(y, b, s);
      CatAt(Alt(x, y), b, s, k);
    }
  }

  /** `r?b` matches exactly what `rb` or `b` matches. */
  lemma CatOptLeft(x: Regex, b: Regex, s: string)
    ensures Matches(Cat(Opt(x), b), s) <==> Matches(Cat(x, b), s) || Matches(b, s)
  {
    CatAltLeft(x, Empty, b, s);
    CatEmptyLeft(b, s);
  }

  /** Concatenation is associative. */
  lemma CatAssoc(a: Regex, b: Regex, c: Regex, s: string)
    ensures Matches(Cat(Cat(a, b), c), s) <==> Matches(Cat(a, Cat(b, c)), s)
  {
    if Matches(Cat(Cat(a, b), c), s) {
      CatAssocRight(a, b, c, s);
    }
    if Matches(Cat(a, Cat(b, c)), s) {
      CatAssocLeft(a, b, c, s);
    }
  }

  lemma CatAssocRight(a: Regex, b: Regex, c: Regex, s: string)
    requires Matches(Cat(Cat(a, b), c), s)
    ensures Matches(Cat(a, Cat(b, c)), s)
  {
    var k := CatSplit(Cat(a, b), c, s);
    var j := CatSplitBefore(a, b, s, k);
    CatOfThree(a, b, c, s, j, k);
  }

  lemma CatAssocLeft(a: Regex, b: Regex, c: Regex, s: string)
    requires Matches(Cat(a, Cat(b, c)), s)
    ensures Matches(Cat(Cat(a, b), c), s)
  {
    var j := CatSplit(a, Cat(b, c), s);
    var k := CatSplitAfter(b, c, s, j);
    CatOfThree(a, b, c, s, j, k);
  }

  /** A match of a concatenation on the suffix `s[j..]` splits at some
      `k` into matches on `s[j..k]` and `s[k..]`. */
  lemma CatSplitAfter(b: Regex, c: Regex, s: string, j: nat) returns (k: nat)
    requires j <= |s| && Matches(Cat(b, c), s[j..])
    ensures j <= k <= |s| && Matches(b, s[j..k]) && Matches(c, s[k..])
  {
    var m := CatSplit(b, c, s[j..]);
    k := j + m;
    SlicesOfThree(s, j, k);
  }

  /** A match of a concatenation on the prefix `s[..k]` splits at some `j`
      into matches on `s[..j]` and `s[j..k]`. */
  lemma CatSplitBefore(a: Regex, b: Regex, s: string, k: nat) returns (j: nat)
    requires k <= |s| && Matches(Cat(a, b), s[..k])
    ensures j <= k && Matches(a, s[..j]) && Matches(b, s[j..k])
  {
    j := CatSplit(a, b, s[..k]);
    SlicesOfThree(s, j, k);
  }

  /** Three consecutive pieces matching `a`, `b` and `c` make a match of
      both groupings of their concatenation. */
  lemma CatOfThree(a: Regex, b: Regex, c: Regex, s: string, j: nat, k: nat)
    requires j <= k <= |s|
    requires Matches(a, s[..j]) && Matches(b, s[j..k]) && Matches(c, s[k..])
    ensures Matches(Cat(Cat(a, b), c), s) && Matches(Cat(a, Cat(b, c)), s)
  {
    SlicesOfThree(s, j, k);
    CatAt(a, b, s[..k], j);
    CatAt(Cat(a, b), c, s, k);
    CatAt(b, c, s[j..], k - j);
    CatAt(a, Cat(b, c), s, j);
  }

  /** Cutting `s` at `j` and at `k` gives the same three pieces whichever
      cut is made first. */
  lemma SlicesOfThree(s: string, j: nat, k: nat)
    requires j <= k <= |s|
    ensures s[..k][..j] == s[..j] && s[..k][j..] == s[j..k]
    ensures s[j..][..k - j] == s[j..k] && s[j..][k - j..] == s[k..]
  {
  }

  /** When every string of `a` avoids `sep` and every string of `b` starts
      with it, a concatenation splits at the first occurrence of `sep`. */
  lemma CatSplitAt(a: Regex, b: Regex, s: string, sep: char)
    requires forall t :: Matches(a, t) ==> sep !in t
    requires forall t :: Matches(b, t) ==> |t| > 0 && t[0] == sep
    ensures Matches(Cat(a, b), s) <==>
      sep in s && Matches(a, s[..FirstIndex(s, sep)]) && Matches(b, s[FirstIndex(s, sep)..])
  {
    if Matches(Cat(a, b), s) {
      var k :| 0 <= k <= |s| && Matches(a, s[..k]) && Matches(b, s[k..]);
      assert s[k..][0] == s[k];
      assert sep !in s[..k];
      FirstIndexUnique(s, sep, k);
    }
  }

  // ---------------------------------------------------------------------
  // What the derived forms match

  lemma ClassMatches(cls: CharClass, s: string)
    ensures Matches(Class(cls), s) <==> |s| == 1 && InClass(s[0], cls)
  {
  }

  lemma CharMatches(c: char, s: string)
    ensures Matches(Char(c), s) <==> s == [c]
  {
    assert InClass(c, [CharRange(c, c)]);
  }

  lemma {:induction false} StrMatches(w: string, s: string)
    ensures Matches(Str(w), s) <==> s == w
    decreases |w|
  {
    if |w| > 0 {
      CatSplitLeft(Char(w[0]), Str(w[1..]), s);
      if 1 <= |s| {
        CharMatches(w[0], s[..1]);
        StrMatches(w[1..], s[1..]);
        if s[..1] == [w[0]] && s[1..] == w[1..] {
          assert s == s[..1] + s[1..];
        }
        if s == w {
          assert s[..1] == [w[0]];
        }
      }
    }
  }

  lemma {:induction false} TimesMatches(cls: CharClass, n: nat, s: string)
    ensures Matches(Times(Class(cls), n), s) <==> |s| == n && AllIn(s, cls)
  {
    if n > 0 {
      CatSplitLeft(Class(cls), Times(Class(cls), n - 1), s);
      if 1 <= |s| {
        TimesMatches(cls, n - 1, s[1..]);
        assert forall i :: 1 <= i < |s| ==> s[i] == s[1..][i - 1];
      }
    }
  }

  lemma {:induction false} UpToMatches(cls: CharClass, n: nat, s: string)
    ensures Matches(UpTo(Class(cls), n), s) <==> |s| <= n && AllIn(s, cls)
  {
    if n > 0 {
      var body := Cat(Class(cls), UpTo(Class(cls), n - 1));
      assert Matches(UpTo(Class(cls), n), s) <==> Matches(body, s) || |s| == 0;
      CatSplitLeft(Class(cls), UpTo(Class(cls), n - 1), s);
      if 1 <= |s| {
        UpToMatches(cls, n - 1, s[1..]);
        assert forall i :: 1 <= i < |s| ==> s[i] == s[1..][i - 1];
      }
    }
  }

  lemma RepeatMatches(cls: CharClass, lo: nat, hi: nat, s: string)
    requires lo <= hi
    ensures Matches(Repeat(Class(cls), lo, hi), s) <==> lo <= |s| <= hi && AllIn(s, cls)
  {
    CatSplitLeft(Times(Class(cls), lo), UpTo(Class(cls), hi - lo), s);
    if lo <= |s| {
      TimesMatches(cls, lo, s[..lo]);
      UpToMatches(cls, hi - lo, s[lo..]);
      assert forall i :: lo <= i < |s| ==> s[i] == s[lo..][i - lo];
    }
  }

  lemma {:induction false} PlusMatches(cls: CharClass, s: string)
    ensures Matches(Plus(Class(cls)), s) <==> |s| >= 1 && AllIn(s, cls)
    decreases |s|
  {
    var one := Class(cls);
    if Matches(Plus(one), s) && !Matches(one, s) {
      var k :| 1 <= k < |s| && Matches(one, s[..k]) && Matches(Plus(one), s[k..]);
      PlusMatches(cls, s[k..]);
      assert k == 1;
      assert forall i :: 1 <= i < |s| ==> s[i] == s[1..][i - 1];
    }
    if |s| >= 2 && AllIn(s, cls) {
      PlusMatches(cls, s[1..]);
      assert Matches(one, s[..1]);
    }
  }
}
