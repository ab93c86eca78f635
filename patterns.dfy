/** The thirteen patterns of lab_3/lr3.py, transcribed term by term into the
    constructs of module Regex. Each `re.match` call in the source anchors its
    pattern with `^...$`; that anchoring is `Regex.FullMatch`, so the
    constants below hold only what stands between the anchors.

    `\d` is taken to mean an ASCII digit; `[0-9]` is the same class. */
module Patterns {
  import opened Regex

  const DIGITS: CharClass := [CharRange('0', '9')]
  /** `\d` */
  const DIGIT: Regex := Class(DIGITS)

  /** `[A-Za-z ]` */
  const LATIN_OR_SPACE: CharClass := [CharRange('A', 'Z'), CharRange('a', 'z'), CharRange(' ', ' ')]

  /** `[a-f0-9\-]` */
  const HEX_OR_HYPHEN: CharClass := [CharRange('a', 'f'), CharRange('0', '9'), CharRange('-', '-')]

  /** `[A-Za-zА-Яа-яёЁ\- ]`: Latin letters, the Cyrillic blocks А-Я (U+0410 to
      U+042F) and а-я (U+0430 to U+044F), ё (U+0451), Ё (U+0401), hyphen, space. */
  const OCCUPATION_CHARS: CharClass := [
    CharRange('A', 'Z'), CharRange('a', 'z'),
    CharRange('\U{0410}', '\U{042F}'), CharRange('\U{0430}', '\U{044F}'),
    CharRange('\U{0451}', '\U{0451}'), CharRange('\U{0401}', '\U{0401}'),
    CharRange('-', '-'), CharRange(' ', ' ')]

  /** `[\+\−]`: plus sign or U+2212 MINUS SIGN (not the ASCII hyphen). */
  const PLUS_OR_MINUS_SIGN: CharClass := [CharRange('+', '+'), CharRange('\U{2212}', '\U{2212}')]

  /** `\+7-\(\d{3}\)-\d{3}-\d{2}-\d{2}` (lr3.py:11) */
  const TELEPHONE: Regex :=
    Cat(Str("+7-("), Cat(Times(DIGIT, 3), Cat(Str(")-"), Cat(Times(DIGIT, 3),
      Cat(Char('-'), Cat(Times(DIGIT, 2), Cat(Char('-'), Times(DIGIT, 2))))))))

  /** `(?:[1-2]?\d(\.\d{1,2})?|3(\.00)?)` (lr3.py:16) */
  const HEIGHT: Regex :=
    Alt(Cat(Opt(Class([CharRange('1', '2')])), Cat(DIGIT, Opt(Cat(Char('.'), Repeat(DIGIT, 1, 2))))),
        Cat(Char('3'), Opt(Str(".00"))))

  /** `\d{3} [A-Za-z ]+` (lr3.py:26) */
  const HTTP_STATUS_MESSAGE: Regex :=
    Cat(Times(DIGIT, 3), Cat(Char(' '), Plus(Class(LATIN_OR_SPACE))))

  /** `\d{12}` (lr3.py:31) */
  const INN: Regex := Times(DIGIT, 12)

  /** `\d{2}-\d{2}\/\d{2}` (lr3.py:36) */
  const IDENTIFIER: Regex :=
    Cat(Times(DIGIT, 2), Cat(Char('-'), Cat(Times(DIGIT, 2), Cat(Char('/'), Times(DIGIT, 2)))))

  /** `[0-9]{1,3}`, one group of an address */
  const OCTET: Regex := Repeat(DIGIT, 1, 3)

  /** `([0-9]{1,3}\.){3}[0-9]{1,3}` (lr3.py:41) */
  const IP_V4: Regex := Cat(Times(Cat(OCTET, Char('.')), 3), OCTET)

  /** `-?([1-8]?\d(\.\d+)?|90(\.0+)?)` (lr3.py:46) */
  const LATITUDE: Regex :=
    Cat(Opt(Char('-')),
        Alt(Cat(Opt(Class([CharRange('1', '8')])), Cat(DIGIT, Opt(Cat(Char('.'), Plus(DIGIT))))),
            Cat(Str("90"), Opt(Cat(Char('.'), Plus(Char('0')))))))

  /** `(A|B|AB|O)[\+\−]` (lr3.py:51) */
  const BLOOD_TYPE: Regex :=
    Cat(Alt(Str("A"), Alt(Str("B"), Alt(Str("AB"), Str("O")))), Class(PLUS_OR_MINUS_SIGN))

  /** `(\d{3}\-)?\d-\d{5}-\d{3}-\d` (lr3.py:56) */
  const ISBN: Regex :=
    Cat(Opt(Cat(Times(DIGIT, 3), Char('-'))),
        Cat(DIGIT, Cat(Char('-'), Cat(Times(DIGIT, 5), Cat(Char('-'), Cat(Times(DIGIT, 3), Cat(Char('-'), DIGIT)))))))

  /** `[a-f0-9\-]{36}` (lr3.py:61) */
  const UUID: Regex := Times(Class(HEX_OR_HYPHEN), 36)

  /** `[A-Za-zА-Яа-яёЁ\- ]+` (lr3.py:65) */
  const OCCUPATION: Regex := Plus(Class(OCCUPATION_CHARS))

  /** `\d{4}-\d{4}` (lr3.py:70) */
  const ISSN: Regex := Cat(Times(DIGIT, 4), Cat(Char('-'), Times(DIGIT, 4)))

  /** `(([0]\d)|([1][0-2]))`, the month of a date */
  const MONTH: Regex := Alt(Cat(Char('0'), DIGIT), Cat(Char('1'), Class([CharRange('0', '2')])))

  /** `(([0-2]\d)|([3][0-1]))`, the day of a date */
  const DAY: Regex :=
    Alt(Cat(Class([CharRange('0', '2')]), DIGIT), Cat(Char('3'), Class([CharRange('0', '1')])))

  /** `\d{4}-(([0]\d)|([1][0-2]))-(([0-2]\d)|([3][0-1]))` (lr3.py:75) */
  const DATE: Regex := Cat(Times(DIGIT, 4), Cat(Char('-'), Cat(MONTH, Cat(Char('-'), DAY))))
}
