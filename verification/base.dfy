/** Small shared vocabulary: optional values, character classes and decimal numerals. */
module Base {

  /** A possibly missing value; `None` stands for the source's null pointers and failed lookups. */
  datatype Option<+T> = None | Some(value: T) {
    function GetOr(default: T): T {
      match this
      case Some(v) => v
      case None => default
    }
  }

  /** A half-open range [lo, hi) of character offsets into a file, as Clang's `CharSourceRange`
      once its token end has been measured. */
  datatype Span = Span(lo: nat, hi: nat) {
    predicate Valid() { lo <= hi }
    predicate IsEmpty() { lo == hi }
  }

  type CharRange = s: Span | s.Valid() witness Span(0, 0)

  /** The range [lo, hi), or the empty range at `lo` when the end lies before the start. */
  function RangeOf(lo: nat, hi: nat): (r: CharRange)
    ensures r.lo == lo
    ensures lo <= hi ==> r.hi == hi
  {
    if lo <= hi then Span(lo, hi) else Span(lo, lo)
  }

  /** Spaces and tabs: the characters `find_first_not_of(" \t")` skips. */
  predicate IsSpaceOrTab(c: char) {
    c == ' ' || c == '\t'
  }

  /** Any whitespace a lexer skips between tokens. */
  predicate IsWhitespace(c: char) {
    c == ' ' || c == '\t' || c == '\n' || c == '\r'
  }

  predicate IsDigit(c: char) {
    '0' <= c <= '9'
  }

  /** True iff `s` has `prefix` as a prefix, as `StringRef::starts_with`. */
  predicate StartsWith(s: string, prefix: string) {
    |prefix| <= |s| && s[..|prefix|] == prefix
  }

  function DigitChar(d: nat): (c: char)
    requires d < 10
    ensures IsDigit(c)
  {
    ['0', '1', '2', '3', '4', '5', '6', '7', '8', '9'][d]
  }

  function DigitValue(c: char): (d: nat)
    requires IsDigit(c)
    ensures d < 10 && DigitChar(d) == c
  {
    (c as int - '0' as int) as nat
  }

  predicate AllDigits(s: string) {
    forall i :: 0 <= i < |s| ==> IsDigit(s[i])
  }

  /** The decimal numeral of `n`, as `std::to_string` on a non-negative integer. */
  function Decimal(n: nat): (s: string)
    ensures |s| > 0 && AllDigits(s)
    ensures n < 10 <==> |s| == 1
    decreases n
  {
    if n < 10 then [DigitChar(n)] else Decimal(n / 10) + [DigitChar(n % 10)]
  }

  /** The value of a string of decimal digits, as `std::stoul` on such a string. */
  function ParseDecimal(s: string): (n: nat)
    requires AllDigits(s)
    decreases |s|
  {
    if |s| == 0 then 0 else 10 * ParseDecimal(s[..|s| - 1]) + DigitValue(s[|s| - 1])
  }

  /** Printing then parsing a numeral gives the number back. */
  lemma {:induction false} ParseDecimalOfDecimal(n: nat)
    ensures ParseDecimal(Decimal(n)) == n
    decreases n
  {
    if n >= 10 {
      var s := Decimal(n);
      assert s[..|s| - 1] == Decimal(n / 10);
      ParseDecimalOfDecimal(n / 10);
    }
  }

  /** Distinct numbers have distinct numerals. */
  lemma DecimalInjective(m: nat, n: nat)
    requires Decimal(m) == Decimal(n)
    ensures m == n
  {
    ParseDecimalOfDecimal(m);
    ParseDecimalOfDecimal(n);
  }
}
