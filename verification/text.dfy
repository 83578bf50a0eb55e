/** JavaScript string and number operations the protocol engine relies on,
    with their JavaScript meaning written out: `substr`-based unquoting,
    `endsWith`, `replace` with a string pattern (first occurrence only) and
    the unary `+` number coercion. */
module Text {
  import opened Base

  /** `str.substr(1, str.length - 2)`: drops the first and the last character.
      A string shorter than two characters yields the empty string. */
  function FromStr(s: string): (r: string)
    ensures |s| >= 2 ==> s == [s[0]] + r + [s[|s| - 1]]
    ensures |s| < 2 ==> r == ""
  {
    if |s| < 2 then "" else s[1..|s| - 1]
  }

  /** Surrounds a text with one pair of double quotes. */
  function Quote(s: string): string {
    "\"" + s + "\""
  }

  /** Unquoting is the left inverse of quoting. */
  lemma FromStrQuote(s: string)
    ensures FromStr(Quote(s)) == s
  {
    var q := Quote(s);
    assert q[1..|q| - 1] == s;
  }

  /** Quoting undoes unquoting whenever the text is fenced by double quotes. */
  lemma QuoteFromStr(s: string)
    requires |s| >= 2 && s[0] == '"' && s[|s| - 1] == '"'
    ensures Quote(FromStr(s)) == s
  {
  }

  /** `s.endsWith(suffix)`. */
  predicate EndsWith(s: string, suffix: string) {
    |suffix| <= |s| && s[|s| - |suffix|..] == suffix
  }

  /** True when `pat` occurs in `s` at position `k`. */
  predicate OccursAt(s: string, pat: string, k: nat) {
    k + |pat| <= |s| && s[k..k + |pat|] == pat
  }

  /** `s.indexOf(pat, from)`: the first occurrence at or after `from`. */
  function IndexOf(s: string, pat: string, from: nat): (r: Option<nat>)
    requires from <= |s|
    ensures r.Some? ==> from <= r.value && OccursAt(s, pat, r.value)
    ensures r.Some? ==> forall k :: from <= k < r.value ==> !OccursAt(s, pat, k)
    ensures r.None? ==> forall k :: from <= k <= |s| ==> !OccursAt(s, pat, k)
    decreases |s| - from
  {
    if OccursAt(s, pat, from) then Some(from)
    else if from == |s| then None
    else IndexOf(s, pat, from + 1)
  }

  /** `s.replace(pat, rep)` with a string pattern: only the first occurrence
      of `pat` is replaced; without an occurrence the string is unchanged. */
  function ReplaceFirst(s: string, pat: string, rep: string): (r: string)
    ensures (forall k :: 0 <= k <= |s| ==> !OccursAt(s, pat, k)) ==> r == s
    ensures forall k :: 0 <= k <= |s| && OccursAt(s, pat, k)
                     && (forall m :: 0 <= m < k ==> !OccursAt(s, pat, m))
                     ==> r == s[..k] + rep + s[k + |pat|..]
  {
    match IndexOf(s, pat, 0)
    case None => s
    case Some(k) => s[..k] + rep + s[k + |pat|..]
  }

  /** `s.replace(/pat/g, rep)`: every occurrence of `pat`, scanning left to
      right without overlap, is replaced. */
  function ReplaceAll(s: string, pat: string, rep: string): (r: string)
    requires |pat| > 0
    ensures |s| < |pat| ==> r == s
    decreases |s|
  {
    if |s| < |pat| then s
    else if s[..|pat|] == pat then rep + ReplaceAll(s[|pat|..], pat, rep)
    else [s[0]] + ReplaceAll(s[1..], pat, rep)
  }

  // ---------------------------------------------------------------------
  // Unary `+` on strings
  // ---------------------------------------------------------------------

  /** The result of JavaScript's `+str`: a number or NaN. */
  datatype Number = Finite(n: int) | NaN

  predicate IsDigit(c: char) { '0' <= c <= '9' }

  predicate IsHexDigit(c: char) {
    IsDigit(c) || 'a' <= c <= 'f' || 'A' <= c <= 'F'
  }

  function DigitValue(c: char): (d: nat)
    requires IsHexDigit(c)
    ensures d < 16
  {
    if IsDigit(c) then c as int - '0' as int
    else if 'a' <= c <= 'f' then c as int - 'a' as int + 10
    else c as int - 'A' as int + 10
  }

  predicate AllDigits(s: string) { forall k :: 0 <= k < |s| ==> IsDigit(s[k]) }

  predicate AllHexDigits(s: string) { forall k :: 0 <= k < |s| ==> IsHexDigit(s[k]) }

  /** Positional value of a digit string in the given base. */
  function Positional(s: string, base: nat): nat
    requires AllHexDigits(s)
  {
    if |s| == 0 then 0
    else Positional(s[..|s| - 1], base) * base + DigitValue(s[|s| - 1])
  }

  /** `+s` for the forms the debugger produces: the empty string is 0, a
      decimal digit string with an optional sign, and `0x`/`0X` followed by
      hexadecimal digits. Every other text is NaN in this model. */
  function ToNumber(s: string): Number {
    if s == "" then Finite(0)
    else if |s| > 2 && s[0] == '0' && (s[1] == 'x' || s[1] == 'X') && AllHexDigits(s[2..]) then
      Finite(Positional(s[2..], 16))
    else if AllDigits(s) then Finite(Positional(s, 10))
    else if |s| > 1 && (s[0] == '-' || s[0] == '+') && AllDigits(s[1..]) then
      if s[0] == '-' then Finite(0 - Positional(s[1..], 10) as int) else Finite(Positional(s[1..], 10))
    else NaN
  }

  /** `+s === 0`. */
  predicate IsZero(s: string) {
    ToNumber(s) == Finite(0)
  }

  /** `n <= 0` on a number that may be NaN (a comparison with NaN is false). */
  predicate AtMostZero(n: Number) {
    n.Finite? && n.n <= 0
  }

  /** A digit string denotes zero exactly when every digit is `0`. */
  lemma {:induction false} PositionalZero(s: string, base: nat)
    requires AllHexDigits(s) && base > 0
    ensures Positional(s, base) == 0 <==> forall k :: 0 <= k < |s| ==> s[k] == '0'
  {
    if |s| > 0 {
      var init := s[..|s| - 1];
      PositionalZero(init, base);
      assert forall k :: 0 <= k < |init| ==> init[k] == s[k];
      if Positional(s, base) == 0 {
        assert Positional(init, base) == 0 && DigitValue(s[|s| - 1]) == 0;
      }
    }
  }

  /** The debugger's null pointers (`0x0`, `0x0000000000000000`) and a plain
      `0` are all zero; so is a hexadecimal literal of zeros of any length. */
  lemma ZeroPointers(digits: string)
    requires |digits| > 0 && forall k :: 0 <= k < |digits| ==> digits[k] == '0'
    ensures IsZero("0x" + digits)
    ensures IsZero(digits)
  {
    var s := "0x" + digits;
    assert s[2..] == digits;
    PositionalZero(digits, 16);
    PositionalZero(digits, 10);
  }

  /** A hexadecimal pointer with a non-zero digit is not null. */
  lemma NonZeroPointer(digits: string, k: nat)
    requires AllHexDigits(digits) && k < |digits| && digits[k] != '0'
    ensures !IsZero("0x" + digits)
  {
    var s := "0x" + digits;
    assert s[2..] == digits;
    PositionalZero(digits, 16);
  }

  // ---------------------------------------------------------------------
  // Rendering numbers, the inverse of `+s`
  // ---------------------------------------------------------------------

  /** The decimal digits of `n`, most significant first, without leading
      zeros. */
  function DecimalString(n: nat): (s: string)
    ensures |s| > 0 && AllDigits(s)
    decreases n
  {
    var d := ['0' + (n % 10) as char];
    if n < 10 then d else DecimalString(n / 10) + d
  }

  /** How a number is written: its decimal digits, with a minus sign when it
      is negative, and `NaN` for NaN. */
  function NumberString(x: Number): string {
    match x
    case NaN => "NaN"
    case Finite(n) => if n < 0 then "-" + DecimalString(-n) else DecimalString(n)
  }

  /** Reading the decimal digits of `n` gives back `n`. */
  lemma {:induction false} PositionalDecimal(n: nat)
    ensures Positional(DecimalString(n), 10) == n
    decreases n
  {
    var s := DecimalString(n);
    if n >= 10 {
      var init := DecimalString(n / 10);
      PositionalDecimal(n / 10);
      assert s[..|s| - 1] == init;
    }
  }

  /** `+` reads back every number as it is written. */
  lemma ToNumberString(x: Number)
    ensures ToNumber(NumberString(x)) == x
  {
    match x
    case NaN =>
      assert !IsDigit(NumberString(x)[0]);
    case Finite(n) =>
      var digits := DecimalString(if n < 0 then -n else n);
      PositionalDecimal(if n < 0 then -n else n);
      var s := NumberString(x);
      if n < 0 {
        assert s[1..] == digits;
        assert !IsDigit(s[0]);
      } else if |s| >= 2 {
        assert IsDigit(s[1]);
      }
  }
}
