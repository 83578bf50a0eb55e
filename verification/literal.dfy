/** `parseMiStringLiteral`: the debugger shows a `char *` as the pointer
    followed by the quoted text, `0x100003fa6 \"Hello\"`, and the session
    shows only the text. The source matches the regular expression
    `/0x[\da-fA-F]+ \\\"(.*)\\\"/` and answers the capture in double quotes,
    or the empty string when nothing matches. The expression is modelled by
    a declarative description of its matches and by a scanner proved to pick
    the match a JavaScript engine picks: the leftmost start, and for it the
    longest capture (`.*` is greedy and does not cross line terminators). */
module Literal {
  import opened Base
  import opened Text

  /** The characters `.` does not match. */
  predicate IsLineTerminator(c: char) {
    c == '\n' || c == '\r' || c == '\U{2028}' || c == '\U{2029}'
  }

  /** The opening `0x<hex digits> \"` of a match starting at `i`, whose
      digits occupy `[i + 2, j)`. */
  ghost predicate Opens(s: string, i: nat, j: nat) {
    && i + 2 < j && j + 3 <= |s|
    && s[i] == '0' && s[i + 1] == 'x'
    && (forall k :: i + 2 <= k < j ==> IsHexDigit(s[k]))
    && s[j] == ' ' && s[j + 1] == '\\' && s[j + 2] == '"'
  }

  /** A backslash and a double quote at `e`. */
  predicate CloseQuoteAt(s: string, e: nat) {
    e + 2 <= |s| && s[e] == '\\' && s[e + 1] == '"'
  }

  /** The closing `\"` at `e`, with no line terminator in the capture
      `[c, e)`. */
  ghost predicate Closes(s: string, c: nat, e: nat) {
    && c <= e && CloseQuoteAt(s, e)
    && forall k :: c <= k < e ==> !IsLineTerminator(s[k])
  }

  /** A match of the whole pattern starting at `i`, capturing `s[j + 3..e]`. */
  ghost predicate Matches(s: string, i: nat, j: nat, e: nat) {
    Opens(s, i, j) && Closes(s, j + 3, e)
  }

  /** The match the engine reports: no match starts further left, and no
      match from the same start captures more. */
  ghost predicate LeftmostGreedy(s: string, i: nat, j: nat, e: nat) {
    && Matches(s, i, j, e)
    && forall i': nat, j': nat, e': nat :: Matches(s, i', j', e') ==> i <= i' && (i' == i ==> e' <= e)
  }

  /** A match found by the scanner: its start, the end of its hex digits and
      the position of its closing `\"`. */
  datatype Match = Match(start: nat, digitsEnd: nat, closeAt: nat)

  /** The end of the hexadecimal digit run starting at `p`. */
  function HexEnd(s: string, p: nat): (j: nat)
    requires p <= |s|
    ensures p <= j <= |s|
    ensures forall k :: p <= k < j ==> IsHexDigit(s[k])
    ensures j == |s| || !IsHexDigit(s[j])
    decreases |s| - p
  {
    if p == |s| || !IsHexDigit(s[p]) then p else HexEnd(s, p + 1)
  }

  /** The first line terminator at or after `c`, or the end of the input. */
  function LineEnd(s: string, c: nat): (t: nat)
    requires c <= |s|
    ensures c <= t <= |s|
    ensures forall k :: c <= k < t ==> !IsLineTerminator(s[k])
    ensures t < |s| ==> IsLineTerminator(s[t])
    decreases |s| - c
  {
    if c == |s| || IsLineTerminator(s[c]) then c else LineEnd(s, c + 1)
  }

  /** The last closing `\"` in `[c, hi]`, searching downwards from `hi`. */
  function LastClose(s: string, c: nat, hi: nat): (r: Option<nat>)
    requires c <= hi
    ensures r.Some? ==> c <= r.value <= hi && CloseQuoteAt(s, r.value)
    ensures r.Some? ==> forall e :: r.value < e <= hi ==> !CloseQuoteAt(s, e)
    ensures r.None? ==> forall e :: c <= e <= hi ==> !CloseQuoteAt(s, e)
    decreases hi
  {
    if CloseQuoteAt(s, hi) then Some(hi)
    else if hi == c then None
    else LastClose(s, c, hi - 1)
  }

  /** What `.*\\\"` matches after the opening: the closing `\"` furthest to
      the right on the same line. */
  function CloseFrom(s: string, c: nat): (r: Option<nat>)
    requires c <= |s|
    ensures r.Some? ==> Closes(s, c, r.value)
    ensures r.Some? ==> forall e: nat :: Closes(s, c, e) ==> e <= r.value
    ensures r.None? ==> forall e: nat :: !Closes(s, c, e)
  {
    var t := LineEnd(s, c);
    var r := LastClose(s, c, t);
    forall e: nat | Closes(s, c, e)
      ensures e <= t
    {
      if e > t {
        assert false;
      }
    }
    r
  }

  /** The digit run of an opening is the whole run after `0x`. */
  lemma OpensAtHexEnd(s: string, i: nat, j: nat)
    requires Opens(s, i, j)
    ensures j == HexEnd(s, i + 2)
  {
    var h := HexEnd(s, i + 2);
    if j < h {
      assert false;
    } else if h < j {
      assert false;
    }
  }

  /** The match starting at `i` that captures the most, if any. */
  function MatchAt(s: string, i: nat): (r: Option<Match>)
    requires i <= |s|
    ensures r.Some? ==> r.value.start == i && Matches(s, i, r.value.digitsEnd, r.value.closeAt)
    ensures r.Some? ==> forall j: nat, e: nat :: Matches(s, i, j, e) ==> j == r.value.digitsEnd && e <= r.value.closeAt
    ensures r.None? ==> forall j: nat, e: nat :: !Matches(s, i, j, e)
  {
    if i + 2 <= |s| && s[i] == '0' && s[i + 1] == 'x' then
      var j := HexEnd(s, i + 2);
      forall j': nat, e: nat | Matches(s, i, j', e)
        ensures j' == j
      {
        OpensAtHexEnd(s, i, j');
      }
      if j > i + 2 && j + 3 <= |s| && s[j] == ' ' && s[j + 1] == '\\' && s[j + 2] == '"' then
        match CloseFrom(s, j + 3)
        case Some(e) => Some(Match(i, j, e))
        case None => None
      else None
    else None
  }

  /** The scan for the leftmost match, starting at position `i`. */
  function FindFrom(s: string, i: nat): (r: Option<Match>)
    requires i <= |s|
    ensures r.Some? ==> i <= r.value.start && Matches(s, r.value.start, r.value.digitsEnd, r.value.closeAt)
    ensures r.Some? ==> forall i': nat, j: nat, e: nat :: i <= i' && Matches(s, i', j, e) ==>
                          r.value.start <= i' && (i' == r.value.start ==> e <= r.value.closeAt)
    ensures r.None? ==> forall i': nat, j: nat, e: nat :: i <= i' ==> !Matches(s, i', j, e)
    decreases |s| - i
  {
    match MatchAt(s, i)
    case Some(m) => Some(m)
    case None =>
      if i == |s| then
        assert forall i': nat, j: nat :: i < i' ==> !Opens(s, i', j);
        None
      else FindFrom(s, i + 1)
  }

  /** `parseMiStringLiteral`. */
  function ParseMiStringLiteral(value: string): (r: string)
    ensures r == "" <==> forall i: nat, j: nat, e: nat :: !Matches(value, i, j, e)
    ensures forall i: nat, j: nat, e: nat :: LeftmostGreedy(value, i, j, e) ==> r == Quote(value[j + 3..e])
  {
    match FindFrom(value, 0)
    case None => ""
    case Some(m) =>
      var r := Quote(value[m.digitsEnd + 3..m.closeAt]);
      forall i: nat, j: nat, e: nat | LeftmostGreedy(value, i, j, e)
        ensures r == Quote(value[j + 3..e])
      {
        assert i == m.start;
        OpensAtHexEnd(value, i, j);
        OpensAtHexEnd(value, i, m.digitsEnd);
      }
      r
  }

  /** The form the debugger prints a `char *` in is reduced to its text,
      quoted; the text may itself hold `\"` pairs, since the capture runs to
      the last one on the line. */
  lemma LiteralRoundTrip(digits: string, text: string)
    requires |digits| > 0 && AllHexDigits(digits)
    requires forall k :: 0 <= k < |text| ==> !IsLineTerminator(text[k])
    ensures ParseMiStringLiteral("0x" + digits + " \\\"" + text + "\\\"") == Quote(text)
  {
    var s := "0x" + digits + " \\\"" + text + "\\\"";
    var j := 2 + |digits|;
    var e := |s| - 2;
    assert s[j + 3..e] == text;
    assert forall k :: 2 <= k < j ==> s[k] == digits[k - 2];
    assert forall k :: j + 3 <= k < e ==> s[k] == text[k - j - 3];
    assert Matches(s, 0, j, e);
    assert LeftmostGreedy(s, 0, j, e);
  }

  /** A pointer with no text after it yields the empty string. */
  lemma BarePointer()
    ensures ParseMiStringLiteral("0x0") == ""
  {
    forall i: nat, j: nat, e: nat
      ensures !Matches("0x0", i, j, e)
    {
    }
  }
}
