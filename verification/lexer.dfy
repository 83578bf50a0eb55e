/** The MI lexer: splits one buffered chunk of debugger output into tokens.
    Strings are read verbatim from `"` to the next `"` with no escape
    handling, a `(` token runs through the next `)` (the `(gdb)` prompt), and
    any other character that is not punctuation starts an identifier that
    extends over the following `[A-Za-z0-9-]` run. */
module Lexer {
  import opened Base

  datatype TokenKind =
    | Identifier | String | LBrace | RBrace | LBracket | RBracket
    | Comma | Eq | Plus | Star | Caret | Tilde | At | Ampersand | Gdb

  /** A token and the half-open span `[start, stop)` of the input it covers. */
  datatype Token = Token(kind: TokenKind, lexeme: string, start: nat, stop: nat)

  /** Only space, tab, LF and CR are skipped between tokens. */
  predicate IsWhitespace(c: char) {
    c == ' ' || c == '\t' || c == '\n' || c == '\r'
  }

  /** The characters of `/^[a-z0-9-]+$/i`. */
  predicate IsIdentChar(c: char) {
    'a' <= c <= 'z' || 'A' <= c <= 'Z' || '0' <= c <= '9' || c == '-'
  }

  /** The single-character tokens. */
  function Punctuation(c: char): Option<TokenKind> {
    match c
    case '{' => Some(LBrace)
    case '}' => Some(RBrace)
    case '[' => Some(LBracket)
    case ']' => Some(RBracket)
    case ',' => Some(Comma)
    case '=' => Some(Eq)
    case '+' => Some(Plus)
    case '*' => Some(Star)
    case '^' => Some(Caret)
    case '~' => Some(Tilde)
    case '@' => Some(At)
    case '&' => Some(Ampersand)
    case _ => None
  }

  ghost predicate AllWhitespace(s: string, i: nat, j: nat)
    requires i <= j <= |s|
  {
    forall k :: i <= k < j ==> IsWhitespace(s[k])
  }

  function SkipWhitespace(s: string, i: nat): (j: nat)
    requires i <= |s|
    ensures i <= j <= |s|
    ensures AllWhitespace(s, i, j)
    ensures j == |s| || !IsWhitespace(s[j])
    decreases |s| - i
  {
    if i == |s| || !IsWhitespace(s[i]) then i else SkipWhitespace(s, i + 1)
  }

  /** The first position at or after `i` holding `c`, or the end of input. */
  function ScanTo(s: string, i: nat, c: char): (j: nat)
    requires i <= |s|
    ensures i <= j <= |s|
    ensures forall k :: i <= k < j ==> s[k] != c
    ensures j < |s| ==> s[j] == c
    decreases |s| - i
  {
    if i == |s| || s[i] == c then i else ScanTo(s, i + 1, c)
  }

  /** The end of the maximal identifier-character run starting at `i`. */
  function ScanIdent(s: string, i: nat): (j: nat)
    requires i <= |s|
    ensures i <= j <= |s|
    ensures forall k :: i <= k < j ==> IsIdentChar(s[k])
    ensures j == |s| || !IsIdentChar(s[j])
    decreases |s| - i
  {
    if i == |s| || !IsIdentChar(s[i]) then i else ScanIdent(s, i + 1)
  }

  /** A token opened at `p` ends just after the first `c` that follows `p`,
      or at the end of input when no `c` follows. */
  ghost predicate ClosedBy(s: string, p: nat, stop: nat, c: char)
    requires p < stop <= |s|
  {
    || (p < stop - 1 && s[stop - 1] == c && forall k :: p < k < stop - 1 ==> s[k] != c)
    || (stop == |s| && forall k :: p < k < |s| ==> s[k] != c)
  }

  /** An identifier opened at `p` takes the whole `[A-Za-z0-9-]` run after it. */
  ghost predicate MaximalIdent(s: string, p: nat, stop: nat)
    requires p < stop <= |s|
  {
    && (forall k :: p < k < stop ==> IsIdentChar(s[k]))
    && (stop == |s| || !IsIdentChar(s[stop]))
  }

  /** Reads the one token that starts at the non-blank position `p`. */
  function LexToken(s: string, p: nat): (t: Token)
    requires p < |s| && !IsWhitespace(s[p])
    ensures t.start == p < t.stop <= |s|
    ensures t.lexeme == s[p..t.stop]
    ensures s[p] == '(' ==> t.kind == Gdb && ClosedBy(s, p, t.stop, ')')
    ensures s[p] == '"' ==> t.kind == String && ClosedBy(s, p, t.stop, '"')
    ensures Punctuation(s[p]).Some? ==> t.kind == Punctuation(s[p]).value && t.stop == p + 1
    ensures s[p] != '(' && s[p] != '"' && Punctuation(s[p]).None? ==>
              t.kind == Identifier && MaximalIdent(s, p, t.stop)
  {
    var c := s[p];
    if c == '(' || c == '"' then
      var q := ScanTo(s, p + 1, if c == '(' then ')' else '"');
      var stop := if q < |s| then q + 1 else q;
      Token(if c == '(' then Gdb else String, s[p..stop], p, stop)
    else
      match Punctuation(c)
      case Some(kind) => Token(kind, s[p..p + 1], p, p + 1)
      case None =>
        var stop := ScanIdent(s, p + 1);
        Token(Identifier, s[p..stop], p, stop)
  }

  /** How the tokens lie in the input from position `i` on: each token is the
      exact slice it spans, it starts on a non-blank character, only
      whitespace separates consecutive tokens, and only whitespace follows
      the last one. */
  ghost predicate Layout(s: string, i: nat, ts: seq<Token>)
    decreases |ts|
  {
    if |ts| == 0 then i <= |s| && AllWhitespace(s, i, |s|)
    else
      && i <= ts[0].start < ts[0].stop <= |s|
      && AllWhitespace(s, i, ts[0].start)
      && !IsWhitespace(s[ts[0].start])
      && ts[0].lexeme == s[ts[0].start..ts[0].stop]
      && Layout(s, ts[0].stop, ts[1..])
  }

  /** The lexer loop from input position `i`. */
  function LexFrom(s: string, i: nat): (ts: seq<Token>)
    requires i <= |s|
    ensures Layout(s, i, ts)
    ensures forall k :: 0 <= k < |ts| ==> i <= ts[k].start < |s| && !IsWhitespace(s[ts[k].start]) && ts[k] == LexToken(s, ts[k].start)
    decreases |s| - i
  {
    var p := SkipWhitespace(s, i);
    if p == |s| then []
    else
      var t := LexToken(s, p);
      var rest := LexFrom(s, t.stop);
      assert ([t] + rest)[1..] == rest;
      [t] + rest
  }

  /** All tokens of a chunk, in input order. */
  function Tokenize(s: string): (ts: seq<Token>)
    ensures Layout(s, 0, ts)
    ensures forall k :: 0 <= k < |ts| ==> ts[k].start < |s| && !IsWhitespace(s[ts[k].start]) && ts[k] == LexToken(s, ts[k].start)
  {
    LexFrom(s, 0)
  }

  /** Tokens laid out from position `i` appear in input order without
      overlapping, and none starts before `i`. */
  lemma {:induction false} LayoutOrdered(s: string, i: nat, ts: seq<Token>)
    requires Layout(s, i, ts)
    ensures forall k :: 0 <= k < |ts| ==> i <= ts[k].start < ts[k].stop <= |s|
    ensures forall j, k :: 0 <= j < k < |ts| ==> ts[j].stop <= ts[k].start
    decreases |ts|
  {
    if |ts| > 0 {
      LayoutOrdered(s, ts[0].stop, ts[1..]);
      assert forall k :: 1 <= k < |ts| ==> ts[k] == ts[1..][k - 1];
    }
  }

  /** The input is recovered from the tokens by putting back the skipped
      whitespace: every character outside every token is whitespace. */
  lemma {:induction false} LayoutCovers(s: string, i: nat, ts: seq<Token>, m: nat)
    requires Layout(s, i, ts)
    requires i <= m < |s|
    requires forall k :: 0 <= k < |ts| ==> !(ts[k].start <= m < ts[k].stop)
    ensures IsWhitespace(s[m])
    decreases |ts|
  {
    if |ts| > 0 && m >= ts[0].stop {
      assert forall k :: 0 <= k < |ts| - 1 ==> ts[1..][k] == ts[k + 1];
      LayoutCovers(s, ts[0].stop, ts[1..], m);
    }
  }
}
