/** The token form in which the debugger writes a value, and what the
    parser makes of it. Values written this way are read back exactly, with
    one exception the parser's grammar imposes: a named list `[a=..]`
    leaves its `]` unread. The tokens it leaves are closing brackets, so a
    named list, or a tuple whose last field ends in one, parses correctly
    as long as it is the last element of whatever encloses it, and the
    closers it leaves behind are skipped by the record scan. */
module Printer {
  import opened Base
  import opened Lexer
  import opened Syntax
  import opened Parser

  /** A token as the parser sees it; it does not look at spans. */
  function Tok(kind: TokenKind, lexeme: string): Token {
    Token(kind, lexeme, 0, 0)
  }

  /** The tokens of a value: a string is one token, a tuple is `{..}`, a
      list is `[..]`, elements separated by commas. */
  function ValueTokens(v: Value): seq<Token>
    decreases v, 2
  {
    match v
    case Str(raw) => [Tok(String, raw)]
    case Tuple(fields) => [Tok(LBrace, "{")] + ResultsTokens(fields, false) + [Tok(RBrace, "}")]
    case List(Values(vs)) => [Tok(LBracket, "[")] + ValuesTokens(vs)
    case List(Results(rs)) => [Tok(LBracket, "[")] + ResultsTokens(rs, false) + [Tok(RBracket, "]")]
  }

  /** `name=value` pairs separated by commas; `lead` puts a comma before the
      first one too. */
  function ResultsTokens(rs: seq<Result>, lead: bool): seq<Token>
    decreases rs, if lead then 1 else 0
  {
    if |rs| == 0 then []
    else if lead then [Tok(Comma, ",")] + ResultsTokens(rs, false)
    else [Tok(Identifier, rs[0].variable), Tok(Eq, "=")] + (ValueTokens(rs[0].value) + ResultsTokens(rs[1..], true))
  }

  /** The elements of a value list and its closing `]`. */
  function ValuesTokens(vs: seq<Value>): seq<Token>
    decreases vs, 0
  {
    if |vs| == 0 then [Tok(RBracket, "]")]
    else if |vs| == 1 then ValueTokens(vs[0]) + [Tok(RBracket, "]")]
    else ValueTokens(vs[0]) + ([Tok(Comma, ",")] + ValuesTokens(vs[1..]))
  }

  /** How many of a value's closing tokens the parser leaves unread: one for
      each named list that ends the value. */
  function Lag(v: Value): nat
    decreases v
  {
    match v
    case Str(_) => 0
    case Tuple(fields) => if |fields| == 0 then 0 else Lag(fields[|fields| - 1].value)
    case List(Values(_)) => 0
    case List(Results(rs)) => if |rs| == 0 then 1 else Lag(rs[|rs| - 1].value) + 1
  }

  function ResultsLag(rs: seq<Result>): nat {
    if |rs| == 0 then 0 else Lag(rs[|rs| - 1].value)
  }

  /** The values the parser reads back: named lists are not empty (an empty
      `[]` reads as a value list), and only the last element of a tuple or
      a named list may leave closers unread; a value-list element may not. */
  predicate WellNested(v: Value)
    decreases v, 1
  {
    match v
    case Str(_) => true
    case Tuple(fields) => ResultsNested(fields)
    case List(Values(vs)) => forall k :: 0 <= k < |vs| ==> WellNested(vs[k]) && Lag(vs[k]) == 0
    case List(Results(rs)) => |rs| > 0 && ResultsNested(rs)
  }

  predicate ResultsNested(rs: seq<Result>)
    decreases rs, 0
  {
    forall k :: 0 <= k < |rs| ==> WellNested(rs[k].value) && (k < |rs| - 1 ==> Lag(rs[k].value) == 0)
  }

  /** The token at `k` does not continue a result list: it is neither an
      identifier nor a comma. */
  predicate EndsResults(ts: seq<Token>, k: nat) {
    !PeekIs(ts, k, Identifier) && !PeekIs(ts, k, Comma)
  }

  /** The tokens `p` stand at position `i` of `ts`, spans aside. */
  predicate Placed(ts: seq<Token>, i: nat, p: seq<Token>) {
    i + |p| <= |ts| && forall k :: 0 <= k < |p| ==> ts[i + k].kind == p[k].kind && ts[i + k].lexeme == p[k].lexeme
  }

  /** One placed token. */
  lemma At(ts: seq<Token>, i: nat, p: seq<Token>, k: nat)
    requires Placed(ts, i, p) && k < |p|
    ensures i + k < |ts| && ts[i + k].kind == p[k].kind && ts[i + k].lexeme == p[k].lexeme
  {
  }

  predicate IsCloser(kind: TokenKind) {
    kind == RBracket || kind == RBrace
  }

  lemma PlacedSplit(ts: seq<Token>, i: nat, a: seq<Token>, b: seq<Token>)
    requires Placed(ts, i, a + b)
    ensures Placed(ts, i, a) && Placed(ts, i + |a|, b)
  {
    forall k | 0 <= k < |b|
      ensures ts[i + |a| + k].kind == b[k].kind && ts[i + |a| + k].lexeme == b[k].lexeme
    {
      assert (a + b)[|a| + k] == b[k];
    }
    forall k | 0 <= k < |a|
      ensures ts[i + k].kind == a[k].kind && ts[i + k].lexeme == a[k].lexeme
    {
      assert (a + b)[k] == a[k];
    }
  }

  lemma PlacedSplit3(ts: seq<Token>, i: nat, a: seq<Token>, b: seq<Token>, c: seq<Token>)
    requires Placed(ts, i, a + (b + c))
    ensures Placed(ts, i, a) && Placed(ts, i + |a|, b) && Placed(ts, i + |a| + |b|, c)
  {
    PlacedSplit(ts, i, a, b + c);
    PlacedSplit(ts, i + |a|, b, c);
  }

  // How each form is written, one level at a time.

  lemma TupleTokens(fields: seq<Result>)
    ensures ValueTokens(Tuple(fields)) == [Tok(LBrace, "{")] + (ResultsTokens(fields, false) + [Tok(RBrace, "}")])
  {
  }

  lemma NamedListTokens(rs: seq<Result>)
    ensures ValueTokens(List(Results(rs))) == [Tok(LBracket, "[")] + (ResultsTokens(rs, false) + [Tok(RBracket, "]")])
  {
  }

  lemma ValuesTokensOne(vs: seq<Value>)
    requires |vs| == 1
    ensures ValuesTokens(vs) == ValueTokens(vs[0]) + [Tok(RBracket, "]")]
  {
  }

  lemma ValuesTokensMore(vs: seq<Value>)
    requires |vs| > 1
    ensures ValuesTokens(vs) == ValueTokens(vs[0]) + ([Tok(Comma, ",")] + ValuesTokens(vs[1..]))
  {
  }

  /** The last result: nothing is written after its value. */
  lemma ResultsTokensLast(rs: seq<Result>)
    requires |rs| == 1
    ensures ResultsTokens(rs, false) == [Tok(Identifier, rs[0].variable), Tok(Eq, "=")] + (ValueTokens(rs[0].value) + [])
    ensures ResultsTokens(rs[1..], true) == []
  {
    ResultsTokensCons(rs);
  }

  lemma AppendEmpty<T>(a: seq<T>)
    ensures a + [] == a
  {
  }

  lemma ConsDrop<T>(s: seq<T>)
    requires |s| > 0
    ensures [s[0]] + s[1..] == s
  {
  }

  lemma ResultsTokensCons(rs: seq<Result>)
    requires |rs| > 0
    ensures ResultsTokens(rs, false)
      == [Tok(Identifier, rs[0].variable), Tok(Eq, "=")] + (ValueTokens(rs[0].value) + ResultsTokens(rs[1..], true))
  {
  }

  /** Written with a leading comma, a non-empty result list is that comma
      and the list written without one. */
  lemma LeadComma(rs: seq<Result>)
    requires |rs| > 0
    ensures ResultsTokens(rs, true) == [Tok(Comma, ",")] + ResultsTokens(rs, false)
  {
  }

  /** A value starts with a string, a `{` or a `[`. */
  lemma ValueStart(v: Value)
    ensures |ValueTokens(v)| > 0
    ensures ValueTokens(v)[0].kind == String || ValueTokens(v)[0].kind == LBrace || ValueTokens(v)[0].kind == LBracket
  {
    match v
    case Str(_) =>
    case Tuple(fields) => TupleTokens(fields);
    case List(Values(vs)) =>
    case List(Results(rs)) => NamedListTokens(rs);
  }

  /** The last `n` tokens of `p` are closers. */
  predicate EndsWithClosers(p: seq<Token>, n: nat) {
    n <= |p| && forall k :: |p| - n <= k < |p| ==> IsCloser(p[k].kind)
  }

  lemma ClosersAfter(a: seq<Token>, b: seq<Token>, n: nat)
    requires EndsWithClosers(b, n)
    ensures EndsWithClosers(a + b, n)
  {
    forall k | |a + b| - n <= k < |a + b|
      ensures IsCloser((a + b)[k].kind)
    {
      assert (a + b)[k] == b[k - |a|];
    }
  }

  lemma ClosersSnoc(a: seq<Token>, c: Token, n: nat)
    requires EndsWithClosers(a, n) && IsCloser(c.kind)
    ensures EndsWithClosers(a + [c], n + 1)
  {
    forall k | |a + [c]| - (n + 1) <= k < |a + [c]|
      ensures IsCloser((a + [c])[k].kind)
    {
      if k < |a| {
        assert (a + [c])[k] == a[k];
      }
    }
  }

  /** The tokens a value leaves unread are closers, and it always takes at
      least its first token. */
  lemma {:induction false} LagClosers(v: Value)
    requires WellNested(v)
    ensures Lag(v) < |ValueTokens(v)| && EndsWithClosers(ValueTokens(v), Lag(v))
    decreases v, 2
  {
    match v
    case Str(_) =>
    case List(Values(_)) =>
    case Tuple(fields) =>
      TupleTokens(fields);
      var inner := ResultsTokens(fields, false);
      if |fields| > 0 {
        ResultsClosers(fields, false);
        ClosersSnoc(inner, Tok(RBrace, "}"), ResultsLag(fields));
        ClosersAfter([Tok(LBrace, "{")], inner + [Tok(RBrace, "}")], ResultsLag(fields));
      }
    case List(Results(rs)) =>
      NamedListTokens(rs);
      var inner := ResultsTokens(rs, false);
      ResultsClosers(rs, false);
      ClosersSnoc(inner, Tok(RBracket, "]"), ResultsLag(rs));
      ClosersAfter([Tok(LBracket, "[")], inner + [Tok(RBracket, "]")], ResultsLag(rs) + 1);
  }

  /** A result list ends with the closers its last value leaves unread. */
  lemma {:induction false} ResultsClosers(rs: seq<Result>, lead: bool)
    requires |rs| > 0 && ResultsNested(rs)
    ensures EndsWithClosers(ResultsTokens(rs, lead), ResultsLag(rs))
    decreases rs, if lead then 1 else 0
  {
    if lead {
      ResultsClosers(rs, false);
      LeadComma(rs);
      ClosersAfter([Tok(Comma, ",")], ResultsTokens(rs, false), ResultsLag(rs));
    } else {
      var t := ValueTokens(rs[0].value);
      var rest := ResultsTokens(rs[1..], true);
      ResultsTokensCons(rs);
      ResultsNestedTail(rs);
      if |rs| > 1 {
        ResultsClosers(rs[1..], true);
        ClosersAfter(t, rest, ResultsLag(rs));
      } else {
        LagClosers(rs[0].value);
        ResultsTokensLast(rs);
        AppendEmpty(t);
      }
      ClosersAfter([Tok(Identifier, rs[0].variable), Tok(Eq, "=")], t + rest, ResultsLag(rs));
    }
  }

  // ---------------------------------------------------------------------
  // Reading written values back
  // ---------------------------------------------------------------------

  /** A value written at `i` reads back as itself, stopping before the
      closers it leaves unread. */
  lemma {:induction false} ParseValuePrinted(v: Value, ts: seq<Token>, i: nat)
    requires WellNested(v) && Placed(ts, i, ValueTokens(v))
    ensures ParseValue(ts, i).result == Some(v)
    ensures ParseValue(ts, i).pos + Lag(v) == i + |ValueTokens(v)|
    decreases v, 2
  {
    match v
    case Str(raw) =>
      At(ts, i, ValueTokens(v), 0);
    case Tuple(fields) =>
      TuplePrinted(fields, ts, i);
    case List(Values(vs)) =>
      ValueListPrinted(vs, ts, i);
    case List(Results(rs)) =>
      NamedListPrinted(rs, ts, i);
  }

  lemma {:induction false} TuplePrinted(fields: seq<Result>, ts: seq<Token>, i: nat)
    requires ResultsNested(fields) && Placed(ts, i, ValueTokens(Tuple(fields)))
    ensures ParseValue(ts, i).result == Some(Tuple(fields))
    ensures ParseValue(ts, i).pos + ResultsLag(fields) == i + |ValueTokens(Tuple(fields))|
    decreases fields, 3
  {
    var inner := ResultsTokens(fields, false);
    TupleTokens(fields);
    PlacedSplit3(ts, i, [Tok(LBrace, "{")], inner, [Tok(RBrace, "}")]);
    At(ts, i, [Tok(LBrace, "{")], 0);
    At(ts, i + 1 + |inner|, [Tok(RBrace, "}")], 0);
    ParseResultsPrinted(fields, false, ts, i + 1);
    TupleStep(ts, i, fields, ParseResults(ts, i + 1).pos);
  }

  lemma {:induction false} ValueListPrinted(vs: seq<Value>, ts: seq<Token>, i: nat)
    requires WellNested(List(Values(vs))) && Placed(ts, i, ValueTokens(List(Values(vs))))
    ensures ParseValue(ts, i) == Step(Some(List(Values(vs))), i + |ValueTokens(List(Values(vs)))|)
    decreases vs, 3
  {
    var inner := ValuesTokens(vs);
    PlacedSplit(ts, i, [Tok(LBracket, "[")], inner);
    At(ts, i, [Tok(LBracket, "[")], 0);
    ValuesStart(vs);
    At(ts, i + 1, inner, 0);
    ParseValuesPrinted(vs, ts, i + 1);
    ValueListStep(ts, i, vs, i + 1 + |inner|);
  }

  lemma {:induction false} NamedListPrinted(rs: seq<Result>, ts: seq<Token>, i: nat)
    requires WellNested(List(Results(rs))) && Placed(ts, i, ValueTokens(List(Results(rs))))
    ensures ParseValue(ts, i).result == Some(List(Results(rs)))
    ensures ParseValue(ts, i).pos + ResultsLag(rs) + 1 == i + |ValueTokens(List(Results(rs)))|
    decreases rs, 3
  {
    var inner := ResultsTokens(rs, false);
    NamedListTokens(rs);
    PlacedSplit3(ts, i, [Tok(LBracket, "[")], inner, [Tok(RBracket, "]")]);
    At(ts, i, [Tok(LBracket, "[")], 0);
    ResultsTokensCons(rs);
    PlacedSplit(ts, i + 1, [Tok(Identifier, rs[0].variable), Tok(Eq, "=")],
                ValueTokens(rs[0].value) + ResultsTokens(rs[1..], true));
    At(ts, i + 1, [Tok(Identifier, rs[0].variable), Tok(Eq, "=")], 0);
    At(ts, i + 1 + |inner|, [Tok(RBracket, "]")], 0);
    ParseResultsPrinted(rs, false, ts, i + 1);
    NamedListStep(ts, i, rs, ParseResults(ts, i + 1).pos);
  }

  /** A value list's first token is never an identifier, and it is a `]`
      only when the list is empty. */
  lemma ValuesStart(vs: seq<Value>)
    ensures |ValuesTokens(vs)| > 0
    ensures ValuesTokens(vs)[0].kind != Identifier
    ensures ValuesTokens(vs)[0].kind == RBracket <==> |vs| == 0
  {
    if |vs| > 0 {
      ValueStart(vs[0]);
    }
  }

  /** A tuple, in the parser's terms: a `{`, the results, and one more
      token taken for the `}`. */
  lemma TupleStep(ts: seq<Token>, i: nat, fields: seq<Result>, e: nat)
    requires PeekIs(ts, i, LBrace)
    requires ParseResults(ts, i + 1).result == Some(fields) && ParseResults(ts, i + 1).pos == e && e < |ts|
    ensures ParseValue(ts, i).result == Some(Tuple(fields)) && ParseValue(ts, i).pos == e + 1
  {
  }

  /** A named list, in the parser's terms: a `[`, then results from the
      identifier on, and nothing taken for the `]`. */
  lemma NamedListStep(ts: seq<Token>, i: nat, rs: seq<Result>, e: nat)
    requires PeekIs(ts, i, LBracket) && PeekIs(ts, i + 1, Identifier)
    requires ParseResults(ts, i + 1).result == Some(rs) && ParseResults(ts, i + 1).pos == e
    ensures ParseValue(ts, i).result == Some(List(Results(rs))) && ParseValue(ts, i).pos == e
  {
  }

  /** A value list, in the parser's terms: a `[` not followed by an
      identifier, then the values and the `]`. */
  lemma ValueListStep(ts: seq<Token>, i: nat, vs: seq<Value>, e: nat)
    requires PeekIs(ts, i, LBracket) && !PeekIs(ts, i + 1, Identifier)
    requires ParseValues(ts, i + 1) == Step(Some(vs), e)
    ensures ParseValue(ts, i) == Step(Some(List(Values(vs))), e)
  {
  }

  /** One element of a value list, in the parser's terms: a value that is
      not a `]`, an optional comma, and the rest of the list. */
  lemma ValuesCons(ts: seq<Token>, i: nat, j: nat, e: nat, x: Value, xs: seq<Value>)
    requires i < |ts| && ts[i].kind != RBracket
    requires ParseValue(ts, i) == Step(Some(x), j)
    requires j <= |ts| && ParseValues(ts, if PeekIs(ts, j, Comma) then j + 1 else j) == Step(Some(xs), e)
    ensures ParseValues(ts, i) == Step(Some([x] + xs), e)
  {
  }

  /** One result, in the parser's terms: an optional comma, a name, `=`, a
      value and the rest of the results. */
  lemma ResultsCons(ts: seq<Token>, i: nat, j: nat, k: nat, e: nat, x: Value, xs: seq<Result>)
    requires j == (if PeekIs(ts, i, Comma) then i + 1 else i)
    requires PeekIs(ts, j, Identifier) && PeekIs(ts, j + 1, Eq)
    requires ParseValue(ts, j + 2).result == Some(x) && ParseValue(ts, j + 2).pos == k
    requires k <= |ts| && ParseResults(ts, k).result == Some(xs) && ParseResults(ts, k).pos == e
    ensures ParseResults(ts, i).result == Some([Result(ts[j].lexeme, x)] + xs)
    ensures ParseResults(ts, i).pos == e
  {
    ConsumeHit(ts, j, Identifier);
    ConsumeHit(ts, j + 1, Eq);
  }

  /** `consume` at a token of the kind asked for takes it. */
  lemma ConsumeHit(ts: seq<Token>, i: nat, kind: TokenKind)
    requires PeekIs(ts, i, kind)
    ensures Consume(ts, i, kind) == Step(Some(ts[i]), i + 1)
  {
  }

  /** A value list's first value stands at its start, and is not a `]`. */
  lemma ValuesFirst(vs: seq<Value>, ts: seq<Token>, i: nat)
    requires |vs| > 0 && Placed(ts, i, ValuesTokens(vs))
    ensures Placed(ts, i, ValueTokens(vs[0]))
    ensures i < |ts| && ts[i].kind != RBracket
  {
    var t := ValueTokens(vs[0]);
    if |vs| == 1 {
      ValuesTokensOne(vs);
      PlacedSplit(ts, i, t, [Tok(RBracket, "]")]);
    } else {
      ValuesTokensMore(vs);
      PlacedSplit(ts, i, t, [Tok(Comma, ",")] + ValuesTokens(vs[1..]));
    }
    ValueStart(vs[0]);
    At(ts, i, t, 0);
  }

  /** The only value of a list is followed by its `]`. */
  lemma ValuesLast(vs: seq<Value>, ts: seq<Token>, i: nat)
    requires |vs| == 1 && Placed(ts, i, ValuesTokens(vs))
    ensures PeekIs(ts, i + |ValueTokens(vs[0])|, RBracket)
    ensures |ValuesTokens(vs)| == |ValueTokens(vs[0])| + 1
  {
    ValuesTokensOne(vs);
    SplitLast(ts, i, ValueTokens(vs[0]), Tok(RBracket, "]"));
  }

  /** A value that is not the last is followed by a comma and the rest. */
  lemma ValuesMore(vs: seq<Value>, ts: seq<Token>, i: nat)
    requires |vs| > 1 && Placed(ts, i, ValuesTokens(vs))
    ensures PeekIs(ts, i + |ValueTokens(vs[0])|, Comma)
    ensures Placed(ts, i + |ValueTokens(vs[0])| + 1, ValuesTokens(vs[1..]))
    ensures |ValuesTokens(vs)| == |ValueTokens(vs[0])| + 1 + |ValuesTokens(vs[1..])|
  {
    ValuesTokensMore(vs);
    SplitComma(ts, i, ValueTokens(vs[0]), ValuesTokens(vs[1..]));
  }

  lemma SplitLast(ts: seq<Token>, i: nat, t: seq<Token>, c: Token)
    requires Placed(ts, i, t + [c])
    ensures i + |t| < |ts| && ts[i + |t|].kind == c.kind
  {
    PlacedSplit(ts, i, t, [c]);
    At(ts, i + |t|, [c], 0);
  }

  lemma SplitComma(ts: seq<Token>, i: nat, t: seq<Token>, rest: seq<Token>)
    requires Placed(ts, i, t + ([Tok(Comma, ",")] + rest))
    ensures PeekIs(ts, i + |t|, Comma) && Placed(ts, i + |t| + 1, rest)
  {
    PlacedSplit3(ts, i, t, [Tok(Comma, ",")], rest);
    At(ts, i + |t|, [Tok(Comma, ",")], 0);
  }

  /** The elements of a value list and its `]` read back as written. */
  lemma {:induction false} ParseValuesPrinted(vs: seq<Value>, ts: seq<Token>, i: nat)
    requires forall k :: 0 <= k < |vs| ==> WellNested(vs[k]) && Lag(vs[k]) == 0
    requires Placed(ts, i, ValuesTokens(vs))
    ensures ParseValues(ts, i) == Step(Some(vs), i + |ValuesTokens(vs)|)
    decreases vs, 2
  {
    if |vs| == 0 {
      At(ts, i, ValuesTokens(vs), 0);
    } else {
      var j := i + |ValueTokens(vs[0])|;
      ValuesHeadParsed(vs, ts, i);
      ValuesRestParsed(vs, ts, i);
      ValuesCons(ts, i, j, i + |ValuesTokens(vs)|, vs[0], vs[1..]);
      ConsDrop(vs);
    }
  }

  /** The first value of a list reads back as itself. */
  lemma {:induction false} ValuesHeadParsed(vs: seq<Value>, ts: seq<Token>, i: nat)
    requires |vs| > 0 && WellNested(vs[0]) && Lag(vs[0]) == 0
    requires Placed(ts, i, ValuesTokens(vs))
    ensures i < |ts| && ts[i].kind != RBracket
    ensures ParseValue(ts, i) == Step(Some(vs[0]), i + |ValueTokens(vs[0])|)
    decreases vs, 1
  {
    ValuesFirst(vs, ts, i);
    ParseValuePrinted(vs[0], ts, i);
  }

  /** After the first value, the rest of the list reads back as itself. */
  lemma {:induction false} ValuesRestParsed(vs: seq<Value>, ts: seq<Token>, i: nat)
    requires |vs| > 0 && forall k :: 0 <= k < |vs| ==> WellNested(vs[k]) && Lag(vs[k]) == 0
    requires Placed(ts, i, ValuesTokens(vs))
    ensures var j := i + |ValueTokens(vs[0])|;
      j <= |ts| && ParseValues(ts, if PeekIs(ts, j, Comma) then j + 1 else j)
                   == Step(Some(vs[1..]), i + |ValuesTokens(vs)|)
    decreases vs, 1
  {
    var j := i + |ValueTokens(vs[0])|;
    if |vs| == 1 {
      ValuesLast(vs, ts, i);
      assert vs[1..] == [];
    } else {
      ValuesMore(vs, ts, i);
      ParseValuesPrinted(vs[1..], ts, j + 1);
    }
  }

  /** Where the parts of a non-empty result list stand. */
  lemma ResultsLayout(rs: seq<Result>, lead: bool, ts: seq<Token>, i: nat) returns (j: nat)
    requires |rs| > 0 && Placed(ts, i, ResultsTokens(rs, lead))
    ensures j == (if lead then i + 1 else i)
    ensures j == (if PeekIs(ts, i, Comma) then i + 1 else i)
    ensures PeekIs(ts, j, Identifier) && ts[j].lexeme == rs[0].variable && PeekIs(ts, j + 1, Eq)
    ensures Placed(ts, j + 2, ValueTokens(rs[0].value))
    ensures Placed(ts, j + 2 + |ValueTokens(rs[0].value)|, ResultsTokens(rs[1..], true))
    ensures i + |ResultsTokens(rs, lead)| == j + 2 + |ValueTokens(rs[0].value)| + |ResultsTokens(rs[1..], true)|
  {
    if lead {
      LeadComma(rs);
      PlacedSplit(ts, i, [Tok(Comma, ",")], ResultsTokens(rs, false));
      At(ts, i, [Tok(Comma, ",")], 0);
      j := i + 1;
      HeadLayout(rs, ts, j);
    } else {
      j := i;
      HeadLayout(rs, ts, j);
      At(ts, i, ResultsTokens(rs, false), 0);
    }
  }

  /** The same, for a list written without a leading comma. */
  lemma HeadLayout(rs: seq<Result>, ts: seq<Token>, j: nat)
    requires |rs| > 0 && Placed(ts, j, ResultsTokens(rs, false))
    ensures ResultsTokens(rs, false)[0].kind == Identifier
    ensures PeekIs(ts, j, Identifier) && ts[j].lexeme == rs[0].variable && PeekIs(ts, j + 1, Eq)
    ensures Placed(ts, j + 2, ValueTokens(rs[0].value))
    ensures Placed(ts, j + 2 + |ValueTokens(rs[0].value)|, ResultsTokens(rs[1..], true))
    ensures |ResultsTokens(rs, false)| == 2 + |ValueTokens(rs[0].value)| + |ResultsTokens(rs[1..], true)|
  {
    var name := [Tok(Identifier, rs[0].variable), Tok(Eq, "=")];
    var t := ValueTokens(rs[0].value);
    var rest := ResultsTokens(rs[1..], true);
    ResultsTokensCons(rs);
    PlacedSplit3(ts, j, name, t, rest);
    At(ts, j, name, 0);
    At(ts, j, name, 1);
  }

  /** The rest of a well-nested result list is well nested. */
  lemma ResultsNestedTail(rs: seq<Result>)
    requires |rs| > 0 && ResultsNested(rs)
    ensures ResultsNested(rs[1..]) && WellNested(rs[0].value)
    ensures |rs| > 1 ==> Lag(rs[0].value) == 0 && ResultsLag(rs[1..]) == ResultsLag(rs)
    ensures |rs| == 1 ==> ResultsLag(rs) == Lag(rs[0].value)
  {
    forall k | 0 <= k < |rs[1..]|
      ensures WellNested(rs[1..][k].value) && (k < |rs[1..]| - 1 ==> Lag(rs[1..][k].value) == 0)
    {
      assert rs[1..][k] == rs[k + 1];
    }
  }

  /** After the last result's value the result loop stops: either at the
      token that follows the list, or at the first closer the value left. */
  lemma ResultsEmptyAt(v: Value, ts: seq<Token>, i: nat, after: nat)
    requires WellNested(v) && Placed(ts, i, ValueTokens(v))
    requires after + Lag(v) == i + |ValueTokens(v)|
    requires Lag(v) == 0 ==> EndsResults(ts, after)
    ensures after <= |ts| && ParseResults(ts, after) == Step(Some([]), after)
  {
    LagClosers(v);
    if Lag(v) > 0 {
      At(ts, i, ValueTokens(v), after - i);
      assert IsCloser(ValueTokens(v)[after - i].kind);
    }
  }

  /** Results written at `i` read back as themselves. When the last value
      leaves nothing unread, the token after them must not continue the
      list (an identifier or a comma would be read as another result). */
  lemma {:induction false} ParseResultsPrinted(rs: seq<Result>, lead: bool, ts: seq<Token>, i: nat)
    requires ResultsNested(rs) && Placed(ts, i, ResultsTokens(rs, lead))
    requires ResultsLag(rs) == 0 ==>
      EndsResults(ts, i + |ResultsTokens(rs, lead)|)
    ensures ParseResults(ts, i).result == Some(rs)
    ensures ParseResults(ts, i).pos + ResultsLag(rs) == i + |ResultsTokens(rs, lead)|
    decreases rs, 2
  {
    if |rs| > 0 {
      var j, after := ResultsHeadParsed(rs, lead, ts, i);
      var end := i + |ResultsTokens(rs, lead)|;
      ResultsTailParsed(rs, ts, j + 2, after, end);
      ResultsCons(ts, i, j, after, ParseResults(ts, after).pos, rs[0].value, rs[1..]);
      ConsDrop(rs);
    }
  }

  /** The name, the `=` and the value of a result list's first result read
      back; `after` is where the value's parse stops. */
  lemma ResultsHeadParsed(rs: seq<Result>, lead: bool, ts: seq<Token>, i: nat) returns (j: nat, after: nat)
    requires |rs| > 0 && ResultsNested(rs) && Placed(ts, i, ResultsTokens(rs, lead))
    ensures j == (if PeekIs(ts, i, Comma) then i + 1 else i)
    ensures PeekIs(ts, j, Identifier) && ts[j].lexeme == rs[0].variable && PeekIs(ts, j + 1, Eq)
    ensures ParseValue(ts, j + 2).result == Some(rs[0].value) && ParseValue(ts, j + 2).pos == after
    ensures Placed(ts, j + 2, ValueTokens(rs[0].value))
    ensures Placed(ts, j + 2 + |ValueTokens(rs[0].value)|, ResultsTokens(rs[1..], true))
    ensures after + Lag(rs[0].value) == j + 2 + |ValueTokens(rs[0].value)|
    ensures i + |ResultsTokens(rs, lead)| == j + 2 + |ValueTokens(rs[0].value)| + |ResultsTokens(rs[1..], true)|
    decreases rs, 1
  {
    j := ResultsLayout(rs, lead, ts, i);
    ResultsNestedTail(rs);
    ParseValuePrinted(rs[0].value, ts, j + 2);
    after := ParseValue(ts, j + 2).pos;
  }

  /** Where the first value of a result list stops (`after`, short of its
      end by the closers it leaves), the rest of the list reads back. */
  lemma {:induction false} ResultsTailParsed(rs: seq<Result>, ts: seq<Token>, s: nat, after: nat, end: nat)
    requires |rs| > 0 && ResultsNested(rs)
    requires Placed(ts, s, ValueTokens(rs[0].value))
    requires Placed(ts, s + |ValueTokens(rs[0].value)|, ResultsTokens(rs[1..], true))
    requires after + Lag(rs[0].value) == s + |ValueTokens(rs[0].value)|
    requires end == s + |ValueTokens(rs[0].value)| + |ResultsTokens(rs[1..], true)|
    requires ResultsLag(rs) == 0 ==> EndsResults(ts, end)
    ensures after <= |ts|
    ensures ParseResults(ts, after).result == Some(rs[1..])
    ensures ParseResults(ts, after).pos + ResultsLag(rs) == end
    decreases rs, 1
  {
    ResultsNestedTail(rs);
    if |rs| > 1 {
      ParseResultsPrinted(rs[1..], true, ts, s + |ValueTokens(rs[0].value)|);
    } else {
      ResultsTokensLast(rs);
      ResultsEmptyAt(rs[0].value, ts, s, after);
    }
  }

  // ---------------------------------------------------------------------
  // Records
  // ---------------------------------------------------------------------

  /** A result record written with its token in front: `token^class` and,
      when there are results, `,` and the results. */
  function RecordTokens(rr: ResultRecord): seq<Token> {
    [Tok(Identifier, rr.token), Tok(Caret, "^"), Tok(Identifier, rr.resultClass)]
      + ResultsTokens(rr.results, true)
  }

  /** Where the parts of a written result record stand. */
  lemma RecordLayout(rr: ResultRecord, ts: seq<Token>, i: nat)
    requires Placed(ts, i, RecordTokens(rr))
    ensures i + 3 <= |ts|
    ensures ts[i].kind == Identifier && ts[i].lexeme == rr.token
    ensures ts[i + 1].kind == Caret
    ensures ts[i + 2].kind == Identifier && ts[i + 2].lexeme == rr.resultClass
    ensures Placed(ts, i + 3, ResultsTokens(rr.results, true))
  {
    var head := [Tok(Identifier, rr.token), Tok(Caret, "^"), Tok(Identifier, rr.resultClass)];
    PlacedSplit(ts, i, head, ResultsTokens(rr.results, true));
    At(ts, i, head, 0);
    At(ts, i, head, 1);
    At(ts, i, head, 2);
  }

  /** The scan at a `^` followed by an identifier: a result record with that
      class, the token looked at before, and the results that follow. */
  lemma ScanCaret(ts: seq<Token>, i: nat, last: Token)
    requires i + 1 < |ts| && ts[i].kind == Caret && ts[i + 1].kind == Identifier
    ensures var tail := ParseTail(ts, i + 2);
      ScanRecord(ts, i, last) == Step(Some(ResultRec(ResultRecord(ts[i + 1].lexeme, last.lexeme, tail.result.value))), tail.pos)
  {
    assert Consume(ts, i + 1, Identifier) == Step(Some(ts[i + 1]), i + 2);
  }

  /** The results of a record, written with their leading comma, read back
      as the record's tail. */
  lemma TailPrinted(rs: seq<Result>, ts: seq<Token>, s: nat)
    requires ResultsNested(rs) && Placed(ts, s, ResultsTokens(rs, true))
    requires ResultsLag(rs) == 0 ==>
      EndsResults(ts, s + |ResultsTokens(rs, true)|)
    ensures s <= |ts|
    ensures ParseTail(ts, s).result == Some(rs)
    ensures ParseTail(ts, s).pos + ResultsLag(rs) == s + |ResultsTokens(rs, true)|
  {
    if |rs| > 0 {
      LeadComma(rs);
      PlacedSplit(ts, s, [Tok(Comma, ",")], ResultsTokens(rs, false));
      At(ts, s, [Tok(Comma, ",")], 0);
      ParseResultsPrinted(rs, false, ts, s + 1);
      assert ParseTail(ts, s) == Step(Some(rs), ParseResults(ts, s + 1).pos);
    }
  }

  /** A written result record reads back as itself: its class, its token and
      every result, up to the closers the last result leaves unread. */
  lemma RecordPrinted(rr: ResultRecord, ts: seq<Token>, i: nat)
    requires ResultsNested(rr.results) && Placed(ts, i, RecordTokens(rr))
    requires ResultsLag(rr.results) == 0 ==>
      EndsResults(ts, i + |RecordTokens(rr)|)
    ensures ParseOutput(ts, i).result == Some(ResultRec(rr))
    ensures ParseOutput(ts, i).pos + ResultsLag(rr.results) == i + |RecordTokens(rr)|
  {
    RecordLayout(rr, ts, i);
    assert ParseOutput(ts, i) == ScanRecord(ts, i + 1, ts[i]);
    ScanCaret(ts, i + 1, ts[i]);
    TailPrinted(rr.results, ts, i + 3);
  }

  // ---------------------------------------------------------------------
  // A sibling after a named list
  // ---------------------------------------------------------------------

  /** `{a=[b="1"],c="2"}`: the tuple reads back without `c`. The named list
      stops before its `]`, the tuple's field loop stops there too, and the
      tuple takes the `]` for its `}`. */
  lemma SiblingAfterNamedList(ts: seq<Token>)
    requires ts == [Tok(LBrace, "{"), Tok(Identifier, "a"), Tok(Eq, "="), Tok(LBracket, "["),
                    Tok(Identifier, "b"), Tok(Eq, "="), Tok(String, "\"1\""), Tok(RBracket, "]"),
                    Tok(Comma, ","), Tok(Identifier, "c"), Tok(Eq, "="), Tok(String, "\"2\""), Tok(RBrace, "}")]
    ensures ParseValue(ts, 0) == Step(Some(Tuple([Result("a", List(Results([Result("b", Str("\"1\""))])))])), 8)
  {
    var inner := [Result("b", Str("\"1\""))];
    var outer := [Result("a", List(Results(inner)))];
    assert ParseResults(ts, 7) == Step(Some([]), 7);
    assert ParseValue(ts, 6) == Step(Some(Str("\"1\"")), 7);
    assert Consume(ts, 4, Identifier) == Step(Some(ts[4]), 5);
    assert Consume(ts, 5, Eq) == Step(Some(ts[5]), 6);
    assert [Result(ts[4].lexeme, Str("\"1\""))] + [] == inner;
    assert ParseResults(ts, 4) == Step(Some(inner), 7);
    assert ParseValue(ts, 3) == Step(Some(List(Results(inner))), 7);
    assert Consume(ts, 1, Identifier) == Step(Some(ts[1]), 2);
    assert Consume(ts, 2, Eq) == Step(Some(ts[2]), 3);
    assert [Result(ts[1].lexeme, List(Results(inner)))] + [] == outer;
    assert ParseResults(ts, 1) == Step(Some(outer), 7);
    assert Consume(ts, 7, RBrace).pos == 8;
  }
}
