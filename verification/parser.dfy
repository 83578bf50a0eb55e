/** The MI grammar parser: a recursive-descent reader over the token
    sequence of one chunk, with one token of lookahead. A position `pos`
    plays the role of the lexer's cursor: a token before `pos` has been
    taken with `next()`, the token at `pos` is what `peek()` shows.

    Quirks kept from the program: `consume` takes one token even when its
    kind is wrong; a named list `[a=..]` returns without taking its `]`;
    a result record's token is the lexeme of the token read just before the
    `^` in the same scan; records that do not parse are skipped. */
module Parser {
  import opened Base
  import opened Lexer
  import opened Syntax

  /** What a parsing step produced (`None` is the program's `null`) and
      where the cursor stands afterwards. */
  datatype Step<+T> = Step(result: Option<T>, pos: nat)

  /** `peek()?.type === kind`. */
  predicate PeekIs(ts: seq<Token>, i: nat, kind: TokenKind) {
    i < |ts| && ts[i].kind == kind
  }

  /** `consume(kind)`: takes the next token whatever its kind, and hands it
      back only when the kind matches. */
  function Consume(ts: seq<Token>, i: nat, kind: TokenKind): (r: Step<Token>)
    requires i <= |ts|
    ensures r.pos == if i < |ts| then i + 1 else i
    ensures r.result.Some? <==> PeekIs(ts, i, kind)
    ensures r.result.Some? ==> r.result.value == ts[i]
  {
    if i == |ts| then Step(None, i)
    else if ts[i].kind == kind then Step(Some(ts[i]), i + 1)
    else Step(None, i + 1)
  }

  // ---------------------------------------------------------------------
  // Values
  // ---------------------------------------------------------------------

  /** `parseValue`: a string token, a tuple `{..}`, an empty list `[]`, a
      list of values `[v, ..]` or a list of results `[a=v, ..` (whose `]`
      is left in place). Anything else is `null`. */
  function ParseValue(ts: seq<Token>, i: nat): (r: Step<Value>)
    requires i <= |ts|
    ensures i <= r.pos <= |ts|
    ensures r.result.Some? ==> i < r.pos
    decreases |ts| - i, 0
  {
    if i == |ts| then Step(None, i)
    else if ts[i].kind == String then Step(Some(Str(ts[i].lexeme)), i + 1)
    else if ts[i].kind == LBracket then
      if PeekIs(ts, i + 1, Identifier) then
        var rs := ParseResults(ts, i + 1);
        if rs.result.None? then Step(None, rs.pos)
        else Step(Some(List(Results(rs.result.value))), rs.pos)
      else
        var vs := ParseValues(ts, i + 1);
        if vs.result.None? then Step(None, vs.pos)
        else Step(Some(List(Values(vs.result.value))), vs.pos)
    else if ts[i].kind == LBrace then
      var rs := ParseResults(ts, i + 1);
      if rs.result.None? then Step(None, rs.pos)
      else Step(Some(Tuple(rs.result.value)), Consume(ts, rs.pos, RBrace).pos)
    else Step(None, i + 1)
  }

  /** What `parseValue` makes of the token in front of it: a string is a
      value holding the quoted lexeme, `[]` the empty list, `[` and an
      identifier a list of results, `{` a tuple, and anything else nothing. */
  lemma ParseValueCases(ts: seq<Token>, i: nat)
    requires i <= |ts|
    ensures var r := ParseValue(ts, i);
      PeekIs(ts, i, String) ==> r == Step(Some(Str(ts[i].lexeme)), i + 1)
    ensures var r := ParseValue(ts, i);
      PeekIs(ts, i, LBracket) && PeekIs(ts, i + 1, RBracket) ==> r == Step(Some(List(Values([]))), i + 2)
    ensures var r := ParseValue(ts, i);
      PeekIs(ts, i, LBracket) && PeekIs(ts, i + 1, Identifier) && r.result.Some? ==>
        r.result.value.List? && r.result.value.elements.Results?
    ensures var r := ParseValue(ts, i);
      PeekIs(ts, i, LBrace) && r.result.Some? ==> r.result.value.Tuple?
    ensures var r := ParseValue(ts, i);
      !(PeekIs(ts, i, String) || PeekIs(ts, i, LBracket) || PeekIs(ts, i, LBrace)) ==> r.result.None?
  {
    if PeekIs(ts, i, LBracket) && PeekIs(ts, i + 1, RBracket) {
      assert ParseValues(ts, i + 1) == Step(Some([]), i + 2);
    }
  }

  /** The loop of a value list: values up to a `]`, each optionally followed
      by a comma; the `]` is taken at the end. */
  function ParseValues(ts: seq<Token>, i: nat): (r: Step<seq<Value>>)
    requires i <= |ts|
    ensures i <= r.pos <= |ts|
    ensures r.result.Some? ==> i < r.pos && ts[r.pos - 1].kind == RBracket
    decreases |ts| - i, 1
  {
    if PeekIs(ts, i, RBracket) then Step(Some([]), i + 1)
    else
      var v := ParseValue(ts, i);
      if v.result.None? then Step(None, v.pos)
      else
        var j := if PeekIs(ts, v.pos, Comma) then v.pos + 1 else v.pos;
        var rest := ParseValues(ts, j);
        if rest.result.None? then Step(None, rest.pos)
        else Step(Some([v.result.value] + rest.result.value), rest.pos)
  }

  /** `parseResults`: `name=value` pairs, with commas before any of them,
      for as long as the next token is an identifier or a comma. */
  function ParseResults(ts: seq<Token>, i: nat): (r: Step<seq<Result>>)
    requires i <= |ts|
    ensures i <= r.pos <= |ts|
    ensures r.result.Some? ==> !PeekIs(ts, r.pos, Identifier) && !PeekIs(ts, r.pos, Comma)
    ensures !PeekIs(ts, i, Identifier) && !PeekIs(ts, i, Comma) ==> r == Step(Some([]), i)
    decreases |ts| - i, 1
  {
    if !PeekIs(ts, i, Identifier) && !PeekIs(ts, i, Comma) then Step(Some([]), i)
    else
      var j := if PeekIs(ts, i, Comma) then i + 1 else i;
      var name := Consume(ts, j, Identifier);
      if name.result.None? then Step(None, name.pos)
      else
        var eq := Consume(ts, name.pos, Eq);
        if eq.result.None? then Step(None, eq.pos)
        else
          var v := ParseValue(ts, eq.pos);
          if v.result.None? then Step(None, v.pos)
          else
            var rest := ParseResults(ts, v.pos);
            if rest.result.None? then Step(None, rest.pos)
            else Step(Some([Result(name.result.value.lexeme, v.result.value)] + rest.result.value), rest.pos)
  }

  // ---------------------------------------------------------------------
  // Records
  // ---------------------------------------------------------------------

  /** The optional `,results` tail of a result or async record: a malformed
      tail still yields an (empty) result list. */
  function ParseTail(ts: seq<Token>, i: nat): (r: Step<seq<Result>>)
    requires i <= |ts|
    ensures i <= r.pos <= |ts| && r.result.Some?
    ensures !PeekIs(ts, i, Comma) ==> r == Step(Some([]), i)
  {
    if PeekIs(ts, i, Comma) then
      var rs := ParseResults(ts, i + 1);
      Step(Some(rs.result.GetOr([])), rs.pos)
    else Step(Some([]), i)
  }

  /** The scanning loop of `parseOutput`: `ts[i]` is the token `next` and
      `last` the token read before it in this scan. */
  function ScanRecord(ts: seq<Token>, i: nat, last: Token): (r: Step<Record>)
    requires i <= |ts|
    ensures i <= r.pos <= |ts|
    ensures i < |ts| ==> i < r.pos
    decreases |ts| - i
  {
    if i == |ts| then Step(None, i)
    else
      var next := ts[i];
      if next.kind == Caret then
        var cls := Consume(ts, i + 1, Identifier);
        if cls.result.None? then Step(None, cls.pos)
        else
          var tail := ParseTail(ts, cls.pos);
          Step(Some(ResultRec(ResultRecord(cls.result.value.lexeme, last.lexeme, tail.result.value))), tail.pos)
      else if next.kind == At then
        var str := Consume(ts, i + 1, String);
        if str.result.None? then Step(None, str.pos)
        else Step(Some(StreamRec(StreamRecord(Target, str.result.value.lexeme))), str.pos)
      else if next.kind == Star then
        var cls := Consume(ts, i + 1, Identifier);
        if cls.result.None? || cls.result.value.lexeme != "stopped" then ScanRecord(ts, cls.pos, next)
        else
          var tail := ParseTail(ts, cls.pos);
          Step(Some(AsyncRec(AsyncOutput(tail.result.value))), tail.pos)
      else ScanRecord(ts, i + 1, next)
  }

  /** `parseOutput`: the next record from position `i`, or `None` when the
      tokens scanned match no record. */
  function ParseOutput(ts: seq<Token>, i: nat): (r: Step<Record>)
    requires i <= |ts|
    ensures i <= r.pos <= |ts|
    ensures i < |ts| ==> i < r.pos
  {
    if i == |ts| then Step(None, i) else ScanRecord(ts, i, ts[i])
  }

  /** The caret at `k` opens the result record `rr` found by a scan that
      started at `i` after `last`: the identifier after it is the class, and
      the record's token is the lexeme of the token the scan looked at just
      before the caret. That is the token right before it, except after a
      skipped `*class` pair, where it is the `*`. */
  ghost predicate OpensResult(ts: seq<Token>, i: nat, last: Token, k: nat, rr: ResultRecord) {
    && i <= k && k + 1 < |ts|
    && ts[k].kind == Caret && ts[k + 1].kind == Identifier
    && rr.resultClass == ts[k + 1].lexeme
    && (|| rr.token == (if k == i then last.lexeme else ts[k - 1].lexeme)
        || (i + 2 <= k && ts[k - 2].kind == Star && rr.token == ts[k - 2].lexeme))
  }

  /** What a record found by the scan is made of. A stream record is an `@`
      followed by a string and is always of the target channel, quotes kept.
      A result record is a `^` followed by an identifier, which is its class
      unchecked; its token is the lexeme of the token read just before the
      `^` (`last` when the `^` is the first token looked at). An async record
      is a `*` followed by the identifier `stopped`. */
  lemma {:induction false} ScanRecordShape(ts: seq<Token>, i: nat, last: Token)
    requires i <= |ts|
    ensures var r := ScanRecord(ts, i, last);
      r.result.Some? && r.result.value.StreamRec? ==>
        && i + 2 <= r.pos && ts[r.pos - 2].kind == At && ts[r.pos - 1].kind == String
        && r.result.value.stream == StreamRecord(Target, ts[r.pos - 1].lexeme)
    ensures var r := ScanRecord(ts, i, last);
      r.result.Some? && r.result.value.ResultRec? ==>
        exists k: nat :: k + 1 < r.pos && OpensResult(ts, i, last, k, r.result.value.result)
    ensures var r := ScanRecord(ts, i, last);
      r.result.Some? && r.result.value.AsyncRec? ==>
        exists k :: i <= k && k + 1 < r.pos && ts[k].kind == Star
          && ts[k + 1].kind == Identifier && ts[k + 1].lexeme == "stopped"
    decreases |ts| - i
  {
    if i < |ts| {
      var next := ts[i];
      var r := ScanRecord(ts, i, last);
      if next.kind == Caret {
        var cls := Consume(ts, i + 1, Identifier);
        if cls.result.Some? {
          var tail := ParseTail(ts, cls.pos);
          assert r.pos == tail.pos >= i + 2;
          assert r.result.value.result.resultClass == ts[i + 1].lexeme;
          assert r.result.value.result.token == last.lexeme;
          assert OpensResult(ts, i, last, i, r.result.value.result);
        }
      } else if next.kind == At {
      } else if next.kind == Star {
        var cls := Consume(ts, i + 1, Identifier);
        if cls.result.None? || cls.result.value.lexeme != "stopped" {
          ScanRecordShape(ts, cls.pos, next);
          if r.result.Some? && r.result.value.ResultRec? {
            var k: nat :| k + 1 < r.pos && OpensResult(ts, cls.pos, next, k, r.result.value.result);
            assert OpensResult(ts, i, last, k, r.result.value.result);
          }
        } else {
          assert ts[i].kind == Star;
        }
      } else {
        ScanRecordShape(ts, i + 1, next);
        if r.result.Some? && r.result.value.ResultRec? {
          var k: nat :| k + 1 < r.pos && OpensResult(ts, i + 1, next, k, r.result.value.result);
          assert OpensResult(ts, i, last, k, r.result.value.result);
        }
      }
    }
  }

  /** The record shapes seen from `parseOutput`: a result record's token is
      the lexeme just before its `^`, or the `^` itself when the caret is
      the first token of the scan. A caret followed by an identifier always
      yields a result record, even when the result list after it is
      malformed. */
  lemma ParseOutputShape(ts: seq<Token>, i: nat)
    requires i <= |ts|
    ensures var r := ParseOutput(ts, i);
      r.result.Some? && r.result.value.StreamRec? ==>
        && i + 2 <= r.pos && ts[r.pos - 2].kind == At && ts[r.pos - 1].kind == String
        && r.result.value.stream == StreamRecord(Target, ts[r.pos - 1].lexeme)
    ensures var r := ParseOutput(ts, i);
      r.result.Some? && r.result.value.ResultRec? ==>
        i < |ts| && exists k: nat :: k + 1 < r.pos && OpensResult(ts, i, ts[i], k, r.result.value.result)
    ensures var r := ParseOutput(ts, i);
      r.result.Some? && r.result.value.AsyncRec? ==>
        exists k :: i <= k && k + 1 < r.pos && ts[k].kind == Star
          && ts[k + 1].kind == Identifier && ts[k + 1].lexeme == "stopped"
    ensures PeekIs(ts, i, Caret) && PeekIs(ts, i + 1, Identifier) ==>
      var r := ParseOutput(ts, i);
      r.result.Some? && r.result.value.ResultRec?
        && r.result.value.result == ResultRecord(ts[i + 1].lexeme, ts[i].lexeme, r.result.value.result.results)
  {
    if i < |ts| {
      ScanRecordShape(ts, i, ts[i]);
    }
  }

  /** The last token alone never completes a record. This is why scanning
      until every token is taken gives the same records as the program's
      loop, which stops once the lexer's character cursor reaches the end
      and may leave one peeked token unread. */
  lemma LoneTokenYieldsNothing(ts: seq<Token>)
    requires |ts| > 0
    ensures ParseOutput(ts, |ts| - 1).result.None?
  {
    var i := |ts| - 1;
    assert Consume(ts, i + 1, Identifier).result.None?;
    assert Consume(ts, i + 1, String).result.None?;
    assert ScanRecord(ts, i + 1, ts[i]).result.None?;
  }

  // ---------------------------------------------------------------------
  // Folding records into Output units
  // ---------------------------------------------------------------------

  /** Adds one record to the unit being built; a second result record closes
      the current unit and opens a new one. Closed units always hold a
      result record. */
  function Absorb(done: seq<Output>, cur: Output, rec: Record): (r: (seq<Output>, Output))
    requires forall k :: 0 <= k < |done| ==> done[k].result.Some?
    ensures forall k :: 0 <= k < |r.0| ==> r.0[k].result.Some?
  {
    match rec
    case StreamRec(s) => (done, cur.(streamRecords := cur.streamRecords + [s]))
    case AsyncRec(a) => (done, cur.(asyncOutputs := cur.asyncOutputs + [a]))
    case ResultRec(rr) =>
      if cur.result.Some? then (done + [cur], Output([], [], Some(rr)))
      else (done, cur.(result := Some(rr)))
  }

  /** The loop of `fromOutput` from position `i`, with the units closed so
      far and the unit being built. */
  function FoldUnits(ts: seq<Token>, i: nat, done: seq<Output>, cur: Output): (outs: seq<Output>)
    requires i <= |ts|
    requires forall k :: 0 <= k < |done| ==> done[k].result.Some?
    ensures forall k :: 0 <= k < |outs| ==> IsNotEmpty(outs[k])
    ensures forall k :: 0 <= k < |outs| - 1 ==> outs[k].result.Some?
    decreases |ts| - i
  {
    if i == |ts| then (if IsNotEmpty(cur) then done + [cur] else done)
    else
      var r := ParseOutput(ts, i);
      match r.result
      case None => FoldUnits(ts, r.pos, done, cur)
      case Some(rec) =>
        var next := Absorb(done, cur, rec);
        FoldUnits(ts, r.pos, next.0, next.1)
  }

  function FromTokens(ts: seq<Token>): (outs: seq<Output>)
    ensures forall k :: 0 <= k < |outs| ==> IsNotEmpty(outs[k])
    ensures forall k :: 0 <= k < |outs| - 1 ==> outs[k].result.Some?
  {
    FoldUnits(ts, 0, [], EmptyOutput)
  }

  /** `fromOutput`: the Output units of one chunk. No unit is empty, and
      every unit but the last carries a result record. */
  function FromOutput(s: string): (outs: seq<Output>)
    ensures forall k :: 0 <= k < |outs| ==> IsNotEmpty(outs[k])
    ensures forall k :: 0 <= k < |outs| - 1 ==> outs[k].result.Some?
  {
    FromTokens(Tokenize(s))
  }

  // ---------------------------------------------------------------------
  // The record stream, and what folding it into units keeps
  // ---------------------------------------------------------------------

  /** The records of a chunk in the order the scan finds them. */
  function Records(ts: seq<Token>, i: nat): seq<Record>
    requires i <= |ts|
    decreases |ts| - i
  {
    if i == |ts| then []
    else
      var r := ParseOutput(ts, i);
      (if r.result.Some? then [r.result.value] else []) + Records(ts, r.pos)
  }

  function ResultRecs(recs: seq<Record>): seq<ResultRecord>
    decreases |recs|
  {
    if |recs| == 0 then []
    else (if recs[0].ResultRec? then [recs[0].result] else []) + ResultRecs(recs[1..])
  }

  function StreamRecs(recs: seq<Record>): seq<StreamRecord>
    decreases |recs|
  {
    if |recs| == 0 then []
    else (if recs[0].StreamRec? then [recs[0].stream] else []) + StreamRecs(recs[1..])
  }

  function AsyncRecs(recs: seq<Record>): seq<AsyncOutput>
    decreases |recs|
  {
    if |recs| == 0 then []
    else (if recs[0].AsyncRec? then [recs[0].async] else []) + AsyncRecs(recs[1..])
  }

  function OptSeq<T>(o: Option<T>): seq<T> {
    if o.Some? then [o.value] else []
  }

  /** The result records of a list of units, in unit order. */
  function UnitResults(outs: seq<Output>): seq<ResultRecord>
    decreases |outs|
  {
    if |outs| == 0 then []
    else UnitResults(outs[..|outs| - 1]) + OptSeq(outs[|outs| - 1].result)
  }

  function UnitStreams(outs: seq<Output>): seq<StreamRecord>
    decreases |outs|
  {
    if |outs| == 0 then []
    else UnitStreams(outs[..|outs| - 1]) + outs[|outs| - 1].streamRecords
  }

  function UnitAsyncs(outs: seq<Output>): seq<AsyncOutput>
    decreases |outs|
  {
    if |outs| == 0 then []
    else UnitAsyncs(outs[..|outs| - 1]) + outs[|outs| - 1].asyncOutputs
  }

  /** How many units the records `recs` still produce when `cur` is the unit
      being built: one per result record, counting one already in `cur`,
      and a single unit when there is no result record but something to
      hold. */
  function UnitCount(cur: Output, recs: seq<Record>): nat {
    var n := |ResultRecs(recs)|;
    if cur.result.Some? then 1 + n
    else if n > 0 then n
    else if IsNotEmpty(cur) || |recs| > 0 then 1
    else 0
  }

  lemma UnitsAppend(outs: seq<Output>, o: Output)
    ensures UnitResults(outs + [o]) == UnitResults(outs) + OptSeq(o.result)
    ensures UnitStreams(outs + [o]) == UnitStreams(outs) + o.streamRecords
    ensures UnitAsyncs(outs + [o]) == UnitAsyncs(outs) + o.asyncOutputs
  {
    assert (outs + [o])[..|outs|] == outs;
  }

  lemma {:induction false} RecsConcat(a: seq<Record>, b: seq<Record>)
    ensures ResultRecs(a + b) == ResultRecs(a) + ResultRecs(b)
    ensures StreamRecs(a + b) == StreamRecs(a) + StreamRecs(b)
    ensures AsyncRecs(a + b) == AsyncRecs(a) + AsyncRecs(b)
    decreases |a|
  {
    if |a| > 0 {
      assert (a + b)[0] == a[0];
      assert (a + b)[1..] == a[1..] + b;
      RecsConcat(a[1..], b);
    } else {
      assert a + b == b;
    }
  }

  /** The same fold, over a record list already scanned. */
  function FoldRecs(recs: seq<Record>, done: seq<Output>, cur: Output): seq<Output>
    requires forall k :: 0 <= k < |done| ==> done[k].result.Some?
    decreases |recs|
  {
    if |recs| == 0 then (if IsNotEmpty(cur) then done + [cur] else done)
    else
      var next := Absorb(done, cur, recs[0]);
      FoldRecs(recs[1..], next.0, next.1)
  }

  /** The `fromOutput` loop, which scans and absorbs record by record, is the
      fold of the scanned record list. */
  lemma {:induction false} FoldUnitsIsFoldRecs(ts: seq<Token>, i: nat, done: seq<Output>, cur: Output)
    requires i <= |ts|
    requires forall k :: 0 <= k < |done| ==> done[k].result.Some?
    ensures FoldUnits(ts, i, done, cur) == FoldRecs(Records(ts, i), done, cur)
    decreases |ts| - i
  {
    if i < |ts| {
      var r := ParseOutput(ts, i);
      var rest := Records(ts, r.pos);
      if r.result.None? {
        assert Records(ts, i) == rest;
        FoldUnitsIsFoldRecs(ts, r.pos, done, cur);
      } else {
        var next := Absorb(done, cur, r.result.value);
        assert Records(ts, i) == [r.result.value] + rest;
        assert ([r.result.value] + rest)[1..] == rest;
        FoldUnitsIsFoldRecs(ts, r.pos, next.0, next.1);
      }
    }
  }

  /** The records of each kind already placed, in order: those of the
      closed units followed by those of the unit being built. */
  function PendingResults(done: seq<Output>, cur: Output): seq<ResultRecord> {
    UnitResults(done) + OptSeq(cur.result)
  }

  function PendingStreams(done: seq<Output>, cur: Output): seq<StreamRecord> {
    UnitStreams(done) + cur.streamRecords
  }

  function PendingAsyncs(done: seq<Output>, cur: Output): seq<AsyncOutput> {
    UnitAsyncs(done) + cur.asyncOutputs
  }

  /** Absorbing a record appends it to the placed records of its kind and
      leaves the other kinds alone. */
  lemma AbsorbKeeps(done: seq<Output>, cur: Output, rec: Record)
    requires forall k :: 0 <= k < |done| ==> done[k].result.Some?
    ensures var next := Absorb(done, cur, rec);
      PendingResults(next.0, next.1) == PendingResults(done, cur) + ResultRecs([rec])
    ensures var next := Absorb(done, cur, rec);
      PendingStreams(next.0, next.1) == PendingStreams(done, cur) + StreamRecs([rec])
    ensures var next := Absorb(done, cur, rec);
      PendingAsyncs(next.0, next.1) == PendingAsyncs(done, cur) + AsyncRecs([rec])
  {
    if rec.ResultRec? && cur.result.Some? {
      UnitsAppend(done, cur);
    }
  }

  /** Absorbing a record keeps the number of units the rest will produce. */
  lemma AbsorbCounts(done: seq<Output>, cur: Output, rec: Record, rest: seq<Record>)
    requires forall k :: 0 <= k < |done| ==> done[k].result.Some?
    ensures var next := Absorb(done, cur, rec);
      |next.0| + UnitCount(next.1, rest) == |done| + UnitCount(cur, [rec] + rest)
  {
    RecsConcat([rec], rest);
    assert ResultRecs([rec]) == (if rec.ResultRec? then [rec.result] else []);
  }

  /** Folding keeps every result record, in input order. */
  lemma {:induction false} FoldRecsKeepsResults(recs: seq<Record>, done: seq<Output>, cur: Output)
    requires forall k :: 0 <= k < |done| ==> done[k].result.Some?
    ensures UnitResults(FoldRecs(recs, done, cur)) == PendingResults(done, cur) + ResultRecs(recs)
    decreases |recs|
  {
    if |recs| == 0 {
      UnitsAppend(done, cur);
    } else {
      var next := Absorb(done, cur, recs[0]);
      var rest := recs[1..];
      assert recs == [recs[0]] + rest;
      RecsConcat([recs[0]], rest);
      FoldRecsKeepsResults(rest, next.0, next.1);
      AbsorbKeeps(done, cur, recs[0]);
    }
  }

  /** Folding keeps every stream record, in input order. */
  lemma {:induction false} FoldRecsKeepsStreams(recs: seq<Record>, done: seq<Output>, cur: Output)
    requires forall k :: 0 <= k < |done| ==> done[k].result.Some?
    ensures UnitStreams(FoldRecs(recs, done, cur)) == PendingStreams(done, cur) + StreamRecs(recs)
    decreases |recs|
  {
    if |recs| == 0 {
      UnitsAppend(done, cur);
    } else {
      var next := Absorb(done, cur, recs[0]);
      var rest := recs[1..];
      assert recs == [recs[0]] + rest;
      RecsConcat([recs[0]], rest);
      FoldRecsKeepsStreams(rest, next.0, next.1);
      AbsorbKeeps(done, cur, recs[0]);
    }
  }

  /** Folding keeps every async record, in input order. */
  lemma {:induction false} FoldRecsKeepsAsyncs(recs: seq<Record>, done: seq<Output>, cur: Output)
    requires forall k :: 0 <= k < |done| ==> done[k].result.Some?
    ensures UnitAsyncs(FoldRecs(recs, done, cur)) == PendingAsyncs(done, cur) + AsyncRecs(recs)
    decreases |recs|
  {
    if |recs| == 0 {
      UnitsAppend(done, cur);
    } else {
      var next := Absorb(done, cur, recs[0]);
      var rest := recs[1..];
      assert recs == [recs[0]] + rest;
      RecsConcat([recs[0]], rest);
      FoldRecsKeepsAsyncs(rest, next.0, next.1);
      AbsorbKeeps(done, cur, recs[0]);
    }
  }

  /** Folding closes one unit per result record. */
  lemma {:induction false} FoldRecsCounts(recs: seq<Record>, done: seq<Output>, cur: Output)
    requires forall k :: 0 <= k < |done| ==> done[k].result.Some?
    ensures |FoldRecs(recs, done, cur)| == |done| + UnitCount(cur, recs)
    decreases |recs|
  {
    if |recs| > 0 {
      var next := Absorb(done, cur, recs[0]);
      assert recs == [recs[0]] + recs[1..];
      FoldRecsCounts(recs[1..], next.0, next.1);
      AbsorbCounts(done, cur, recs[0], recs[1..]);
    }
  }

  /** `fromOutput` keeps every record of the chunk: the result, stream and
      async records of its units, read unit by unit, are those of the chunk
      in input order, and there is one unit per result record (one unit in
      all when records exist but none is a result record). */
  lemma FromOutputKeepsRecords(s: string)
    ensures var ts := Tokenize(s); var outs := FromOutput(s);
      && UnitResults(outs) == ResultRecs(Records(ts, 0))
      && UnitStreams(outs) == StreamRecs(Records(ts, 0))
      && UnitAsyncs(outs) == AsyncRecs(Records(ts, 0))
      && |outs| == (if |ResultRecs(Records(ts, 0))| > 0 then |ResultRecs(Records(ts, 0))|
                    else if |Records(ts, 0)| > 0 then 1 else 0)
  {
    var ts := Tokenize(s);
    FoldUnitsIsFoldRecs(ts, 0, [], EmptyOutput);
    FoldRecsKeepsResults(Records(ts, 0), [], EmptyOutput);
    FoldRecsKeepsStreams(Records(ts, 0), [], EmptyOutput);
    FoldRecsKeepsAsyncs(Records(ts, 0), [], EmptyOutput);
    FoldRecsCounts(Records(ts, 0), [], EmptyOutput);
  }
}
