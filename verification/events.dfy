/** The two output handlers of the debug session: target-stream records
    become terminal text, and an exec-async `stopped` record at a breakpoint
    becomes a stop event for the thread it names. The terminal and the event
    channel are not modelled: each handler returns what it would write or
    send. */
module Events {
  import opened Base
  import opened Text
  import opened Syntax
  import opened Session

  /** True when the text holds no backslash, so it carries no escape. */
  predicate NoBackslash(s: string) {
    forall k :: 0 <= k < |s| ==> s[k] != '\\'
  }

  /** A pattern holding a character the text lacks does not occur in it. */
  lemma AbsentFrom(s: string, pat: string, i: nat)
    requires i < |pat| && forall k :: 0 <= k < |s| ==> s[k] != pat[i]
    ensures forall k :: 0 <= k <= |s| ==> !OccursAt(s, pat, k)
  {
    forall k | 0 <= k <= |s|
      ensures !OccursAt(s, pat, k)
    {
      if k + |pat| <= |s| {
        assert s[k..k + |pat|][i] == s[k + i];
      }
    }
  }

  // ---------------------------------------------------------------------
  // Target stream
  // ---------------------------------------------------------------------

  /** `handleStreamRecord`: the text a target-stream record writes to the
      terminal, with its quotes removed and the first `\n` and the first `\r`
      escape decoded; other streams write nothing. */
  function HandleStreamRecord(record: StreamRecord): (w: Option<string>)
    ensures w.Some? <==> record.streamType == Target
    ensures w.Some? && NoBackslash(FromStr(record.output)) ==> w.value == FromStr(record.output)
  {
    if record.streamType == Target then
      var output := FromStr(record.output);
      var once := ReplaceFirst(output, "\\n", "\n");
      assert NoBackslash(output) ==> ReplaceFirst(once, "\\r", "\r") == output by {
        if NoBackslash(output) {
          AbsentFrom(output, "\\n", 0);
          AbsentFrom(output, "\\r", 0);
        }
      }
      Some(ReplaceFirst(once, "\\r", "\r"))
    else None
  }

  /** How the debugger writes program output into a stream record: a line
      feed or a carriage return becomes its two-character escape. */
  function EscapeLines(t: string): string
    decreases |t|
  {
    if |t| == 0 then ""
    else (if t[0] == '\n' then "\\n" else if t[0] == '\r' then "\\r" else [t[0]]) + EscapeLines(t[1..])
  }

  /** Only carriage returns escaped. */
  function EscapeReturns(t: string): string
    decreases |t|
  {
    if |t| == 0 then ""
    else (if t[0] == '\r' then "\\r" else [t[0]]) + EscapeReturns(t[1..])
  }

  /** The escaped form of a three-line text. */
  lemma EscapeThreeLines()
    ensures EscapeLines("a\nb\nc") == "a\\nb\\nc"
  {
    assert EscapeLines("c") == "c";
    assert EscapeLines("\nc") == "\\nc";
    assert EscapeLines("b\nc") == "b\\nc";
    assert EscapeLines("\nb\nc") == "\\nb\\nc";
  }

  /** The first replacement of the stream handler on that text. */
  lemma DecodeFirstOfTwo()
    ensures ReplaceFirst("a\\nb\\nc", "\\n", "\n") == "a\nb\\nc"
  {
    var escaped := "a\\nb\\nc";
    assert !OccursAt(escaped, "\\n", 0) by { assert escaped[0..2][0] == 'a'; }
    assert OccursAt(escaped, "\\n", 1) by { assert escaped[1..3] == "\\n"; }
    assert escaped[..1] + "\n" + escaped[3..] == "a\nb\\nc";
  }

  /** The second replacement finds no `\r` escape. */
  lemma NoReturnInFirstDecoded()
    ensures ReplaceFirst("a\nb\\nc", "\\r", "\r") == "a\nb\\nc"
  {
    AbsentFrom("a\nb\\nc", "\\r", 1);
  }

  /** Program output of two lines is written with the second line break still
      escaped, because a string pattern replaces its first occurrence only. */
  lemma StreamFirstEscapeOnly()
    ensures HandleStreamRecord(StreamRecord(Target, Quote(EscapeLines("a\nb\nc")))) == Some("a\nb\\nc")
    ensures HandleStreamRecord(StreamRecord(Target, Quote(EscapeLines("a\nb\nc")))) != Some("a\nb\nc")
  {
    EscapeThreeLines();
    FromStrQuote("a\\nb\\nc");
    DecodeFirstOfTwo();
    NoReturnInFirstDecoded();
    assert "a\nb\\nc"[3] != "a\nb\nc"[3];
  }

  /** The handler with every escape decoded, as the debugger's stream
      encoding calls for. */
  function HandleStreamRecordAll(record: StreamRecord): (w: Option<string>)
    ensures w.Some? <==> record.streamType == Target
    ensures w.Some? && NoBackslash(FromStr(record.output)) ==> w.value == FromStr(record.output)
  {
    if record.streamType == Target then
      var output := FromStr(record.output);
      var decoded := ReplaceAll(ReplaceAll(output, "\\n", "\n"), "\\r", "\r");
      assert NoBackslash(output) ==> decoded == output by {
        if NoBackslash(output) {
          ReplaceAllNone(output, "\\n", "\n");
          ReplaceAllNone(output, "\\r", "\r");
        }
      }
      Some(ReplaceAll(ReplaceAll(output, "\\n", "\n"), "\\r", "\r"))
    else None
  }

  /** A leading character that does not open an occurrence of the pattern
      is kept in place. */
  lemma ReplaceAllCons(c: char, rest: string, pat: string, rep: string)
    requires |pat| > 0 && !OccursAt([c] + rest, pat, 0)
    ensures ReplaceAll([c] + rest, pat, rep) == [c] + ReplaceAll(rest, pat, rep)
  {
    var s := [c] + rest;
    assert s[1..] == rest;
  }

  /** A character other than the pattern's first does not open it. */
  lemma NotOpening(c: char, rest: string, pat: string)
    requires |pat| > 0 && c != pat[0]
    ensures !OccursAt([c] + rest, pat, 0)
  {
    var s := [c] + rest;
    if |pat| <= |s| {
      assert s[0..|pat|][0] == c;
    }
  }

  /** A leading occurrence of the pattern is replaced. */
  lemma ReplaceAllHit(rest: string, pat: string, rep: string)
    requires |pat| > 0
    ensures ReplaceAll(pat + rest, pat, rep) == rep + ReplaceAll(rest, pat, rep)
  {
    var s := pat + rest;
    assert s[..|pat|] == pat && s[|pat|..] == rest;
  }

  /** A text without backslashes is left unchanged by replacing an escape. */
  lemma {:induction false} ReplaceAllNone(s: string, escape: string, rep: string)
    requires NoBackslash(s) && |escape| > 0 && escape[0] == '\\'
    ensures ReplaceAll(s, escape, rep) == s
    decreases |s|
  {
    if |s| > 0 {
      ReplaceAllNone(s[1..], escape, rep);
      NotOpening(s[0], s[1..], escape);
      ReplaceAllCons(s[0], s[1..], escape, rep);
      assert [s[0]] + s[1..] == s;
    }
  }

  /** A carriage-return escape is not a line-feed escape and is kept. */
  lemma ReturnEscapeKept(rest: string)
    ensures ReplaceAll("\\r" + rest, "\\n", "\n") == "\\r" + ReplaceAll(rest, "\\n", "\n")
  {
    var s := ['\\'] + (['r'] + rest);
    assert s[..2] == "\\r";
    NotOpening('r', rest, "\\n");
    ReplaceAllCons('r', rest, "\\n", "\n");
    ReplaceAllCons('\\', ['r'] + rest, "\\n", "\n");
    assert "\\r" + rest == s;
  }

  /** Decoding the line-feed escapes leaves only the carriage-return ones. */
  lemma {:induction false} DecodeLineFeeds(t: string)
    requires NoBackslash(t)
    ensures ReplaceAll(EscapeLines(t), "\\n", "\n") == EscapeReturns(t)
    decreases |t|
  {
    if |t| > 0 {
      var rest := EscapeLines(t[1..]);
      DecodeLineFeeds(t[1..]);
      if t[0] == '\n' {
        ReplaceAllHit(rest, "\\n", "\n");
      } else if t[0] == '\r' {
        ReturnEscapeKept(rest);
      } else {
        NotOpening(t[0], rest, "\\n");
        ReplaceAllCons(t[0], rest, "\\n", "\n");
      }
    }
  }

  /** Decoding the carriage-return escapes gives back the text. */
  lemma {:induction false} DecodeReturns(t: string)
    requires NoBackslash(t)
    ensures ReplaceAll(EscapeReturns(t), "\\r", "\r") == t
    decreases |t|
  {
    if |t| > 0 {
      var rest := EscapeReturns(t[1..]);
      DecodeReturns(t[1..]);
      if t[0] == '\r' {
        ReplaceAllHit(rest, "\\r", "\r");
      } else {
        NotOpening(t[0], rest, "\\r");
        ReplaceAllCons(t[0], rest, "\\r", "\r");
      }
      assert [t[0]] + t[1..] == t;
    }
  }

  /** Program output of any number of lines reaches the terminal as it was
      written, when every escape is decoded. */
  lemma StreamRecordDecodesAll(t: string)
    requires NoBackslash(t)
    ensures HandleStreamRecordAll(StreamRecord(Target, Quote(EscapeLines(t)))) == Some(t)
  {
    FromStrQuote(EscapeLines(t));
    DecodeLineFeeds(t);
    DecodeReturns(t);
  }

  // ---------------------------------------------------------------------
  // The handler as written, on text of at most one line break
  // ---------------------------------------------------------------------

  /** The number of positions at which `pat` occurs in `s`. */
  function Occurrences(s: string, pat: string): nat
    decreases |s|
  {
    if |s| == 0 then 0 else (if OccursAt(s, pat, 0) then 1 else 0) + Occurrences(s[1..], pat)
  }

  /** An occurrence after the first character is one in the rest. */
  lemma OccursShift(s: string, pat: string, k: nat)
    requires |s| > 0
    ensures OccursAt(s[1..], pat, k) <==> OccursAt(s, pat, k + 1)
  {
    if k + 1 + |pat| <= |s| {
      assert s[1..][k..k + |pat|] == s[k + 1..k + 1 + |pat|];
    }
  }

  /** A text the pattern never occurs in has no occurrence anywhere. */
  lemma {:induction false} NoOccurrences(s: string, pat: string)
    requires |pat| > 0 && Occurrences(s, pat) == 0
    ensures forall k :: 0 <= k <= |s| ==> !OccursAt(s, pat, k)
    decreases |s|
  {
    if |s| > 0 {
      NoOccurrences(s[1..], pat);
      forall k | 1 <= k <= |s|
        ensures !OccursAt(s, pat, k)
      {
        OccursShift(s, pat, k - 1);
      }
    }
  }

  /** A slice of a suffix is a slice of the whole text. */
  lemma SliceOfDrop(s: string, d: nat, i: nat, j: nat)
    requires i <= j && d + j <= |s|
    ensures s[d..][i..j] == s[d + i..d + j]
  {
  }

  /** Without an occurrence, replacing every occurrence changes nothing. */
  lemma {:induction false} ReplaceAllAbsent(s: string, pat: string, rep: string)
    requires |pat| > 0 && forall k :: 0 <= k <= |s| ==> !OccursAt(s, pat, k)
    ensures ReplaceAll(s, pat, rep) == s
    decreases |s|
  {
    if |s| >= |pat| {
      assert !OccursAt(s, pat, 0);
      forall k | 0 <= k <= |s[1..]|
        ensures !OccursAt(s[1..], pat, k)
      {
        OccursShift(s, pat, k);
      }
      ReplaceAllAbsent(s[1..], pat, rep);
      assert [s[0]] + s[1..] == s;
    }
  }

  /** Without an occurrence in the rest, and none at the start, the text
      has no occurrence. */
  lemma AbsentAfterHead(s: string, pat: string)
    requires |s| > 0 && !OccursAt(s, pat, 0)
    requires forall k :: 0 <= k <= |s[1..]| ==> !OccursAt(s[1..], pat, k)
    ensures forall k :: 0 <= k <= |s| ==> !OccursAt(s, pat, k)
  {
    forall k | 1 <= k <= |s|
      ensures !OccursAt(s, pat, k)
    {
      OccursShift(s, pat, k - 1);
    }
  }

  /** The first occurrence in the rest is the first in the text, one
      place on. */
  lemma FirstAfterHead(s: string, pat: string, k: nat)
    requires |s| > 0 && !OccursAt(s, pat, 0)
    requires OccursAt(s[1..], pat, k) && forall m :: 0 <= m < k ==> !OccursAt(s[1..], pat, m)
    ensures OccursAt(s, pat, k + 1) && forall m :: 0 <= m < k + 1 ==> !OccursAt(s, pat, m)
  {
    OccursShift(s, pat, k);
    forall m | 1 <= m < k + 1
      ensures !OccursAt(s, pat, m)
    {
      OccursShift(s, pat, m - 1);
    }
  }

  /** A splice one place on keeps the first character in front. */
  lemma SpliceAfterHead(s: string, k: nat, n: nat, rep: string)
    requires k + 1 + n <= |s|
    ensures s[..k + 1] + rep + s[k + 1 + n..] == [s[0]] + (s[1..][..k] + rep + s[1..][k + n..])
  {
    assert s[..k + 1] == [s[0]] + s[1..][..k];
    assert s[k + 1 + n..] == s[1..][k + n..];
  }

  /** Replacing the first occurrence, past a character that does not open
      one, keeps that character in front. */
  lemma ReplaceFirstCons(s: string, pat: string, rep: string)
    requires |s| > 0 && !OccursAt(s, pat, 0)
    ensures ReplaceFirst(s, pat, rep) == [s[0]] + ReplaceFirst(s[1..], pat, rep)
  {
    var first := IndexOf(s[1..], pat, 0);
    if first.None? {
      AbsentAfterHead(s, pat);
      assert [s[0]] + s[1..] == s;
    } else {
      var k := first.value;
      FirstAfterHead(s, pat, k);
      SpliceAfterHead(s, k, |pat|, rep);
    }
  }

  /** Where the pattern occurs at most once, replacing the first occurrence
      is replacing them all. */
  lemma {:induction false} ReplaceFirstIsAll(s: string, pat: string, rep: string)
    requires |pat| > 0 && Occurrences(s, pat) <= 1
    ensures ReplaceFirst(s, pat, rep) == ReplaceAll(s, pat, rep)
    decreases |s|
  {
    if |s| < |pat| {
      assert forall k :: 0 <= k <= |s| ==> !OccursAt(s, pat, k);
    } else if OccursAt(s, pat, 0) {
      NoOccurrences(s[1..], pat);
      var tail := s[|pat|..];
      forall m | 0 <= m <= |tail|
        ensures !OccursAt(tail, pat, m)
      {
        if m + |pat| <= |tail| {
          SliceOfDrop(s, |pat|, m, m + |pat|);
          SliceOfDrop(s, 1, |pat| - 1 + m, |pat| - 1 + m + |pat|);
          assert !OccursAt(s[1..], pat, |pat| - 1 + m);
        }
      }
      ReplaceAllAbsent(tail, pat, rep);
      assert s[..|pat|] == pat;
      assert s[..0] + rep + tail == rep + tail;
    } else {
      assert s[..|pat|] != pat;
      ReplaceFirstIsAll(s[1..], pat, rep);
      ReplaceFirstCons(s, pat, rep);
    }
  }

  /** A leading character other than a backslash opens no escape. */
  lemma PlainHead(c: char, rest: string, pat: string)
    requires |pat| > 0 && pat[0] == '\\' && c != '\\'
    ensures Occurrences([c] + rest, pat) == Occurrences(rest, pat)
  {
    NotOpening(c, rest, pat);
    assert ([c] + rest)[1..] == rest;
  }

  /** A leading two-character escape counts once when it is the pattern. */
  lemma EscapeHead(x: char, rest: string, pat: string)
    requires |pat| == 2 && pat[0] == '\\' && x != '\\'
    ensures Occurrences(['\\', x] + rest, pat) == (if x == pat[1] then 1 else 0) + Occurrences(rest, pat)
  {
    var s := ['\\', x] + rest;
    assert s[1..] == [x] + rest;
    PlainHead(x, rest, pat);
    assert s[..2] == ['\\', x];
  }

  /** The count of a character splits at the head of a text. */
  lemma CountHead(t: string, c: char)
    requires |t| > 0
    ensures multiset(t)[c] == (if t[0] == c then 1 else 0) + multiset(t[1..])[c]
  {
    assert t == [t[0]] + t[1..];
  }

  /** The line-feed escapes of the written form are as many as the line
      feeds of the text. */
  lemma {:induction false} LineFeedEscapes(t: string)
    requires NoBackslash(t)
    ensures Occurrences(EscapeLines(t), "\\n") == multiset(t)['\n']
    decreases |t|
  {
    if |t| > 0 {
      LineFeedEscapes(t[1..]);
      CountHead(t, '\n');
      if t[0] == '\n' {
        EscapeHead('n', EscapeLines(t[1..]), "\\n");
      } else if t[0] == '\r' {
        EscapeHead('r', EscapeLines(t[1..]), "\\n");
      } else {
        PlainHead(t[0], EscapeLines(t[1..]), "\\n");
      }
    }
  }

  /** The carriage-return escapes left are as many as the carriage returns
      of the text. */
  lemma {:induction false} ReturnEscapes(t: string)
    requires NoBackslash(t)
    ensures Occurrences(EscapeReturns(t), "\\r") == multiset(t)['\r']
    decreases |t|
  {
    if |t| > 0 {
      ReturnEscapes(t[1..]);
      CountHead(t, '\r');
      if t[0] == '\r' {
        EscapeHead('r', EscapeReturns(t[1..]), "\\r");
      } else {
        PlainHead(t[0], EscapeReturns(t[1..]), "\\r");
      }
    }
  }

  /** As written, the handler writes program output back when it holds at
      most one line feed and at most one carriage return: one replacement of
      each escape then decodes them all. */
  lemma StreamOneBreakEach(t: string)
    requires NoBackslash(t) && multiset(t)['\n'] <= 1 && multiset(t)['\r'] <= 1
    ensures HandleStreamRecord(StreamRecord(Target, Quote(EscapeLines(t)))) == Some(t)
  {
    FromStrQuote(EscapeLines(t));
    LineFeedEscapes(t);
    ReplaceFirstIsAll(EscapeLines(t), "\\n", "\n");
    DecodeLineFeeds(t);
    ReturnEscapes(t);
    ReplaceFirstIsAll(EscapeReturns(t), "\\r", "\r");
    DecodeReturns(t);
  }

  /** Replacing the first occurrence adds no character beyond those of the
      replacement. */
  lemma ReplaceFirstCount(s: string, pat: string, rep: string, c: char)
    ensures multiset(ReplaceFirst(s, pat, rep))[c] <= multiset(s)[c] + multiset(rep)[c]
  {
    match IndexOf(s, pat, 0)
    case None =>
    case Some(k) =>
      assert s == s[..k] + s[k..k + |pat|] + s[k + |pat|..];
      assert multiset(s) == multiset(s[..k]) + multiset(s[k..k + |pat|]) + multiset(s[k + |pat|..]);
      assert multiset(s[..k] + rep + s[k + |pat|..]) == multiset(s[..k]) + multiset(rep) + multiset(s[k + |pat|..]);
  }

  /** The written form of program output holds no line break. */
  lemma {:induction false} EscapedHasNoBreak(t: string)
    ensures multiset(EscapeLines(t))['\n'] == 0 && multiset(EscapeLines(t))['\r'] == 0
    decreases |t|
  {
    if |t| > 0 {
      EscapedHasNoBreak(t[1..]);
      var piece := if t[0] == '\n' then "\\n" else if t[0] == '\r' then "\\r" else [t[0]];
      assert multiset(piece + EscapeLines(t[1..])) == multiset(piece) + multiset(EscapeLines(t[1..]));
    }
  }

  /** As written, program output with two line feeds, or two carriage
      returns, is never written back as it was: each first-only replacement
      brings back at most one line break of its kind. */
  lemma StreamTwoBreaksKept(t: string)
    requires multiset(t)['\n'] >= 2 || multiset(t)['\r'] >= 2
    ensures HandleStreamRecord(StreamRecord(Target, Quote(EscapeLines(t)))) != Some(t)
  {
    var escaped := EscapeLines(t);
    FromStrQuote(escaped);
    EscapedHasNoBreak(t);
    var once := ReplaceFirst(escaped, "\\n", "\n");
    var twice := ReplaceFirst(once, "\\r", "\r");
    ReplaceFirstCount(escaped, "\\n", "\n", '\n');
    ReplaceFirstCount(escaped, "\\n", "\n", '\r');
    ReplaceFirstCount(once, "\\r", "\r", '\n');
    ReplaceFirstCount(once, "\\r", "\r", '\r');
    assert multiset(twice)['\n'] <= 1 && multiset(twice)['\r'] <= 1;
  }

  // ---------------------------------------------------------------------
  // Stop events
  // ---------------------------------------------------------------------

  /** The `reason` content that makes a stop a breakpoint hit, quotes
      included. */
  const BreakpointHit: string := "\"breakpoint-hit\""

  /** `handleAsyncOutput`: the thread a `breakpoint` stop event names, or
      `None` when no event is sent. The results are looked up last-wins; a
      missing `reason` or, at a breakpoint, a missing or non-string
      `thread-id` stops the handler. */
  function HandleAsyncOutput(output: AsyncOutput): (r: Outcome<Option<Number>>)
    ensures Field(output.results, "reason").None? ==> r == Throws
    ensures r == Returns(None) <==>
              Field(output.results, "reason").Some? && Field(output.results, "reason") != Some(Str(BreakpointHit))
    ensures (r.Returns? && r.value.Some?) <==>
              && Field(output.results, "reason") == Some(Str(BreakpointHit))
              && FromContent(Field(output.results, "thread-id")).Returns?
    ensures r.Returns? && r.value.Some? ==>
              r.value.value == ToNumber(FromContent(Field(output.results, "thread-id")).value)
  {
    match Field(output.results, "reason")
    case None => Throws
    case Some(reason) =>
      if reason != Str(BreakpointHit) then Returns(None)
      else
        match FromContent(Field(output.results, "thread-id"))
        case Returns(id) => Returns(Some(ToNumber(id)))
        case Throws => Throws
  }

  /** A stop at a breakpoint announces the thread the record names, whatever
      results came before the reason and the thread. */
  lemma StopAtBreakpoint(before: seq<Result>, id: Number)
    ensures HandleAsyncOutput(AsyncOutput(before + [Result("reason", Str(Quote("breakpoint-hit"))),
                                                    Result("thread-id", Str(Quote(NumberString(id))))]))
            == Returns(Some(id))
  {
    var reason := Result("reason", Str(Quote("breakpoint-hit")));
    var thread := Result("thread-id", Str(Quote(NumberString(id))));
    var results := before + [reason, thread];
    assert Quote("breakpoint-hit") == BreakpointHit;
    assert results == (before + [reason]) + [thread];
    FieldLastWins(before + [reason], thread, "reason");
    FieldLastWins(before, reason, "reason");
    assert Field(results, "reason") == Some(Str(BreakpointHit));
    FieldLastWins(before + [reason], thread, "thread-id");
    assert Field(results, "thread-id") == Some(Str(Quote(NumberString(id))));
    FromContentQuote(NumberString(id));
    ToNumberString(id);
  }

  /** Any other reason sends no event, even when a thread is named. */
  lemma OtherStop(before: seq<Result>, reason: string)
    requires reason != "breakpoint-hit"
    ensures HandleAsyncOutput(AsyncOutput(before + [Result("reason", Str(Quote(reason)))])) == Returns(None)
  {
    FieldLastWins(before, Result("reason", Str(Quote(reason))), "reason");
    assert Quote(reason) != BreakpointHit by {
      FromStrQuote(reason);
      FromStrQuote("breakpoint-hit");
      assert Quote("breakpoint-hit") == BreakpointHit;
    }
  }

}
