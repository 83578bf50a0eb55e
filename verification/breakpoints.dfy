/** The breakpoint table of the debug session: for each source path, the
    breakpoints set there with the id the debugger gave each one. Setting
    the breakpoints of a path first removes the ones it had, then inserts one
    per requested line. The debugger's replies to the insertions are an
    input (`answer(k)` is the reply to the `k`-th insertion of the request);
    the commands issued and the events sent are returned, in order, as one
    trace. */
module Breakpoints {
  import opened Base
  import opened Text
  import opened Syntax
  import opened Session
  import Mapping

  /** The location handed to `setBreakpoint`. */
  datatype MiBreakpoint = MiBreakpoint(path: string, line: int)

  /** The breakpoint the editor sees. */
  datatype EditorBreakpoint = EditorBreakpoint(verified: bool, line: int, source: Mapping.Source)

  /** A tracked breakpoint: the debugger's id, and both views of it. */
  datatype BreakpointInfo = BreakpointInfo(id: Number, editorBp: EditorBreakpoint, miBp: MiBreakpoint)

  /** The session's `breakpoints` map, from a full path to the breakpoints
      tracked there. */
  type Table = map<string, seq<BreakpointInfo>>

  /** A command to the debugger or an event to the editor, in the order
      the session issues them. */
  datatype Effect =
    | RemoveBreakpoint(id: Number)
    | SetBreakpoint(miBp: MiBreakpoint)
    | Removed(editorBp: EditorBreakpoint)
    | New(editorBp: EditorBreakpoint)

  /** `breakpoints.get(path) || []`. */
  function Tracked(table: Table, path: string): seq<BreakpointInfo> {
    if path in table then table[path] else []
  }

  // ---------------------------------------------------------------------
  // clearBreakpoints
  // ---------------------------------------------------------------------

  /** One removal command and one `removed` event per tracked breakpoint,
      in the order they were tracked. */
  function Removals(bps: seq<BreakpointInfo>): (trace: seq<Effect>)
    ensures |trace| == 2 * |bps|
    ensures forall k :: 0 <= k < |bps| ==>
              trace[2 * k] == RemoveBreakpoint(bps[k].id) && trace[2 * k + 1] == Removed(bps[k].editorBp)
    decreases |bps|
  {
    if |bps| == 0 then []
    else
      var rest := Removals(bps[1..]);
      var r := [RemoveBreakpoint(bps[0].id), Removed(bps[0].editorBp)] + rest;
      assert forall k :: 0 <= k < |bps| ==> r[2 * k] == RemoveBreakpoint(bps[k].id) && r[2 * k + 1] == Removed(bps[k].editorBp) by {
        forall k | 1 <= k < |bps|
          ensures r[2 * k] == RemoveBreakpoint(bps[k].id) && r[2 * k + 1] == Removed(bps[k].editorBp)
        {
          PairShift(RemoveBreakpoint(bps[0].id), Removed(bps[0].editorBp), rest, k - 1);
          assert bps[1..][k - 1] == bps[k];
        }
      }
      r
  }

  /** Two effects put in front shift every later one by two places. */
  lemma PairShift(a: Effect, b: Effect, rest: seq<Effect>, k: nat)
    requires 2 * k + 1 < |rest|
    ensures ([a, b] + rest)[2 * (k + 1)] == rest[2 * k]
    ensures ([a, b] + rest)[2 * (k + 1) + 1] == rest[2 * k + 1]
  {
  }

  /** `clearBreakpoints(path)`: every breakpoint tracked at the path is
      removed, and the path is left tracking none; other paths keep theirs. */
  function ClearBreakpoints(table: Table, path: string): (r: (Table, seq<Effect>))
    ensures r.0.Keys == table.Keys + {path}
    ensures r.0[path] == []
    ensures forall p :: p in table && p != path ==> r.0[p] == table[p]
    ensures r.1 == Removals(Tracked(table, path))
  {
    (table[path := []], Removals(Tracked(table, path)))
  }

  // ---------------------------------------------------------------------
  // setBreakPointsRequest
  // ---------------------------------------------------------------------

  /** Which replies to an insertion are read for an id. */
  datatype Guard =
    | /** Any reply whose first result has a truthy content (a non-empty
          string, a tuple or a list), as the session is written. */
      Truthy
    | /** Only a reply whose first result is a tuple. */
      TupleOnly

  /** Whether a value's content is truthy in JavaScript: objects always
      are, strings when not empty. */
  predicate IsTruthy(content: Value) {
    !content.Str? || content.raw != ""
  }

  /** The id tracked for one reply: `None` when the reply is not kept.
      A reply with a result record but no results, and a kept content that
      is not a tuple with a string `number`, stop the request. */
  function ReplyId(reply: Output, guard: Guard): (r: Outcome<Option<Number>>)
    ensures reply.result.None? ==> r == Returns(None)
    ensures reply.result.Some? && |reply.result.value.results| == 0 ==> r == Throws
    ensures (r.Returns? && r.value.Some?) <==>
              && reply.result.Some? && |reply.result.value.results| > 0
              && reply.result.value.results[0].value.Tuple?
              && FromContent(Field(reply.result.value.results[0].value.fields, "number")).Returns?
    ensures r.Returns? && r.value.Some? ==>
              r.value.value == ToNumber(FromContent(Field(reply.result.value.results[0].value.fields, "number")).value)
    ensures (&& guard == TupleOnly && reply.result.Some? && |reply.result.value.results| > 0
             && !reply.result.value.results[0].value.Tuple?) ==> r == Returns(None)
    ensures (&& guard == Truthy && reply.result.Some? && |reply.result.value.results| > 0
             && reply.result.value.results[0].value.Str? && reply.result.value.results[0].value.raw != "") ==> r == Throws
  {
    if reply.result.None? then Returns(None)
    else if |reply.result.value.results| == 0 then Throws
    else
      var content := reply.result.value.results[0].value;
      var kept := match guard
        case Truthy => IsTruthy(content)
        case TupleOnly => content.Tuple?;
      if !kept then Returns(None)
      else if !content.Tuple? then Throws
      else
        match FromContent(Field(content.fields, "number"))
        case Throws => Throws
        case Returns(number) => Returns(Some(ToNumber(number)))
  }

  /** `breakpoints.get(path)?.push(info)`. */
  function Push(table: Table, path: string, info: BreakpointInfo): (r: Table)
    ensures r.Keys == table.Keys
    ensures forall p :: p in table && p != path ==> r[p] == table[p]
    ensures path in table ==> r[path] == table[path] + [info]
  {
    if path in table then table[path := table[path] + [info]] else table
  }

  /** What a request leaves behind: the table, the trace, and the
      breakpoints of the response, or `Throws` when no response is sent. */
  datatype Placed = Placed(table: Table, trace: seq<Effect>, response: Outcome<seq<EditorBreakpoint>>)

  /** The breakpoints of the response: one verified breakpoint per line. */
  function Points(src: Mapping.Source, lines: seq<int>): (r: seq<EditorBreakpoint>)
    ensures |r| == |lines| && forall k :: 0 <= k < |lines| ==> r[k] == EditorBreakpoint(true, lines[k], src)
  {
    seq(|lines|, k requires 0 <= k < |lines| => EditorBreakpoint(true, lines[k], src))
  }

  /** One insertion command and one `new` event per line, in order. */
  function Insertions(path: string, src: Mapping.Source, lines: seq<int>): (trace: seq<Effect>)
    ensures |trace| == 2 * |lines|
    ensures forall k :: 0 <= k < |lines| ==>
              && trace[2 * k] == SetBreakpoint(MiBreakpoint(path, lines[k]))
              && trace[2 * k + 1] == New(EditorBreakpoint(true, lines[k], src))
    decreases |lines|
  {
    if |lines| == 0 then []
    else
      var rest := Insertions(path, src, lines[1..]);
      var r := [SetBreakpoint(MiBreakpoint(path, lines[0])), New(EditorBreakpoint(true, lines[0], src))] + rest;
      assert forall k :: 0 <= k < |lines| ==>
               && r[2 * k] == SetBreakpoint(MiBreakpoint(path, lines[k]))
               && r[2 * k + 1] == New(EditorBreakpoint(true, lines[k], src)) by {
        forall k | 1 <= k < |lines|
          ensures r[2 * k] == SetBreakpoint(MiBreakpoint(path, lines[k])) && r[2 * k + 1] == New(EditorBreakpoint(true, lines[k], src))
        {
          PairShift(SetBreakpoint(MiBreakpoint(path, lines[0])), New(EditorBreakpoint(true, lines[0], src)), rest, k - 1);
          assert lines[1..][k - 1] == lines[k];
        }
      }
      r
  }

  /** A breakpoint tracked for a line of this request. */
  predicate FromRequest(info: BreakpointInfo, path: string, src: Mapping.Source, lines: seq<int>) {
    && info.miBp.line in lines
    && info.miBp.path == path
    && info.editorBp == EditorBreakpoint(true, info.miBp.line, src)
  }

  /** The lines of a request from the `k`-th on: each is inserted and
      announced; a kept reply adds its breakpoint to the path's list. */
  function Insert(table: Table, path: string, src: Mapping.Source, lines: seq<int>, k: nat,
                  answer: nat -> Output, guard: Guard): Placed
    requires k <= |lines|
    decreases |lines| - k
  {
    if k == |lines| then Placed(table, [], Returns([]))
    else
      var editorBp := EditorBreakpoint(true, lines[k], src);
      var miBp := MiBreakpoint(path, lines[k]);
      match ReplyId(answer(k), guard)
      case Throws => Placed(table, [SetBreakpoint(miBp)], Throws)
      case Returns(id) =>
        var table' := if id.Some? then Push(table, path, BreakpointInfo(id.value, editorBp, miBp)) else table;
        var rest := Insert(table', path, src, lines, k + 1, answer, guard);
        Placed(rest.table, [SetBreakpoint(miBp), New(editorBp)] + rest.trace,
               match rest.response
               case Throws => Throws
               case Returns(points) => Returns([editorBp] + points))
  }

  /** The table after the insertions: no path is added and other paths
      keep their breakpoints. */
  lemma {:induction false} InsertOthers(table: Table, path: string, src: Mapping.Source, lines: seq<int>, k: nat,
                                        answer: nat -> Output, guard: Guard)
    requires k <= |lines|
    ensures var r := Insert(table, path, src, lines, k, answer, guard);
      && r.table.Keys == table.Keys
      && (forall p :: p in table && p != path ==> r.table[p] == table[p])
    decreases |lines| - k
  {
    if k < |lines| {
      var editorBp := EditorBreakpoint(true, lines[k], src);
      var miBp := MiBreakpoint(path, lines[k]);
      var id := ReplyId(answer(k), guard);
      if id.Returns? {
        var table' := if id.value.Some? then Push(table, path, BreakpointInfo(id.value.value, editorBp, miBp)) else table;
        InsertOthers(table', path, src, lines, k + 1, answer, guard);
      }
    }
  }

  /** The path keeps its breakpoints and gains only breakpoints of this
      request. */
  lemma {:induction false} InsertPath(table: Table, path: string, src: Mapping.Source, lines: seq<int>, k: nat,
                                      answer: nat -> Output, guard: Guard)
    requires k <= |lines| && path in table
    ensures var r := Insert(table, path, src, lines, k, answer, guard);
      && path in r.table
      && |table[path]| <= |r.table[path]| && r.table[path][..|table[path]|] == table[path]
      && forall i :: |table[path]| <= i < |r.table[path]| ==> FromRequest(r.table[path][i], path, src, lines)
    decreases |lines| - k
  {
    InsertOthers(table, path, src, lines, k, answer, guard);
    if k < |lines| {
      var editorBp := EditorBreakpoint(true, lines[k], src);
      var miBp := MiBreakpoint(path, lines[k]);
      var id := ReplyId(answer(k), guard);
      if id.Returns? {
        var table' := if id.value.Some? then Push(table, path, BreakpointInfo(id.value.value, editorBp, miBp)) else table;
        var before, mid := table[path], table'[path];
        assert |before| <= |mid| && mid[..|before|] == before
               && forall i :: |before| <= i < |mid| ==> FromRequest(mid[i], path, src, lines) by {
          if id.value.Some? {
            assert mid == before + [BreakpointInfo(id.value.value, editorBp, miBp)];
          }
        }
        InsertPath(table', path, src, lines, k + 1, answer, guard);
        var r := Insert(table', path, src, lines, k + 1, answer, guard);
        assert Insert(table, path, src, lines, k, answer, guard).table == r.table;
        var after := r.table[path];
        PrefixTrans(after, mid, before);
        forall i | |before| <= i < |after|
          ensures FromRequest(after[i], path, src, lines)
        {
          if i < |mid| {
            assert after[i] == after[..|mid|][i];
          }
        }
      }
    }
  }

  /** The breakpoints the lines from the `k`-th on add to the path: one
      for each line whose reply yields an id, in order, under that id. */
  function KeptFrom(path: string, src: Mapping.Source, lines: seq<int>, k: nat,
                    answer: nat -> Output, guard: Guard): seq<BreakpointInfo>
    requires k <= |lines|
    decreases |lines| - k
  {
    if k == |lines| then []
    else
      var here := match ReplyId(answer(k), guard)
        case Returns(Some(id)) => [BreakpointInfo(id, EditorBreakpoint(true, lines[k], src), MiBreakpoint(path, lines[k]))]
        case _ => [];
      here + KeptFrom(path, src, lines, k + 1, answer, guard)
  }

  /** A request that is answered leaves the path with the breakpoints it
      had, followed by exactly those whose replies yield an id. */
  lemma {:induction false} InsertKept(table: Table, path: string, src: Mapping.Source, lines: seq<int>, k: nat,
                                      answer: nat -> Output, guard: Guard)
    requires k <= |lines| && path in table
    ensures var r := Insert(table, path, src, lines, k, answer, guard);
      r.response.Returns? ==> path in r.table && r.table[path] == table[path] + KeptFrom(path, src, lines, k, answer, guard)
    decreases |lines| - k
  {
    if k < |lines| {
      var editorBp := EditorBreakpoint(true, lines[k], src);
      var miBp := MiBreakpoint(path, lines[k]);
      var id := ReplyId(answer(k), guard);
      if id.Returns? {
        var table' := if id.value.Some? then Push(table, path, BreakpointInfo(id.value.value, editorBp, miBp)) else table;
        InsertKept(table', path, src, lines, k + 1, answer, guard);
        var rest := KeptFrom(path, src, lines, k + 1, answer, guard);
        if id.value.Some? {
          Assoc(table[path], [BreakpointInfo(id.value.value, editorBp, miBp)], rest);
        } else {
          assert [] + rest == rest;
        }
      }
    } else {
      assert table[path] + [] == table[path];
    }
  }

  /** The response and the trace split at the `k`-th line. */
  lemma LinesCons(path: string, src: Mapping.Source, lines: seq<int>, k: nat)
    requires k < |lines|
    ensures Points(src, lines[k..]) == [EditorBreakpoint(true, lines[k], src)] + Points(src, lines[k + 1..])
    ensures Insertions(path, src, lines[k..])
            == [SetBreakpoint(MiBreakpoint(path, lines[k])), New(EditorBreakpoint(true, lines[k], src))]
               + Insertions(path, src, lines[k + 1..])
  {
    assert lines[k..][1..] == lines[k + 1..];
  }

  /** A request that is answered lists every line from the `k`-th on, and
      inserts and announces each, in order. */
  lemma {:induction false} InsertTrace(table: Table, path: string, src: Mapping.Source, lines: seq<int>, k: nat,
                                       answer: nat -> Output, guard: Guard)
    requires k <= |lines|
    ensures var r := Insert(table, path, src, lines, k, answer, guard);
      r.response.Returns? ==> r.response.value == Points(src, lines[k..]) && r.trace == Insertions(path, src, lines[k..])
    decreases |lines| - k
  {
    if k < |lines| {
      var editorBp := EditorBreakpoint(true, lines[k], src);
      var miBp := MiBreakpoint(path, lines[k]);
      var id := ReplyId(answer(k), guard);
      if id.Returns? {
        var table' := if id.value.Some? then Push(table, path, BreakpointInfo(id.value.value, editorBp, miBp)) else table;
        InsertTrace(table', path, src, lines, k + 1, answer, guard);
        LinesCons(path, src, lines, k);
      }
    }
  }

  /** `setBreakPointsRequest`: the path and the name of the source default
      to the empty string; the path's breakpoints are cleared, then each
      line is inserted. A missing list of breakpoints stops the request
      after the clear. */
  function SetBreakpoints(table: Table, path: Option<string>, name: Option<string>, lines: Option<seq<int>>,
                          answer: nat -> Output, guard: Guard): (r: Placed)
    ensures r.table.Keys == table.Keys + {path.GetOr("")}
    ensures forall p :: p in table && p != path.GetOr("") ==> r.table[p] == table[p]
    ensures forall i :: 0 <= i < |r.table[path.GetOr("")]| ==>
              lines.Some? && FromRequest(r.table[path.GetOr("")][i], path.GetOr(""), Mapping.Source(name.GetOr(""), path.GetOr("")), lines.value)
    ensures |r.trace| >= 2 * |Tracked(table, path.GetOr(""))|
    ensures r.trace[..2 * |Tracked(table, path.GetOr(""))|] == Removals(Tracked(table, path.GetOr("")))
    ensures lines.None? ==> r.response.Throws?
    ensures r.response.Returns? ==>
              var src := Mapping.Source(name.GetOr(""), path.GetOr(""));
              && r.response.value == Points(src, lines.value)
              && r.trace == Removals(Tracked(table, path.GetOr(""))) + Insertions(path.GetOr(""), src, lines.value)
  {
    var p := path.GetOr("");
    var src := Mapping.Source(name.GetOr(""), p);
    var (cleared, removals) := ClearBreakpoints(table, p);
    match lines
    case None => Placed(cleared, removals, Throws)
    case Some(ls) =>
      var placed := Insert(cleared, p, src, ls, 0, answer, guard);
      InsertOthers(cleared, p, src, ls, 0, answer, guard);
      InsertPath(cleared, p, src, ls, 0, answer, guard);
      InsertTrace(cleared, p, src, ls, 0, answer, guard);
      assert ls[0..] == ls;
      Placed(placed.table, removals + placed.trace, placed.response)
  }

  // ---------------------------------------------------------------------
  // Replies the debugger sends
  // ---------------------------------------------------------------------

  /** The reply to an accepted insertion: `^done,bkpt={number=...,...}`. */
  function BkptReply(b: Mapping.Breakpoint): Output {
    Mapping.DoneReply([Result("bkpt", Tuple(Mapping.BreakpointFields(b)))])
  }

  /** The reply to a refused insertion: `^error,msg="..."`. */
  function ErrorReply(msg: string): Output {
    Output([], [], Some(ResultRecord(Error, "", [Mapping.StrResult("msg", msg)])))
  }

  /** An accepted insertion is tracked under the number the debugger gave
      it, whichever replies are read. */
  lemma BkptReplyId(b: Mapping.Breakpoint, guard: Guard)
    ensures ReplyId(BkptReply(b), guard) == Returns(Some(b.id))
  {
    var fs := Mapping.BreakpointFields(b);
    Mapping.BreakpointNamesDistinct(b);
    FieldOfDistinct(fs, 0);
    FromContentQuote(NumberString(b.id));
    ToNumberString(b.id);
  }

  /** The breakpoints tracked for lines whose insertions were all accepted. */
  function Infos(path: string, src: Mapping.Source, lines: seq<int>, bs: seq<Mapping.Breakpoint>): (r: seq<BreakpointInfo>)
    requires |bs| == |lines|
    ensures |r| == |lines|
    ensures forall i :: 0 <= i < |lines| ==>
              r[i] == BreakpointInfo(bs[i].id, EditorBreakpoint(true, lines[i], src), MiBreakpoint(path, lines[i]))
  {
    seq(|lines|, i requires 0 <= i < |lines| =>
      BreakpointInfo(bs[i].id, EditorBreakpoint(true, lines[i], src), MiBreakpoint(path, lines[i])))
  }

  /** The tracked breakpoints split at the `k`-th line. */
  lemma InfosCons(path: string, src: Mapping.Source, lines: seq<int>, bs: seq<Mapping.Breakpoint>, k: nat)
    requires |bs| == |lines| && k < |lines|
    ensures Infos(path, src, lines[k..], bs[k..])
            == [BreakpointInfo(bs[k].id, EditorBreakpoint(true, lines[k], src), MiBreakpoint(path, lines[k]))]
               + Infos(path, src, lines[k + 1..], bs[k + 1..])
  {
    assert lines[k..][1..] == lines[k + 1..];
    assert bs[k..][1..] == bs[k + 1..];
  }

  /** When the debugger accepts every insertion from the `k`-th on, each
      line is tracked, in order, under the number the debugger gave it, and
      the request is answered. */
  lemma {:induction false} InsertAccepted(table: Table, path: string, src: Mapping.Source, lines: seq<int>, k: nat,
                                          answer: nat -> Output, guard: Guard, bs: seq<Mapping.Breakpoint>)
    requires k <= |lines| && |bs| == |lines| && path in table
    requires forall i :: k <= i < |lines| ==> answer(i) == BkptReply(bs[i])
    ensures var r := Insert(table, path, src, lines, k, answer, guard);
      && r.response.Returns?
      && path in r.table
      && r.table[path] == table[path] + Infos(path, src, lines[k..], bs[k..])
    decreases |lines| - k
  {
    if k < |lines| {
      var editorBp := EditorBreakpoint(true, lines[k], src);
      var miBp := MiBreakpoint(path, lines[k]);
      var info := BreakpointInfo(bs[k].id, editorBp, miBp);
      BkptReplyId(bs[k], guard);
      var table' := Push(table, path, info);
      InsertAccepted(table', path, src, lines, k + 1, answer, guard, bs);
      InfosCons(path, src, lines, bs, k);
      Assoc(table[path], [info], Infos(path, src, lines[k + 1..], bs[k + 1..]));
    } else {
      assert table[path] + Infos(path, src, lines[k..], bs[k..]) == table[path];
    }
  }

  /** Setting the breakpoints of a path the debugger accepts all of: the
      response has one verified breakpoint per line, and the path tracks
      exactly one breakpoint per line, in order, each under the debugger's
      number. */
  lemma SetAccepted(table: Table, path: string, name: string, lines: seq<int>, answer: nat -> Output,
                    guard: Guard, bs: seq<Mapping.Breakpoint>)
    requires |bs| == |lines|
    requires forall i :: 0 <= i < |lines| ==> answer(i) == BkptReply(bs[i])
    ensures var r := SetBreakpoints(table, Some(path), Some(name), Some(lines), answer, guard);
      && r.response == Returns(Points(Mapping.Source(name, path), lines))
      && r.table[path] == Infos(path, Mapping.Source(name, path), lines, bs)
  {
    var src := Mapping.Source(name, path);
    var cleared := table[path := []];
    InsertAccepted(cleared, path, src, lines, 0, answer, guard, bs);
    assert lines[0..] == lines && bs[0..] == bs;
  }

  /** Whatever the debugger replies, a request that is answered leaves
      the path tracking one breakpoint for each line whose reply yields an
      id, in order, each under that id. */
  lemma SetKept(table: Table, path: string, name: string, lines: seq<int>, answer: nat -> Output, guard: Guard)
    ensures var r := SetBreakpoints(table, Some(path), Some(name), Some(lines), answer, guard);
      r.response.Returns? ==> r.table[path] == KeptFrom(path, Mapping.Source(name, path), lines, 0, answer, guard)
  {
    var src := Mapping.Source(name, path);
    InsertKept(table[path := []], path, src, lines, 0, answer, guard);
    assert [] + KeptFrom(path, src, lines, 0, answer, guard) == KeptFrom(path, src, lines, 0, answer, guard);
  }

  /** A second request for the same path first removes, in order, exactly
      the breakpoints the first one tracked, and afterwards the path holds
      only breakpoints of the second request; other paths are as before
      both. */
  lemma SecondRequestReplaces(table: Table, path: string, name: string, lines1: seq<int>, lines2: seq<int>,
                              answer1: nat -> Output, answer2: nat -> Output, guard: Guard)
    ensures var r1 := SetBreakpoints(table, Some(path), Some(name), Some(lines1), answer1, guard);
      var r2 := SetBreakpoints(r1.table, Some(path), Some(name), Some(lines2), answer2, guard);
      && r2.trace[..2 * |r1.table[path]|] == Removals(r1.table[path])
      && (forall i :: 0 <= i < |r2.table[path]| ==> FromRequest(r2.table[path][i], path, Mapping.Source(name, path), lines2))
      && (forall p :: p in table && p != path ==> r2.table[p] == table[p])
  {
  }

  // ---------------------------------------------------------------------
  // A refused insertion
  // ---------------------------------------------------------------------

  /** As written, a refused insertion stops the request: the first result of
      `^error,msg="..."` is a non-empty string, which passes the truthiness
      test, and reading `fields.number` of it raises a TypeError. No
      response is sent. */
  lemma RefusedStops(table: Table, path: string, name: string, line: int, msg: string)
    ensures var r := SetBreakpoints(table, Some(path), Some(name), Some([line]), (k: nat) => ErrorReply(msg), Truthy);
      r.response == Throws
  {
    assert Quote(msg) != "";
    var src := Mapping.Source(name, path);
    var cleared := table[path := []];
    assert Insert(cleared, path, src, [line], 0, (k: nat) => ErrorReply(msg), Truthy).response == Throws;
  }

  /** Reading only tuple replies, refused insertions are announced and
      listed in the response like the others, and are not tracked. */
  lemma {:induction false} InsertRefused(table: Table, path: string, src: Mapping.Source, lines: seq<int>, k: nat,
                                         answer: nat -> Output, msgs: seq<string>)
    requires k <= |lines| && |msgs| == |lines| && path in table
    requires forall i :: k <= i < |lines| ==> answer(i) == ErrorReply(msgs[i])
    ensures var r := Insert(table, path, src, lines, k, answer, TupleOnly);
      && r.response.Returns?
      && path in r.table && r.table[path] == table[path]
    decreases |lines| - k
  {
    if k < |lines| {
      assert ReplyId(answer(k), TupleOnly) == Returns(None);
      InsertRefused(table, path, src, lines, k + 1, answer, msgs);
    }
  }

  /** Reading only tuple replies, a request the debugger refuses entirely
      is still answered with one breakpoint per line, and leaves the path
      tracking none. */
  lemma SetRefused(table: Table, path: string, name: string, lines: seq<int>, answer: nat -> Output, msgs: seq<string>)
    requires |msgs| == |lines|
    requires forall i :: 0 <= i < |lines| ==> answer(i) == ErrorReply(msgs[i])
    ensures var r := SetBreakpoints(table, Some(path), Some(name), Some(lines), answer, TupleOnly);
      && r.response == Returns(Points(Mapping.Source(name, path), lines))
      && r.table[path] == []
  {
    var src := Mapping.Source(name, path);
    InsertRefused(table[path := []], path, src, lines, 0, answer, msgs);
    assert lines[0..] == lines;
  }
}
