/** The decoders that turn a parsed reply into the typed answer of one MI
    command, or into a `MappingError`. Every JavaScript property read on a
    value of the wrong shape is kept: where the program would raise a
    TypeError the decoder yields the `TypeError` outcome. */
module Mapping {
  import opened Base
  import opened Text
  import opened Syntax

  /** A decoded answer, a `MappingError` with its message, or a TypeError. */
  datatype Mapped<+T> = Ok(value: T) | MappingError(message: string) | TypeError

  const EmptyResult: string := "Empty result"
  const WrongAnswer: string := "Wrong answer"

  /** `fromValue`: the text of a string value with its quotes dropped; the
      empty string for a missing value or a tuple or list. */
  function FromValue(v: Option<Value>): string {
    match v
    case Some(Str(raw)) => FromStr(raw)
    case _ => ""
  }

  /** Unquoting a quoted string value gives back its text, and only string
      values carry text. */
  lemma FromValueQuote(text: string, v: Option<Value>)
    ensures FromValue(Some(Str(Quote(text)))) == text
    ensures v.None? || !v.value.Str? ==> FromValue(v) == ""
  {
    FromStrQuote(text);
  }

  // ---------------------------------------------------------------------
  // checkResult
  // ---------------------------------------------------------------------

  predicate IsErrorReply(o: Output) {
    o.result.Some? && o.result.value.resultClass == Error
  }

  /** A reply whose result record exists, is not of class `error`, and has
      at least one result. */
  predicate IsAnswer(o: Output) {
    o.result.Some? && o.result.value.resultClass != Error && |o.result.value.results| > 0
  }

  /** `checkResult`. An `error` reply becomes a `MappingError` carrying the
      unquoted value of its first result, and this test comes before the
      emptiness test: an `error` reply with no results raises instead. A
      reply with no result record or no results is `Empty result`. Any other
      reply passes its results through unchanged. */
  function CheckResult(o: Output): (r: Mapped<seq<Result>>)
    ensures r.Ok? <==> IsAnswer(o)
    ensures r.Ok? ==> r.value == o.result.value.results
    ensures r.TypeError? <==> IsErrorReply(o) && |o.result.value.results| == 0
    ensures IsErrorReply(o) && |o.result.value.results| > 0 ==>
              r == MappingError(FromValue(Some(o.result.value.results[0].value)))
    ensures !IsErrorReply(o) && !IsAnswer(o) ==> r == MappingError(EmptyResult)
  {
    match o.result
    case None => MappingError(EmptyResult)
    case Some(rr) =>
      if rr.resultClass == Error then
        if |rr.results| == 0 then TypeError else MappingError(FromValue(Some(rr.results[0].value)))
      else if |rr.results| == 0 then MappingError(EmptyResult)
      else Ok(rr.results)
  }

  /** A decoder hands a failed check on unchanged. */
  predicate SameFailure<T>(c: Mapped<seq<Result>>, r: Mapped<T>) {
    && (c.TypeError? ==> r.TypeError?)
    && (c.MappingError? ==> r == MappingError(c.message))
  }

  /** The answer a decoder inspects is named `name` and has the expected
      shape. */
  predicate Inspects(r: Result, name: string, wantTuple: bool) {
    r.variable == name && (if wantTuple then r.value.Tuple? else r.value.List?)
  }

  // ---------------------------------------------------------------------
  // Element access on lists
  // ---------------------------------------------------------------------

  /** `(list[i] as Result).value.content as Tuple).fields` for every element:
      each element must be a named result holding a tuple, or the read
      raises. An empty list of either kind has no elements to read. */
  function ResultTuples(es: Elements): (r: Outcome<seq<seq<Result>>>)
    ensures r.Returns? <==>
              || (es.Values? && |es.values| == 0)
              || (es.Results? && forall k :: 0 <= k < |es.results| ==> es.results[k].value.Tuple?)
    ensures r.Returns? ==> |r.value| == Items(es)
    ensures r.Returns? && es.Results? ==>
              forall k :: 0 <= k < |r.value| ==> r.value[k] == es.results[k].value.fields
  {
    match es
    case Values(vs) => if |vs| == 0 then Returns([]) else Throws
    case Results(rs) =>
      if forall k :: 0 <= k < |rs| ==> rs[k].value.Tuple? then
        Returns(seq(|rs|, k requires 0 <= k < |rs| => rs[k].value.fields))
      else Throws
  }

  /** `((elements[i] as Value).content as Tuple).fields` for every element:
      each element must be a bare tuple value, or the read raises. */
  function ValueTuples(es: Elements): (r: Outcome<seq<seq<Result>>>)
    ensures r.Returns? <==>
              || (es.Results? && |es.results| == 0)
              || (es.Values? && forall k :: 0 <= k < |es.values| ==> es.values[k].Tuple?)
    ensures r.Returns? ==> |r.value| == Items(es)
    ensures r.Returns? && es.Values? ==>
              forall k :: 0 <= k < |r.value| ==> r.value[k] == es.values[k].fields
  {
    match es
    case Results(rs) => if |rs| == 0 then Returns([]) else Throws
    case Values(vs) =>
      if forall k :: 0 <= k < |vs| ==> vs[k].Tuple? then
        Returns(seq(|vs|, k requires 0 <= k < |vs| => vs[k].fields))
      else Throws
  }

  /** The elements of a list, whatever their kind. */
  function Items(es: Elements): nat {
    match es
    case Values(vs) => |vs|
    case Results(rs) => |rs|
  }

  // ---------------------------------------------------------------------
  // The five decoders
  // ---------------------------------------------------------------------

  /** The `Source` of a location: its file name and full path. */
  datatype Source = Source(name: string, path: string)

  datatype Breakpoint = Breakpoint(addr: string, enabled: bool, source: Source, func: string, line: Number, id: Number)

  datatype Frame = Frame(addr: string, source: Source, func: string, line: Number)

  datatype Local = Local(name: string, ty: string, value: Option<string>)

  datatype Child = Child(name: string, threadId: Number, numChild: Number, ty: string, exp: string)

  function FieldText(fields: seq<Result>, name: string): string {
    FromValue(Field(fields, name))
  }

  function SourceOf(fields: seq<Result>): Source {
    Source(FieldText(fields, "file"), FieldText(fields, "fullname"))
  }

  function BreakpointOf(fields: seq<Result>): Breakpoint {
    Breakpoint(FieldText(fields, "addr"), FieldText(fields, "enabled") == "y", SourceOf(fields),
               FieldText(fields, "func"), ToNumber(FieldText(fields, "line")), ToNumber(FieldText(fields, "number")))
  }

  /** `BreakpointResult.fromOutput`, for the reply to `-break-insert`. */
  function DecodeBreakpoint(o: Output): (r: Mapped<Breakpoint>)
    ensures !CheckResult(o).Ok? ==> SameFailure(CheckResult(o), r)
    ensures CheckResult(o).Ok? ==>
              (r.Ok? <==> Inspects(o.result.value.results[0], "bkpt", true))
    ensures CheckResult(o).Ok? && !r.Ok? ==> r == MappingError(WrongAnswer)
    ensures r.Ok? ==>
              var fields := o.result.value.results[0].value.fields;
              && (r.value.enabled <==> FieldText(fields, "enabled") == "y")
              && r.value.id == ToNumber(FieldText(fields, "number"))
              && r.value.line == ToNumber(FieldText(fields, "line"))
  {
    match CheckResult(o)
    case TypeError => TypeError
    case MappingError(m) => MappingError(m)
    case Ok(results) =>
      var first := results[0];
      if !Inspects(first, "bkpt", true) then MappingError(WrongAnswer)
      else
        Ok(BreakpointOf(first.value.fields))
  }

  function FrameOf(fields: seq<Result>): Frame {
    Frame(FieldText(fields, "addr"), SourceOf(fields), FieldText(fields, "func"), ToNumber(FieldText(fields, "line")))
  }

  /** `StacktraceResult.fromOutput`, for the reply to `-stack-list-frames`:
      one frame per element of the `stack` list, in list order. */
  function DecodeStack(o: Output): (r: Mapped<seq<Frame>>)
    ensures !CheckResult(o).Ok? ==> SameFailure(CheckResult(o), r)
    ensures CheckResult(o).Ok? && !Inspects(o.result.value.results[0], "stack", false) ==>
              r == MappingError(WrongAnswer)
    ensures CheckResult(o).Ok? && Inspects(o.result.value.results[0], "stack", false) ==>
              (r.TypeError? <==> ResultTuples(o.result.value.results[0].value.elements).Throws?)
    ensures r.Ok? ==>
              var es := o.result.value.results[0].value.elements;
              |r.value| == Items(es)
              && (es.Results? ==> forall k :: 0 <= k < |r.value| ==>
                    es.results[k].value.Tuple? && r.value[k] == FrameOf(es.results[k].value.fields))
  {
    match CheckResult(o)
    case TypeError => TypeError
    case MappingError(m) => MappingError(m)
    case Ok(results) =>
      var first := results[0];
      if !Inspects(first, "stack", false) then MappingError(WrongAnswer)
      else
        match ResultTuples(first.value.elements)
        case Throws => TypeError
        case Returns(tuples) => Ok(seq(|tuples|, k requires 0 <= k < |tuples| => FrameOf(tuples[k])))
  }

  /** The name carried by one element of the `args` list: the unquoted value
      of a named result, or the empty string for a bare value (which has no
      `value` property). */
  function ArgNames(es: Elements): seq<string> {
    match es
    case Values(vs) => seq(|vs|, k requires 0 <= k < |vs| => "")
    case Results(rs) => seq(|rs|, k requires 0 <= k < |rs| => FromValue(Some(rs[k].value)))
  }

  /** `FuncArgsResult.fromOutput`, for the reply to `-stack-list-arguments`:
      the first element of the `stack-args` list must be a named result (or
      the answer is `Wrong answer`); its tuple's `args` list gives one
      argument name per element, in order. */
  function DecodeFuncArgs(o: Output): (r: Mapped<seq<string>>)
    ensures !CheckResult(o).Ok? ==> SameFailure(CheckResult(o), r)
    ensures CheckResult(o).Ok? ==>
              var first := o.result.value.results[0];
              (r == MappingError(WrongAnswer) <==>
                 !Inspects(first, "stack-args", false) || !first.value.elements.Results?
                 || |first.value.elements.results| == 0)
    ensures r.Ok? ==>
              var frame := o.result.value.results[0].value.elements.results[0].value;
              && frame.Tuple? && Field(frame.fields, "args").Some?
              && Field(frame.fields, "args").value.List?
              && |r.value| == Items(Field(frame.fields, "args").value.elements)
  {
    match CheckResult(o)
    case TypeError => TypeError
    case MappingError(m) => MappingError(m)
    case Ok(results) =>
      var first := results[0];
      if !Inspects(first, "stack-args", false) then MappingError(WrongAnswer)
      else if !first.value.elements.Results? || |first.value.elements.results| == 0 then
        MappingError(WrongAnswer)
      else
        var frame := first.value.elements.results[0].value;
        if !frame.Tuple? then TypeError
        else
          match Field(frame.fields, "args")
          case Some(List(args)) => Ok(ArgNames(args))
          case _ => TypeError
  }

  function LocalOf(fields: seq<Result>): Local {
    var value := FieldText(fields, "value");
    Local(FieldText(fields, "name"), FieldText(fields, "type"), if value == "" then None else Some(value))
  }

  /** `LocalsResult.fromOutput`, for the reply to `-stack-list-locals`: one
      local per element of the `locals` list, in list order; a value that
      unquotes to the empty string, a missing one included, is no value. */
  function DecodeLocals(o: Output): (r: Mapped<seq<Local>>)
    ensures !CheckResult(o).Ok? ==> SameFailure(CheckResult(o), r)
    ensures CheckResult(o).Ok? && !Inspects(o.result.value.results[0], "locals", false) ==>
              r == MappingError(WrongAnswer)
    ensures CheckResult(o).Ok? && Inspects(o.result.value.results[0], "locals", false) ==>
              (r.TypeError? <==> ValueTuples(o.result.value.results[0].value.elements).Throws?)
    ensures r.Ok? ==>
              var es := o.result.value.results[0].value.elements;
              |r.value| == Items(es)
              && (es.Values? ==> forall k :: 0 <= k < |r.value| ==>
                    r.value[k].name == FieldText(es.values[k].fields, "name")
                    && (r.value[k].value.None? <==> FieldText(es.values[k].fields, "value") == ""))
  {
    match CheckResult(o)
    case TypeError => TypeError
    case MappingError(m) => MappingError(m)
    case Ok(results) =>
      var first := results[0];
      if !Inspects(first, "locals", false) then MappingError(WrongAnswer)
      else
        match ValueTuples(first.value.elements)
        case Throws => TypeError
        case Returns(tuples) => Ok(seq(|tuples|, k requires 0 <= k < |tuples| => LocalOf(tuples[k])))
  }

  function ChildOf(fields: seq<Result>): Child {
    Child(FieldText(fields, "name"), ToNumber(FieldText(fields, "thread-id")), ToNumber(FieldText(fields, "numchild")),
          FieldText(fields, "type"), FieldText(fields, "exp"))
  }

  /** `ListChildrenResult.fromOutput`, for the reply to `-var-list-children`:
      it inspects the SECOND result (the first is `numchild`), and reading
      it from a reply with a single result raises. */
  function DecodeChildren(o: Output): (r: Mapped<seq<Child>>)
    ensures !CheckResult(o).Ok? ==> SameFailure(CheckResult(o), r)
    ensures CheckResult(o).Ok? && |o.result.value.results| < 2 ==> r.TypeError?
    ensures CheckResult(o).Ok? && |o.result.value.results| >= 2 && !Inspects(o.result.value.results[1], "children", false) ==>
              r == MappingError(WrongAnswer)
    ensures r.Ok? ==>
              var es := o.result.value.results[1].value.elements;
              |r.value| == Items(es)
              && (es.Results? ==> forall k :: 0 <= k < |r.value| ==>
                    es.results[k].value.Tuple? && r.value[k] == ChildOf(es.results[k].value.fields))
  {
    match CheckResult(o)
    case TypeError => TypeError
    case MappingError(m) => MappingError(m)
    case Ok(results) =>
      if |results| < 2 then TypeError
      else
        var second := results[1];
        if !Inspects(second, "children", false) then MappingError(WrongAnswer)
        else
          match ResultTuples(second.value.elements)
          case Throws => TypeError
          case Returns(tuples) => Ok(seq(|tuples|, k requires 0 <= k < |tuples| => ChildOf(tuples[k])))
  }

  // ---------------------------------------------------------------------
  // The replies the debugger sends, read back
  // ---------------------------------------------------------------------

  /** A `^done` reply holding `results`. */
  function DoneReply(results: seq<Result>): Output {
    Output([], [], Some(ResultRecord(Done, "", results)))
  }

  /** `name="text"`. */
  function StrResult(name: string, text: string): Result {
    Result(name, Str(Quote(text)))
  }

  /** A string field of distinct-named results reads back as its text. */
  lemma FieldTextOf(fields: seq<Result>, k: nat, text: string)
    requires DistinctNames(fields) && k < |fields| && fields[k] == StrResult(fields[k].variable, text)
    ensures FieldText(fields, fields[k].variable) == text
  {
    FieldOfDistinct(fields, k);
    FromStrQuote(text);
  }

  /** The `bkpt` tuple of a breakpoint. */
  function BreakpointFields(b: Breakpoint): seq<Result> {
    [ StrResult("number", NumberString(b.id)), StrResult("enabled", if b.enabled then "y" else "n"),
      StrResult("addr", b.addr), StrResult("func", b.func), StrResult("file", b.source.name),
      StrResult("fullname", b.source.path), StrResult("line", NumberString(b.line)) ]
  }

  lemma BreakpointNamesDistinct(b: Breakpoint)
    ensures DistinctNames(BreakpointFields(b))
  {
  }

  /** Each field of a breakpoint's tuple reads back as the text it was
      written from. */
  lemma BreakpointTexts(b: Breakpoint)
    ensures var fs := BreakpointFields(b);
      && FieldText(fs, "number") == NumberString(b.id)
      && FieldText(fs, "enabled") == (if b.enabled then "y" else "n")
      && FieldText(fs, "addr") == b.addr
  {
    var fs := BreakpointFields(b);
    BreakpointNamesDistinct(b);
    FieldTextOf(fs, 0, NumberString(b.id));
    FieldTextOf(fs, 1, if b.enabled then "y" else "n");
    FieldTextOf(fs, 2, b.addr);
  }

  lemma BreakpointLocationTexts(b: Breakpoint)
    ensures var fs := BreakpointFields(b);
      && FieldText(fs, "func") == b.func
      && FieldText(fs, "file") == b.source.name
      && FieldText(fs, "fullname") == b.source.path
      && FieldText(fs, "line") == NumberString(b.line)
  {
    var fs := BreakpointFields(b);
    BreakpointNamesDistinct(b);
    FieldTextOf(fs, 3, b.func);
    FieldTextOf(fs, 4, b.source.name);
    FieldTextOf(fs, 5, b.source.path);
    FieldTextOf(fs, 6, NumberString(b.line));
  }

  lemma BreakpointRoundTrip(b: Breakpoint)
    ensures BreakpointOf(BreakpointFields(b)) == b
  {
    BreakpointTexts(b);
    BreakpointLocationTexts(b);
    ToNumberString(b.id);
    ToNumberString(b.line);
  }

  /** Every breakpoint survives the trip through its `-break-insert` reply. */
  lemma DecodeBreakpointReply(b: Breakpoint)
    ensures DecodeBreakpoint(DoneReply([Result("bkpt", Tuple(BreakpointFields(b)))])) == Ok(b)
  {
    BreakpointRoundTrip(b);
  }

  /** The `frame` tuple of a stack frame. */
  function FrameFields(f: Frame): seq<Result> {
    [ StrResult("addr", f.addr), StrResult("func", f.func), StrResult("file", f.source.name),
      StrResult("fullname", f.source.path), StrResult("line", NumberString(f.line)) ]
  }

  lemma FrameRoundTrip(f: Frame)
    ensures FrameOf(FrameFields(f)) == f
  {
    var fs := FrameFields(f);
    assert DistinctNames(fs);
    FieldTextOf(fs, 0, f.addr);
    FieldTextOf(fs, 1, f.func);
    FieldTextOf(fs, 2, f.source.name);
    FieldTextOf(fs, 3, f.source.path);
    FieldTextOf(fs, 4, NumberString(f.line));
    ToNumberString(f.line);
  }

  function StackReply(frames: seq<Frame>): Output {
    DoneReply([Result("stack", List(Results(seq(|frames|, k requires 0 <= k < |frames| =>
      Result("frame", Tuple(FrameFields(frames[k])))))))])
  }

  /** Every stack survives the trip through its `-stack-list-frames` reply,
      frame for frame and in order. */
  lemma DecodeStackReply(frames: seq<Frame>)
    ensures DecodeStack(StackReply(frames)) == Ok(frames)
  {
    var r := DecodeStack(StackReply(frames));
    forall k | 0 <= k < |frames| {
      FrameRoundTrip(frames[k]);
    }
    assert r.Ok?;
    assert r.value == frames;
  }

  /** The tuple of one local; a local without a value has no `value`
      field. */
  function LocalFields(l: Local): seq<Result> {
    [StrResult("name", l.name), StrResult("type", l.ty)]
      + (if l.value.Some? then [StrResult("value", l.value.value)] else [])
  }

  lemma LocalRoundTrip(l: Local)
    requires l.value != Some("")
    ensures LocalOf(LocalFields(l)) == l
  {
    var fs := LocalFields(l);
    assert DistinctNames(fs);
    FieldTextOf(fs, 0, l.name);
    FieldTextOf(fs, 1, l.ty);
    if l.value.Some? {
      FieldTextOf(fs, 2, l.value.value);
    } else {
      assert Field(fs, "value").None?;
    }
  }

  function LocalsReply(locals: seq<Local>): Output {
    DoneReply([Result("locals", List(Values(seq(|locals|, k requires 0 <= k < |locals| =>
      Tuple(LocalFields(locals[k]))))))])
  }

  /** Every list of locals survives the trip through its
      `-stack-list-locals` reply, as long as no value is the empty text (it
      reads back as no value). */
  lemma DecodeLocalsReply(locals: seq<Local>)
    requires forall k :: 0 <= k < |locals| ==> locals[k].value != Some("")
    ensures DecodeLocals(LocalsReply(locals)) == Ok(locals)
  {
    var r := DecodeLocals(LocalsReply(locals));
    forall k | 0 <= k < |locals| {
      LocalRoundTrip(locals[k]);
    }
    assert r.Ok?;
    assert r.value == locals;
  }

  /** The frame of a `-stack-list-arguments` reply naming `names`. */
  function ArgsReply(names: seq<string>): Output {
    var args := List(Results(seq(|names|, k requires 0 <= k < |names| => StrResult("name", names[k]))));
    DoneReply([Result("stack-args", List(Results([Result("frame", Tuple([StrResult("level", "0"), Result("args", args)]))])))])
  }

  /** Every list of argument names survives the trip through its reply. */
  lemma DecodeArgsReply(names: seq<string>)
    ensures DecodeFuncArgs(ArgsReply(names)) == Ok(names)
  {
    var args := List(Results(seq(|names|, k requires 0 <= k < |names| => StrResult("name", names[k]))));
    var fs := [StrResult("level", "0"), Result("args", args)];
    assert DistinctNames(fs);
    FieldOfDistinct(fs, 1);
    var r := DecodeFuncArgs(ArgsReply(names));
    forall k | 0 <= k < |names| {
      FromStrQuote(names[k]);
    }
    assert r.Ok?;
    assert r.value == names;
  }

  /** The `child` tuple of one child variable. */
  function ChildFields(c: Child): seq<Result> {
    [ StrResult("name", c.name), StrResult("exp", c.exp), StrResult("numchild", NumberString(c.numChild)),
      StrResult("type", c.ty), StrResult("thread-id", NumberString(c.threadId)) ]
  }

  lemma ChildRoundTrip(c: Child)
    ensures ChildOf(ChildFields(c)) == c
  {
    var fs := ChildFields(c);
    assert DistinctNames(fs);
    FieldTextOf(fs, 0, c.name);
    FieldTextOf(fs, 1, c.exp);
    FieldTextOf(fs, 2, NumberString(c.numChild));
    FieldTextOf(fs, 3, c.ty);
    FieldTextOf(fs, 4, NumberString(c.threadId));
    ToNumberString(c.numChild);
    ToNumberString(c.threadId);
  }

  function ChildrenReply(children: seq<Child>): Output {
    DoneReply([ StrResult("numchild", DecimalString(|children|)),
                Result("children", List(Results(seq(|children|, k requires 0 <= k < |children| =>
                  Result("child", Tuple(ChildFields(children[k]))))))) ])
  }

  /** Every list of children survives the trip through its
      `-var-list-children` reply. */
  lemma DecodeChildrenReply(children: seq<Child>)
    ensures DecodeChildren(ChildrenReply(children)) == Ok(children)
  {
    var r := DecodeChildren(ChildrenReply(children));
    forall k | 0 <= k < |children| {
      ChildRoundTrip(children[k]);
    }
    assert r.Ok?;
    assert r.value == children;
  }

  /** An `^error` reply is a `MappingError` carrying its message, for every
      decoder. */
  lemma DecodeErrorReply(token: string, msg: string)
    ensures var o := Output([], [], Some(ResultRecord(Error, token, [StrResult("msg", msg)])));
      && DecodeBreakpoint(o) == MappingError(msg)
      && DecodeStack(o) == MappingError(msg)
      && DecodeFuncArgs(o) == MappingError(msg)
      && DecodeLocals(o) == MappingError(msg)
      && DecodeChildren(o) == MappingError(msg)
  {
    FromStrQuote(msg);
  }
}
