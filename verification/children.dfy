/** The nested branch of `variablesRequest`: the children of an expandable
    variable. Each child of the `-var-list-children` reply is evaluated with
    `-data-evaluate-expression`; a child whose evaluation is not `^done` is
    left out, and a child with children of its own gets a handle for its
    expression. The children reply is an input and `evaluate` stands for the
    debugger's answers; the evaluations are recorded as commands. */
module Children {
  import opened Base
  import opened Text
  import opened Syntax
  import opened Session
  import opened Literal
  import opened Merge
  import Mapping
  import Locals

  /** A child that can be expanded leads, through its handle, back to an
      expression that was evaluated. */
  predicate Expands(h: Handles, cmds: seq<Command>, v: Variable) {
    v.ref != 0 ==> Get(h, v.ref).Some? && Evaluate(Get(h, v.ref).value) in cmds
  }

  /** The four fields of a child the request reads, as text. */
  datatype ChildText = ChildText(exp: string, numchild: string, ty: string, name: string)

  /** The child's `exp`, `numchild`, `type` and `name` fields, read in that
      order; each must be a string. */
  function ReadChild(child: Result): (r: Outcome<ChildText>)
    ensures r.Returns? <==>
              && child.value.Tuple?
              && FromContent(Field(child.value.fields, "exp")).Returns?
              && FromContent(Field(child.value.fields, "numchild")).Returns?
              && FromContent(Field(child.value.fields, "type")).Returns?
              && FromContent(Field(child.value.fields, "name")).Returns?
    ensures r.Returns? ==>
              && r.value.exp == FromContent(Field(child.value.fields, "exp")).value
              && r.value.name == FromContent(Field(child.value.fields, "name")).value
  {
    if !child.value.Tuple? then Throws
    else
      var fields := child.value.fields;
      match FromContent(Field(fields, "exp"))
      case Throws => Throws
      case Returns(exp) =>
        match FromContent(Field(fields, "numchild"))
        case Throws => Throws
        case Returns(numchild) =>
          match FromContent(Field(fields, "type"))
          case Throws => Throws
          case Returns(ty) =>
            match FromContent(Field(fields, "name"))
            case Throws => Throws
            case Returns(name) => Returns(ChildText(exp, numchild, ty, name))
  }

  /** A child shown from the reply to the evaluation of its `name`: left
      out (`None`) unless the reply is `^done`, which must hold a result. A
      zero pointer shows `null`; a child without children of its own, or a
      string, shows the evaluated value; any other child is shown empty with
      a fresh handle for its `name`. */
  function ShowEvaluated(h: Handles, t: ChildText, reply: Output): (r: (Handles, Outcome<Option<Variable>>))
    ensures r.1.Returns? <==> !IsDone(reply) || |reply.result.value.results| > 0
    ensures r.1.Returns? ==> (r.1.value.None? <==> !IsDone(reply))
    ensures r.1.Returns? && r.1.value.Some? ==>
              && r.1.value.value.name == t.exp
              && (r.1.value.value.ref == 0 <==> r.0 == h)
              && (r.1.value.value.ref != 0 ==> (r.0, r.1.value.value.ref) == Create(h, t.name))
    ensures r.1.Returns? && r.1.value.Some? ==> r.1.value.value.ref == 0 || r.1.value.value.value == ""
    ensures r.1.Returns? && r.1.value.None? ==> r.0 == h
    ensures r.1.Throws? ==> r.0 == h
  {
    if !IsDone(reply) then (h, Returns(None))
    else if |reply.result.value.results| == 0 then (h, Throws)
    else
      var content := reply.result.value.results[0].value;
      var contentValue := if content.Str? then FromStr(content.raw) else "";
      if IsPointerType(t.ty) && IsZero(contentValue) then
        (h, Returns(Some(Variable(t.exp, "null", 0))))
      else if AtMostZero(ToNumber(t.numchild)) || IsStringType(t.ty) then
        var value := if IsStringType(t.ty) then ParseMiStringLiteral(contentValue) else contentValue;
        (h, Returns(Some(Variable(t.exp, value, 0))))
      else
        var (h', ref) := Create(h, t.name);
        (h', Returns(Some(Variable(t.exp, "", ref))))
  }

  /** How one child is shown: its fields are read, then its `name` is
      evaluated. */
  function ShowChild(h: Handles, evaluate: string -> Output, child: Result): (r: (Handles, seq<Command>, Outcome<Option<Variable>>))
    ensures r.2.Throws? ==> r.0 == h
    ensures Extends(r.0, h)
    ensures r.2.Returns? ==>
              && ReadChild(child).Returns?
              && r.1 == [Evaluate(ReadChild(child).value.name)]
    ensures r.2.Returns? && r.2.value.Some? ==>
              && (r.2.value.value.ref != 0 ==> Get(r.0, r.2.value.value.ref) == Some(ReadChild(child).value.name))
  {
    match ReadChild(child)
    case Throws => (h, [], Throws)
    case Returns(t) =>
      var (h', out) := ShowEvaluated(h, t, evaluate(t.name));
      (h', [Evaluate(t.name)], out)
  }

  /** Every variable collected expands to an evaluated expression. */
  ghost predicate AllExpand(h: Handles, cmds: seq<Command>, vs: seq<Variable>) {
    forall k :: 0 <= k < |vs| ==> Expands(h, cmds, vs[k])
  }

  /** A step that grows the table and the commands keeps every collected
      variable expanding. */
  lemma ExpandsGrow(h: Handles, cmds: seq<Command>, h': Handles, cmds': seq<Command>, acc: seq<Variable>)
    requires Extends(h', h) && |cmds| <= |cmds'| && cmds'[..|cmds|] == cmds
    requires AllExpand(h, cmds, acc)
    ensures AllExpand(h', cmds', acc)
  {
    forall k | 0 <= k < |acc| && acc[k].ref != 0
      ensures Expands(h', cmds', acc[k])
    {
      ExtendsKeeps(h', h, acc[k].ref);
      var e := Evaluate(Get(h, acc[k].ref).value);
      var i :| 0 <= i < |cmds| && cmds[i] == e;
      assert cmds'[i] == e;
    }
  }

  /** What showing one child gives: the table after it, the commands it
      issued and the variable shown, if any. */
  type Step = (Handles, seq<Command>, Outcome<Option<Variable>>)

  /** The step the request takes for each child. */
  function ChildStep(evaluate: string -> Output): (Handles, Result) -> Step {
    (h: Handles, child: Result) => ShowChild(h, evaluate, child)
  }

  /** A step that only grows the table and whose variable expands to a
      command it issued. */
  ghost predicate StepKeeps(show: (Handles, Result) -> Step) {
    forall h: Handles, child: Result {:trigger show(h, child)} ::
      && Extends(show(h, child).0, h)
      && (show(h, child).2.Throws? ==> show(h, child).0 == h)
      && (show(h, child).2.Returns? && show(h, child).2.value.Some? ==>
            Expands(show(h, child).0, show(h, child).1, show(h, child).2.value.value))
  }

  /** The child step keeps the table growing and every handle it creates
      expanding. */
  lemma ChildStepKeeps(evaluate: string -> Output)
    ensures StepKeeps(ChildStep(evaluate))
  {
    forall h: Handles, child: Result
      ensures var r := ShowChild(h, evaluate, child);
        r.2.Returns? && r.2.value.Some? ==> Expands(r.0, r.1, r.2.value.value)
    {
    }
  }

  /** The children of one `children` list, in order, appended to `acc`. */
  function ShowList(h: Handles, show: (Handles, Result) -> Step, acc: seq<Variable>, cmds: seq<Command>,
                    children: seq<Result>): Shown
    decreases |children|
  {
    if |children| == 0 then Shown(h, cmds, Returns(acc))
    else
      var (h', more, out) := show(h, children[0]);
      match out
      case Throws => Shown(h, cmds + more, Throws)
      case Returns(v) => ShowList(h', show, acc + (if v.Some? then [v.value] else []), cmds + more, children[1..])
  }

  /** A list only grows the table and the commands; every variable it adds
      expands to an evaluated expression, and those collected before keep
      expanding. */
  lemma {:induction false} ShowListExpands(h: Handles, show: (Handles, Result) -> Step, acc: seq<Variable>,
                                           cmds: seq<Command>, children: seq<Result>)
    requires StepKeeps(show)
    ensures var r := ShowList(h, show, acc, cmds, children);
      && Extends(r.handles, h)
      && |cmds| <= |r.commands| && r.commands[..|cmds|] == cmds
      && (r.variables.Returns? && AllExpand(h, cmds, acc) ==> AllExpand(r.handles, r.commands, r.variables.value))
    decreases |children|
  {
    if |children| > 0 {
      var (h', more, out) := show(h, children[0]);
      if out.Throws? {
        assert (cmds + more)[..|cmds|] == cmds;
      } else {
        var acc' := acc + (if out.value.Some? then [out.value.value] else []);
        ShowListExpands(h', show, acc', cmds + more, children[1..]);
        var r := ShowList(h', show, acc', cmds + more, children[1..]);
        ExtendsTrans(r.handles, h', h);
        assert r.commands[..|cmds|] == r.commands[..|cmds + more|][..|cmds|];
        if r.variables.Returns? && AllExpand(h, cmds, acc) {
          ExpandsGrow(h, cmds, h', cmds + more, acc);
          assert AllExpand(h', cmds + more, acc');
        }
      }
    }
  }

  /** The results of the `-var-list-children` reply: results other than
      `children` are skipped; a `children` result must be a list of results
      (an empty list of values is passed over, any other content stops the
      request). */
  function ShowGroups(h: Handles, show: (Handles, Result) -> Step, acc: seq<Variable>, cmds: seq<Command>,
                      groups: seq<Result>): Shown
    decreases |groups|
  {
    if |groups| == 0 then Shown(h, cmds, Returns(acc))
    else if groups[0].variable != "children" then ShowGroups(h, show, acc, cmds, groups[1..])
    else
      match groups[0].value
      case List(Results(children)) =>
        var s := ShowList(h, show, acc, cmds, children);
        if s.variables.Throws? then s else ShowGroups(s.handles, show, s.variables.value, s.commands, groups[1..])
      case List(Values(values)) =>
        if |values| == 0 then ShowGroups(h, show, acc, cmds, groups[1..]) else Shown(h, cmds, Throws)
      case _ => Shown(h, cmds, Throws)
  }

  /** Every group only grows the table and keeps the variables expanding. */
  lemma {:induction false} ShowGroupsExpands(h: Handles, show: (Handles, Result) -> Step, acc: seq<Variable>,
                                             cmds: seq<Command>, groups: seq<Result>)
    requires StepKeeps(show)
    ensures var r := ShowGroups(h, show, acc, cmds, groups);
      && Extends(r.handles, h)
      && (r.variables.Returns? && AllExpand(h, cmds, acc) ==> AllExpand(r.handles, r.commands, r.variables.value))
    decreases |groups|
  {
    if |groups| > 0 {
      if groups[0].variable != "children" {
        ShowGroupsExpands(h, show, acc, cmds, groups[1..]);
      } else if groups[0].value.List? && groups[0].value.elements.Results? {
        var s := ShowList(h, show, acc, cmds, groups[0].value.elements.results);
        ShowListExpands(h, show, acc, cmds, groups[0].value.elements.results);
        if s.variables.Returns? {
          ShowGroupsExpands(s.handles, show, s.variables.value, s.commands, groups[1..]);
          ExtendsTrans(ShowGroups(s.handles, show, s.variables.value, s.commands, groups[1..]).handles, s.handles, h);
        }
      } else if groups[0].value.List? && groups[0].value.elements.Values? && |groups[0].value.elements.values| == 0 {
        ShowGroupsExpands(h, show, acc, cmds, groups[1..]);
      }
    }
  }

  lemma ExtendsTrans(a: Handles, b: Handles, c: Handles)
    requires Extends(a, b) && Extends(b, c)
    ensures Extends(a, c)
  {
    assert a.names[..|c.names|] == a.names[..|b.names|][..|c.names|];
  }

  /** The nested branch of `variablesRequest`, given the reply to
      `-var-list-children`: a reply without a result record stops the
      request. Every variable shown with a handle leads back, through the
      table, to an expression the request evaluated. */
  function ShowChildren(h: Handles, reply: Output, evaluate: string -> Output): (r: Shown)
    ensures reply.result.None? ==> r.variables.Throws?
    ensures Extends(r.handles, h)
    ensures r.variables.Returns? ==> AllExpand(r.handles, r.commands, r.variables.value)
  {
    if reply.result.None? then Shown(h, [], Throws)
    else
      ChildStepKeeps(evaluate);
      var r := ShowGroups(h, ChildStep(evaluate), [], [], reply.result.value.results);
      assert Extends(r.handles, h) && (r.variables.Returns? ==> AllExpand(r.handles, r.commands, r.variables.value)) by {
        ShowGroupsExpands(h, ChildStep(evaluate), [], [], reply.result.value.results);
      }
      r
  }

  // ---------------------------------------------------------------------
  // The children the debugger lists
  // ---------------------------------------------------------------------

  /** The `child` results of a children reply. */
  function ChildResults(cs: seq<Mapping.Child>): seq<Result> {
    seq(|cs|, k requires 0 <= k < |cs| => Result("child", Tuple(Mapping.ChildFields(cs[k]))))
  }

  /** The names the view shows for `cs`: the `exp` of every child whose
      evaluation is `^done`, in order. */
  function Evaluated(cs: seq<Mapping.Child>, evaluate: string -> Output): seq<string>
    decreases |cs|
  {
    if |cs| == 0 then []
    else (if IsDone(evaluate(cs[0].name)) then [cs[0].exp] else []) + Evaluated(cs[1..], evaluate)
  }

  /** Every child's expression evaluated, in order. */
  function Evaluations(cs: seq<Mapping.Child>): (cmds: seq<Command>)
    ensures |cmds| == |cs| && forall k :: 0 <= k < |cs| ==> cmds[k] == Evaluate(cs[k].name)
  {
    seq(|cs|, k requires 0 <= k < |cs| => Evaluate(cs[k].name))
  }

  /** A child's fields read back as written. */
  lemma ChildFieldsRead(c: Mapping.Child)
    ensures FromContent(Field(Mapping.ChildFields(c), "exp")) == Returns(c.exp)
    ensures FromContent(Field(Mapping.ChildFields(c), "numchild")) == Returns(NumberString(c.numChild))
    ensures FromContent(Field(Mapping.ChildFields(c), "type")) == Returns(c.ty)
    ensures FromContent(Field(Mapping.ChildFields(c), "name")) == Returns(c.name)
  {
    var fs := Mapping.ChildFields(c);
    assert DistinctNames(fs);
    FieldOfDistinct(fs, 0);
    FieldOfDistinct(fs, 1);
    FieldOfDistinct(fs, 2);
    FieldOfDistinct(fs, 3);
    FromContentQuote(c.name);
    FromContentQuote(c.exp);
    FromContentQuote(NumberString(c.numChild));
    FromContentQuote(c.ty);
  }

  /** A child entry the debugger sends reads back as its four texts. */
  lemma ChildRead(c: Mapping.Child) returns (t: ChildText)
    ensures t == ChildText(c.exp, NumberString(c.numChild), c.ty, c.name)
    ensures ReadChild(Result("child", Tuple(Mapping.ChildFields(c)))) == Returns(t)
  {
    ChildFieldsRead(c);
    t := ChildText(c.exp, NumberString(c.numChild), c.ty, c.name);
  }

  /** The debugger answers every evaluation it completes with a result. */
  ghost predicate Answers(cs: seq<Mapping.Child>, evaluate: string -> Output) {
    forall k :: 0 <= k < |cs| && IsDone(evaluate(cs[k].name)) ==> |evaluate(cs[k].name).result.value.results| > 0
  }

  /** A step that shows the listed child `c`: it evaluates the child's
      `name` and shows the child under its `exp` exactly when that
      evaluation is `^done`. */
  ghost predicate Listed(r: Step, c: Mapping.Child, evaluate: string -> Output) {
    && r.1 == [Evaluate(c.name)]
    && r.2.Returns?
    && (r.2.value.Some? <==> IsDone(evaluate(c.name)))
    && (r.2.value.Some? ==> r.2.value.value.name == c.exp)
  }

  /** One listed child, answered by the debugger, is shown as `Listed`. */
  lemma ShowListedChild(h: Handles, evaluate: string -> Output, c: Mapping.Child)
    requires !IsDone(evaluate(c.name)) || |evaluate(c.name).result.value.results| > 0
    ensures Listed(ShowChild(h, evaluate, Result("child", Tuple(Mapping.ChildFields(c)))), c, evaluate)
  {
    ChildFieldsRead(c);
  }

  /** Every child of the list is shown as `Listed`, from any table. */
  ghost predicate AllListed(show: (Handles, Result) -> Step, children: seq<Result>, cs: seq<Mapping.Child>,
                            evaluate: string -> Output) {
    && |children| == |cs|
    && forall h: Handles, k :: 0 <= k < |cs| ==> Listed(show(h, children[k]), cs[k], evaluate)
  }

  /** The first child of a listed list, and the rest of it. */
  lemma AllListedCons(show: (Handles, Result) -> Step, children: seq<Result>, cs: seq<Mapping.Child>,
                      evaluate: string -> Output, h: Handles)
    requires AllListed(show, children, cs, evaluate) && |cs| > 0
    ensures Listed(show(h, children[0]), cs[0], evaluate)
    ensures AllListed(show, children[1..], cs[1..], evaluate)
  {
    forall h': Handles, k | 0 <= k < |cs| - 1
      ensures Listed(show(h', children[1..][k]), cs[1..][k], evaluate)
    {
      assert children[1..][k] == children[k + 1];
    }
  }

  /** One round of the list loop, for a child that does not stop it. */
  lemma ShowListStep(h: Handles, show: (Handles, Result) -> Step, acc: seq<Variable>, cmds: seq<Command>,
                     children: seq<Result>)
    requires |children| > 0 && show(h, children[0]).2.Returns?
    ensures var (h', more, out) := show(h, children[0]);
      ShowList(h, show, acc, cmds, children)
        == ShowList(h', show, acc + (if out.value.Some? then [out.value.value] else []), cmds + more, children[1..])
  {
  }

  /** The evaluations of a list split at its first child. */
  lemma EvaluationsTail(cs: seq<Mapping.Child>)
    requires |cs| > 0
    ensures Evaluations(cs) == [Evaluate(cs[0].name)] + Evaluations(cs[1..])
  {
  }

  /** The names a list shows split at its first child. */
  lemma EvaluatedTail(cs: seq<Mapping.Child>, evaluate: string -> Output, acc: seq<Variable>, out: Option<Variable>)
    requires |cs| > 0
    requires out.Some? <==> IsDone(evaluate(cs[0].name))
    requires out.Some? ==> out.value.name == cs[0].exp
    ensures Names(acc + (if out.Some? then [out.value] else [])) + Evaluated(cs[1..], evaluate)
            == Names(acc) + Evaluated(cs, evaluate)
  {
    if out.Some? {
      NamesSnoc(acc, out.value);
    } else {
      assert acc + [] == acc;
    }
  }

  /** A list of children is shown child by child: every expression is
      evaluated in order, and the view lists the `exp` of each child whose
      evaluation succeeded. */
  lemma {:induction false} ShowListOfChildren(h: Handles, show: (Handles, Result) -> Step, evaluate: string -> Output,
                                              acc: seq<Variable>, cmds: seq<Command>,
                                              children: seq<Result>, cs: seq<Mapping.Child>)
    requires AllListed(show, children, cs, evaluate)
    ensures var r := ShowList(h, show, acc, cmds, children);
      && r.variables.Returns?
      && Names(r.variables.value) == Names(acc) + Evaluated(cs, evaluate)
      && r.commands == cmds + Evaluations(cs)
    decreases |cs|
  {
    if |cs| > 0 {
      var (h', more, out) := show(h, children[0]);
      AllListedCons(show, children, cs, evaluate, h);
      var shown := if out.value.Some? then [out.value.value] else [];
      ShowListStep(h, show, acc, cmds, children);
      ShowListOfChildren(h', show, evaluate, acc + shown, cmds + more, children[1..], cs[1..]);
      EvaluationsTail(cs);
      Assoc(cmds, more, Evaluations(cs[1..]));
      EvaluatedTail(cs, evaluate, acc, out.value);
    } else {
      assert Names(acc) + [] == Names(acc);
    }
  }

  /** Every child of a reply the debugger answered is shown as `Listed`. */
  lemma ChildStepListed(evaluate: string -> Output, cs: seq<Mapping.Child>)
    requires Answers(cs, evaluate)
    ensures AllListed(ChildStep(evaluate), ChildResults(cs), cs, evaluate)
  {
    var children := ChildResults(cs);
    forall h: Handles, k | 0 <= k < |cs|
      ensures Listed(ChildStep(evaluate)(h, children[k]), cs[k], evaluate)
    {
      ShowListedChild(h, evaluate, cs[k]);
    }
  }

  /** A reply whose one `children` list follows its `numchild` shows that
      list. */
  lemma GroupsOfList(h: Handles, show: (Handles, Result) -> Step, numchild: Result, children: seq<Result>)
    requires numchild.variable != "children"
    ensures ShowGroups(h, show, [], [], [numchild, Result("children", List(Results(children)))])
            == ShowList(h, show, [], [], children)
  {
    var groups := [numchild, Result("children", List(Results(children)))];
    assert groups[1..][1..] == [];
    assert groups[1..][0] == Result("children", List(Results(children)));
    var s := ShowList(h, show, [], [], children);
    if s.variables.Returns? {
      assert ShowGroups(s.handles, show, s.variables.value, s.commands, []) == s;
    }
  }

  /** The reply's one `children` list is the list shown. */
  lemma ShowChildrenList(h: Handles, evaluate: string -> Output, cs: seq<Mapping.Child>)
    ensures ShowChildren(h, Mapping.ChildrenReply(cs), evaluate)
            == ShowList(h, ChildStep(evaluate), [], [], ChildResults(cs))
  {
    GroupsOfList(h, ChildStep(evaluate), Mapping.StrResult("numchild", DecimalString(|cs|)), ChildResults(cs));
  }

  /** The whole reply the debugger sends for `-var-list-children`: the
      response lists, in order, the `exp` of every child whose evaluation
      succeeded, after evaluating every child's `name` once, in order. */
  lemma ShowChildrenReply(h: Handles, evaluate: string -> Output, cs: seq<Mapping.Child>)
    requires Answers(cs, evaluate)
    ensures var r := ShowChildren(h, Mapping.ChildrenReply(cs), evaluate);
      && r.variables.Returns?
      && Names(r.variables.value) == Evaluated(cs, evaluate)
      && r.commands == Evaluations(cs)
  {
    ChildStepListed(evaluate, cs);
    ShowListOfChildren(h, ChildStep(evaluate), evaluate, [], [], ChildResults(cs), cs);
    ShowChildrenList(h, evaluate, cs);
    assert Names([]) + Evaluated(cs, evaluate) == Evaluated(cs, evaluate);
  }

  /** A leaf child that is neither a string nor a null pointer is shown
      with its evaluated value and cannot be expanded. */
  lemma ShowLeafChild(h: Handles, evaluate: string -> Output, c: Mapping.Child, text: string)
    requires AtMostZero(c.numChild) && !IsStringType(c.ty) && !(IsPointerType(c.ty) && IsZero(text))
    requires evaluate(c.name) == Mapping.DoneReply([Mapping.StrResult("value", text)])
    ensures ShowChild(h, evaluate, Result("child", Tuple(Mapping.ChildFields(c))))
            == (h, [Evaluate(c.name)], Returns(Some(Variable(c.exp, text, 0))))
  {
    var t := ChildRead(c);
    ToNumberString(c.numChild);
    FromStrQuote(text);
    assert ShowEvaluated(h, t, evaluate(c.name)) == (h, Returns(Some(Variable(c.exp, text, 0))));
  }

  /** A child with children of its own, that is not a null pointer, is
      shown empty with a handle for its expression. */
  lemma ShowParentChild(h: Handles, evaluate: string -> Output, c: Mapping.Child, text: string)
    requires c.numChild.Finite? && c.numChild.n > 0 && !IsStringType(c.ty)
    requires !(IsPointerType(c.ty) && IsZero(text))
    requires evaluate(c.name) == Mapping.DoneReply([Mapping.StrResult("value", text)])
    ensures var (h', ref) := Create(h, c.name);
      ShowChild(h, evaluate, Result("child", Tuple(Mapping.ChildFields(c))))
        == (h', [Evaluate(c.name)], Returns(Some(Variable(c.exp, "", ref))))
  {
    var t := ChildRead(c);
    ToNumberString(c.numChild);
    FromStrQuote(text);
    var (h', ref) := Create(h, c.name);
    assert ShowEvaluated(h, t, evaluate(c.name)) == (h', Returns(Some(Variable(c.exp, "", ref))));
  }

  /** A null pointer child shows `null` and cannot be expanded, whatever
      its number of children. */
  lemma ShowNullChild(h: Handles, evaluate: string -> Output, c: Mapping.Child, text: string)
    requires IsPointerType(c.ty) && IsZero(text)
    requires evaluate(c.name) == Mapping.DoneReply([Mapping.StrResult("value", text)])
    ensures ShowChild(h, evaluate, Result("child", Tuple(Mapping.ChildFields(c))))
            == (h, [Evaluate(c.name)], Returns(Some(Variable(c.exp, "null", 0))))
  {
    var t := ChildRead(c);
    FromStrQuote(text);
    assert ShowEvaluated(h, t, evaluate(c.name)) == (h, Returns(Some(Variable(c.exp, "null", 0))));
  }

  /** The evaluation of a `char *` whose value is not zero shows the
      literal it holds. */
  lemma StringEvaluated(h: Handles, t: ChildText, ptr: string)
    requires t.ty == "char *" && !IsZero(ptr)
    ensures ShowEvaluated(h, t, Mapping.DoneReply([Mapping.StrResult("value", ptr)]))
            == (h, Returns(Some(Variable(t.exp, ParseMiStringLiteral(ptr), 0))))
  {
    FromStrQuote(ptr);
    assert IsPointerType("char *") && IsStringType("char *");
  }

  /** A `char *` child is shown as its text, in quotes, and cannot be
      expanded, whatever its number of children. */
  lemma ShowStringChild(h: Handles, evaluate: string -> Output, c: Mapping.Child, digits: string, text: string)
    requires c.ty == "char *"
    requires |digits| > 0 && AllHexDigits(digits)
    requires forall k :: 0 <= k < |text| ==> !IsLineTerminator(text[k])
    requires evaluate(c.name) == Mapping.DoneReply([Mapping.StrResult("value", "0x" + digits + " \\\"" + text + "\\\"")])
    ensures ShowChild(h, evaluate, Result("child", Tuple(Mapping.ChildFields(c))))
            == (h, [Evaluate(c.name)], Returns(Some(Variable(c.exp, Quote(text), 0))))
  {
    var ptr := "0x" + digits + " \\\"" + text + "\\\"";
    var t := ChildRead(c);
    Locals.LiteralNotZero(digits, text);
    LiteralRoundTrip(digits, text);
    StringEvaluated(h, t, ptr);
  }

  /** A child whose evaluation is `^done` without a result stops the
      request, after the evaluation was sent. */
  lemma EvaluatedThenThrows(h: Handles, evaluate: string -> Output, c: Mapping.Child)
    requires evaluate(c.name) == Mapping.DoneReply([])
    ensures ShowChildren(h, Mapping.ChildrenReply([c]), evaluate) == Shown(h, [Evaluate(c.name)], Throws)
  {
    var t := ChildRead(c);
    ShowChildrenList(h, evaluate, [c]);
    assert ChildResults([c])[0] == Result("child", Tuple(Mapping.ChildFields(c)));
  }
}
