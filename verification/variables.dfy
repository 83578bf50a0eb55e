/** `variablesRequest`: a reference at or above the first variable handle
    names a variable to expand, and its children are listed; any smaller
    reference (a scope) shows the frame's locals and arguments. The
    debugger's replies are inputs: `listChildren` answers
    `-var-list-children` for the name a handle resolves to (`None` when the
    handle is unknown), `evaluate` answers `-data-evaluate-expression`, and
    `locals` and `args` are what the locals and arguments requests gave. */
module Variables {
  import opened Base
  import opened Syntax
  import opened Session
  import Locals
  import Children

  /** Every variable of a response with a handle can be expanded by a later
      request: its handle is in the table. */
  predicate Expandable(r: Shown) {
    r.variables.Returns? ==>
      forall k :: 0 <= k < |r.variables.value| && r.variables.value[k].ref != 0 ==>
        Get(r.handles, r.variables.value[k].ref).Some?
  }

  /** `variablesRequest`. */
  function VariablesRequest(h: Handles, reference: int, listChildren: Option<string> -> Output,
                            evaluate: string -> Output, locals: Output, args: seq<Value>): (r: Shown)
    ensures Extends(r.handles, h)
    ensures Expandable(r)
    ensures reference < VarHandlesStart && !IsDone(locals) ==> r == Shown(h, [], Returns([]))
    ensures reference >= VarHandlesStart && listChildren(Get(h, reference)).result.None? ==> r.variables.Throws?
  {
    if reference >= VarHandlesStart then
      var r := Children.ShowChildren(h, listChildren(Get(h, reference)), evaluate);
      assert Expandable(r) by {
        if r.variables.Returns? {
          forall k | 0 <= k < |r.variables.value| && r.variables.value[k].ref != 0
            ensures Get(r.handles, r.variables.value[k].ref).Some?
          {
            assert Children.Expands(r.handles, r.commands, r.variables.value[k]);
          }
        }
      }
      r
    else
      var r := Locals.ShowLocals(h, locals, args);
      assert Expandable(r) by {
        if r.variables.Returns? {
          forall k | 0 <= k < |r.variables.value| && r.variables.value[k].ref != 0
            ensures Get(r.handles, r.variables.value[k].ref).Some?
          {
            assert Resolves(r.handles, r.variables.value[k]);
          }
        }
      }
      r
  }

  /** Expanding a local: the handle a locals response gives a variable leads
      a later request to the children of that variable's name, whatever the
      later request's locals and arguments. */
  lemma ExpandLocal(h: Handles, scope: int, listChildren: Option<string> -> Output, evaluate: string -> Output,
                    locals: Output, args: seq<Value>, k: nat, locals': Output, args': seq<Value>)
    requires scope < VarHandlesStart
    ensures var r := VariablesRequest(h, scope, listChildren, evaluate, locals, args);
      r.variables.Returns? && k < |r.variables.value| && r.variables.value[k].ref != 0 ==>
        VariablesRequest(r.handles, r.variables.value[k].ref, listChildren, evaluate, locals', args')
          == Children.ShowChildren(r.handles, listChildren(Some(r.variables.value[k].name)), evaluate)
  {
    var r := VariablesRequest(h, scope, listChildren, evaluate, locals, args);
    if r.variables.Returns? && k < |r.variables.value| && r.variables.value[k].ref != 0 {
      assert Resolves(r.handles, r.variables.value[k]);
    }
  }

  /** Expanding a child: the handle a children response gives a variable
      leads a later request to the children of an expression the first
      request evaluated. */
  lemma ExpandChild(h: Handles, reference: int, listChildren: Option<string> -> Output, evaluate: string -> Output,
                    locals: Output, args: seq<Value>, k: nat, locals': Output, args': seq<Value>)
    requires reference >= VarHandlesStart
    ensures var r := VariablesRequest(h, reference, listChildren, evaluate, locals, args);
      r.variables.Returns? && k < |r.variables.value| && r.variables.value[k].ref != 0 ==>
        exists expr :: Evaluate(expr) in r.commands &&
          VariablesRequest(r.handles, r.variables.value[k].ref, listChildren, evaluate, locals', args')
            == Children.ShowChildren(r.handles, listChildren(Some(expr)), evaluate)
  {
    var r := VariablesRequest(h, reference, listChildren, evaluate, locals, args);
    if r.variables.Returns? && k < |r.variables.value| && r.variables.value[k].ref != 0 {
      assert Children.Expands(r.handles, r.commands, r.variables.value[k]);
      var expr := Get(r.handles, r.variables.value[k].ref).value;
      assert Evaluate(expr) in r.commands;
    }
  }

  /** A handle the table does not hold is passed on as `undefined`, and the
      request shows whatever the debugger answers for it. */
  lemma UnknownHandle(h: Handles, reference: int, listChildren: Option<string> -> Output, evaluate: string -> Output,
                      locals: Output, args: seq<Value>)
    requires reference >= VarHandlesStart + |h.names|
    ensures VariablesRequest(h, reference, listChildren, evaluate, locals, args)
            == Children.ShowChildren(h, listChildren(None), evaluate)
  {
  }
}
