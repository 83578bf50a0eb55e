/** What the debug session does with parsed values before it shows them:
    `fromStr` on a value's content, the type tests on a variable's type, and
    the handle table that lets the editor expand a variable later. */
module Session {
  import opened Base
  import opened Text
  import opened Syntax

  /** `this.fromStr(v.content)` for a value looked up in a tuple. A missing
      value (a property read on `undefined`) or a content that is a tuple or
      a list (neither has `substr`) stops the handler with a TypeError. */
  function FromContent(v: Option<Value>): (r: Outcome<string>)
    ensures r.Returns? <==> v.Some? && v.value.Str?
    ensures r.Returns? && |v.value.raw| >= 2 ==>
              v.value.raw == [v.value.raw[0]] + r.value + [v.value.raw[|v.value.raw| - 1]]
  {
    match v
    case Some(Str(raw)) => Returns(FromStr(raw))
    case _ => Throws
  }

  /** A quoted text reads back as the text. */
  lemma FromContentQuote(text: string)
    ensures FromContent(Some(Str(Quote(text)))) == Returns(text)
  {
    FromStrQuote(text);
  }

  /** `varType.endsWith('*')`. */
  predicate IsPointerType(ty: string) {
    EndsWith(ty, "*")
  }

  /** `varType === 'char *'`: the one type shown as a string literal. */
  predicate IsStringType(ty: string) {
    ty == "char *"
  }

  /** A row of the variables view: the name, the text shown, and the handle
      the editor passes back to expand it (0 when it cannot be expanded). */
  datatype Variable = Variable(name: string, value: string, ref: nat)

  /** The debugger commands a variables request issues, in order. */
  datatype Command = VarDelete(name: string) | VarCreate(name: string) | Evaluate(expr: string)

  /** A variable whose handle leads back to the name it was created for. */
  predicate Resolves(h: Handles, v: Variable) {
    v.ref != 0 ==> Get(h, v.ref) == Some(v.name)
  }

  /** What a variables request leaves behind: the handle table (handles
      created before a TypeError stay), the commands issued, and the
      variables of the response, or `Throws` when no response is sent. */
  datatype Shown = Shown(handles: Handles, commands: seq<Command>, variables: Outcome<seq<Variable>>)

  /** Whether a reply is `^done`. */
  predicate IsDone(o: Output) {
    o.result.Some? && o.result.value.resultClass == Done
  }

  // ---------------------------------------------------------------------
  // Variable handles
  // ---------------------------------------------------------------------

  const VarHandlesStart: nat := 1024

  /** The session's `Handles<string>`: handle `VarHandlesStart + k` stands
      for `names[k]`; handles are handed out in order and never reused. */
  datatype Handles = Handles(names: seq<string>)

  /** `varHandles.get(handle)`. */
  function Get(h: Handles, handle: int): (r: Option<string>)
    ensures r.Some? <==> VarHandlesStart <= handle < VarHandlesStart + |h.names|
  {
    if VarHandlesStart <= handle < VarHandlesStart + |h.names| then Some(h.names[handle - VarHandlesStart])
    else None
  }

  /** `varHandles.create(name)`: a fresh handle, at or above the start, that
      leads back to `name`; every earlier handle keeps its name. */
  function Create(h: Handles, name: string): (r: (Handles, nat))
    ensures r.1 >= VarHandlesStart
    ensures Get(h, r.1).None? && Get(r.0, r.1) == Some(name)
    ensures forall k :: Get(h, k).Some? ==> Get(r.0, k) == Get(h, k)
  {
    (Handles(h.names + [name]), VarHandlesStart + |h.names|)
  }

  /** Handles only grow: the later table extends the earlier one. */
  predicate Extends(later: Handles, earlier: Handles) {
    |earlier.names| <= |later.names| && later.names[..|earlier.names|] == earlier.names
  }

  /** Every handle of an earlier table keeps its name in any later one. */
  lemma ExtendsKeeps(later: Handles, earlier: Handles, handle: int)
    requires Extends(later, earlier)
    requires Get(earlier, handle).Some?
    ensures Get(later, handle) == Get(earlier, handle)
  {
    assert later.names[handle - VarHandlesStart] == earlier.names[handle - VarHandlesStart];
  }
}
