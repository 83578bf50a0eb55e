/** The top-level branch of `variablesRequest`: the locals of the current
    frame, followed by its arguments, each shown as a variable and set into
    the `localsByName` map. The replies of `-stack-list-locals` and of the
    argument lookup are inputs; `varDelete` and `varCreate` are recorded as
    commands, their replies are not read. */
module Locals {
  import opened Base
  import opened Text
  import opened Syntax
  import opened Session
  import opened Literal
  import opened Merge
  import Mapping

  /** The value the debugger gives an aggregate, quotes included. */
  const Elided: string := "\"{...}\""

  /** How one entry is shown, up to the `varDelete`/`varCreate` calls. The
      entry must be a tuple with string `name` and `type`; a pointer needs a
      string `value`; a non-pointer with a `value` other than `{...}` needs it
      to be a string. A handle is created for a non-null pointer that is not
      `char *`, and for a non-pointer without a shown value. */
  function ShowLocal(h: Handles, entry: Value): (r: (Handles, Outcome<Variable>))
    ensures r.1.Throws? ==> r.0 == h
    ensures r.1.Returns? ==> entry.Tuple? && FromContent(Field(entry.fields, "name")) == Returns(r.1.value.name)
    ensures r.1.Returns? ==> (r.1.value.ref == 0 <==> r.0 == h)
    ensures r.1.Returns? && r.1.value.ref != 0 ==> (r.0, r.1.value.ref) == Create(h, r.1.value.name)
    ensures r.1.Returns? ==> Resolves(r.0, r.1.value)
  {
    if !entry.Tuple? then (h, Throws)
    else
      var fields := entry.fields;
      match FromContent(Field(fields, "name"))
      case Throws => (h, Throws)
      case Returns(name) =>
        match FromContent(Field(fields, "type"))
        case Throws => (h, Throws)
        case Returns(ty) =>
          var (h', ref) := Create(h, name);
          if IsPointerType(ty) then
            match FromContent(Field(fields, "value"))
            case Throws => (h, Throws)
            case Returns(ptr) =>
              if IsZero(ptr) then (h, Returns(Variable(name, "null", 0)))
              else if IsStringType(ty) then (h, Returns(Variable(name, ParseMiStringLiteral(ptr), 0)))
              else (h', Returns(Variable(name, ptr, ref)))
          else
            match Field(fields, "value")
            case Some(v) =>
              if v != Str(Elided) then
                match FromContent(Some(v))
                case Throws => (h, Throws)
                case Returns(text) => (h, Returns(Variable(name, text, 0)))
              else (h', Returns(Variable(name, "", ref)))
            case None => (h', Returns(Variable(name, "", ref)))
  }

  /** The loop as written: each entry shown, then `varDelete` when the map
      already holds its name, `varCreate`, and the set into the map `m`. A
      TypeError ends the loop and the request. */
  function ShowAll(h: Handles, m: seq<Variable>, cmds: seq<Command>, entries: seq<Value>): (r: Shown)
    ensures Extends(r.handles, h)
    ensures r.variables.Returns? && (forall k :: 0 <= k < |m| ==> Resolves(h, m[k])) ==>
              forall k :: 0 <= k < |r.variables.value| ==> Resolves(r.handles, r.variables.value[k])
    decreases |entries|
  {
    if |entries| == 0 then Shown(h, cmds, Returns(m))
    else
      var (h', out) := ShowLocal(h, entries[0]);
      match out
      case Throws => Shown(h', cmds, Throws)
      case Returns(v) =>
        var m' := Put(m, v);
        var r := ShowAll(h', m', cmds + (if v.name in Names(m) then [VarDelete(v.name)] else []) + [VarCreate(v.name)], entries[1..]);
        PutResolves(h, h', m, v);
        r
  }

  /** Setting a variable whose handle resolves keeps every entry resolving,
      once the table has grown. */
  lemma PutResolves(h: Handles, h': Handles, m: seq<Variable>, v: Variable)
    requires Extends(h', h) && Resolves(h', v)
    ensures (forall k :: 0 <= k < |m| ==> Resolves(h, m[k])) ==>
              forall k :: 0 <= k < |Put(m, v)| ==> Resolves(h', Put(m, v)[k])
  {
    var m' := Put(m, v);
    if forall k :: 0 <= k < |m| ==> Resolves(h, m[k]) {
      forall k | 0 <= k < |m'|
        ensures Resolves(h', m'[k])
      {
        PutFrom(m, v, k);
        if m'[k] != v && m'[k].ref != 0 {
          var j :| 0 <= j < |m| && m[j] == m'[k];
          ExtendsKeeps(h', h, m[j].ref);
        }
      }
    }
  }

  /** Every entry of the map after a set is the variable set or an entry
      from before. */
  lemma {:induction false} PutFrom(m: seq<Variable>, v: Variable, k: nat)
    requires k < |Put(m, v)|
    ensures Put(m, v)[k] == v || Put(m, v)[k] in m
    decreases |m|
  {
    if |m| > 0 && m[0].name != v.name && k > 0 {
      var rest := Put(m[1..], v);
      assert Put(m, v) == [m[0]] + rest;
      PutFrom(m[1..], v, k - 1);
      assert Put(m, v)[k] == rest[k - 1];
      assert rest[k - 1] in m[1..] ==> rest[k - 1] in m;
    }
  }

  /** The entries shown one after another up to the first TypeError: the
      table afterwards, the variables shown, and whether every entry was
      shown. */
  function Each(h: Handles, entries: seq<Value>): (r: (Handles, seq<Variable>, bool))
    ensures |r.1| <= |entries|
    ensures r.2 ==> |r.1| == |entries|
    decreases |entries|
  {
    if |entries| == 0 then (h, [], true)
    else
      var (h', out) := ShowLocal(h, entries[0]);
      match out
      case Throws => (h', [], false)
      case Returns(v) =>
        var rest := Each(h', entries[1..]);
        (rest.0, [v] + rest.1, rest.2)
  }

  /** The map the loop builds after `prefix` has been set holds the names of
      `prefix`. */
  lemma MergeAllNames(prefix: seq<Variable>, n: string)
    ensures n in Names(MergeAll(prefix)) <==> n in Names(prefix)
  {
    MergeAllIsMerged(prefix);
  }

  /** One round of the loop, for an entry that is shown. */
  lemma ShowAllStep(h: Handles, m: seq<Variable>, cmds: seq<Command>, entries: seq<Value>)
    requires |entries| > 0 && ShowLocal(h, entries[0]).1.Returns?
    ensures var (h', out) := ShowLocal(h, entries[0]);
      && ShowAll(h, m, cmds, entries)
           == ShowAll(h', Put(m, out.value),
                      cmds + (if out.value.name in Names(m) then [VarDelete(out.value.name)] else []) + [VarCreate(out.value.name)],
                      entries[1..])
      && Each(h, entries) == (Each(h', entries[1..]).0, [out.value] + Each(h', entries[1..]).1, Each(h', entries[1..]).2)
  {
  }

  /** The map and the calls after one more variable. */
  lemma MergeAllSnoc(prefix: seq<Variable>, v: Variable)
    ensures MergeAll(prefix + [v]) == Put(MergeAll(prefix), v)
    ensures Calls(prefix + [v])
              == Calls(prefix) + (if v.name in Names(MergeAll(prefix)) then [VarDelete(v.name)] else []) + [VarCreate(v.name)]
  {
    assert (prefix + [v])[..|prefix|] == prefix;
    MergeAllNames(prefix, v.name);
  }

  /** The loop is the entries shown one by one, followed by the map of the
      variables shown and the calls made for them. */
  lemma {:induction false} ShowAllIsMerge(h: Handles, prefix: seq<Variable>, entries: seq<Value>)
    ensures var e := Each(h, entries);
      ShowAll(h, MergeAll(prefix), Calls(prefix), entries)
        == Shown(e.0, Calls(prefix + e.1), if e.2 then Returns(MergeAll(prefix + e.1)) else Throws)
    decreases |entries|
  {
    if |entries| == 0 || ShowLocal(h, entries[0]).1.Throws? {
      assert prefix + [] == prefix;
    } else {
      var (h', out) := ShowLocal(h, entries[0]);
      var v := out.value;
      ShowAllStep(h, MergeAll(prefix), Calls(prefix), entries);
      MergeAllSnoc(prefix, v);
      ShowAllIsMerge(h', prefix + [v], entries[1..]);
      var rest := Each(h', entries[1..]).1;
      Assoc(prefix, [v], rest);
    }
  }

  /** The top-level branch of `variablesRequest`. When the locals reply is
      not `^done` the response is empty; otherwise its first result must be
      a list, of values (the arguments follow them) or an empty list of
      results (only the arguments are shown). */
  function ShowLocals(h: Handles, locals: Output, args: seq<Value>): (r: Shown)
    ensures !IsDone(locals) ==> r == Shown(h, [], Returns([]))
    ensures Extends(r.handles, h)
    ensures r.variables.Returns? ==> forall k :: 0 <= k < |r.variables.value| ==> Resolves(r.handles, r.variables.value[k])
  {
    if !IsDone(locals) then Shown(h, [], Returns([]))
    else
      var results := locals.result.value.results;
      if |results| == 0 then Shown(h, [], Throws)
      else
        match results[0].value
        case List(Values(vs)) => ShowAll(h, [], [], vs + args)
        case List(Results(rs)) => if |rs| == 0 then ShowAll(h, [], [], args) else Shown(h, [], Throws)
        case _ => Shown(h, [], Throws)
  }

  /** The response lists one variable per name in order of first
      appearance, each the last one shown under that name, and `varDelete`
      precedes `varCreate` exactly for a name shown before. */
  lemma ShowLocalsMerged(h: Handles, locals: Output, args: seq<Value>, vs: seq<Value>)
    requires IsDone(locals) && |locals.result.value.results| > 0
    requires locals.result.value.results[0].value == List(Values(vs))
    ensures var e := Each(h, vs + args);
      ShowLocals(h, locals, args) == Shown(e.0, Calls(e.1), if e.2 then Returns(Merged(e.1)) else Throws)
  {
    var e := Each(h, vs + args);
    ShowAllIsMerge(h, [], vs + args);
    assert [] + e.1 == e.1;
    MergeAllIsMerged(e.1);
  }

  // ---------------------------------------------------------------------
  // How the debugger's locals are shown
  // ---------------------------------------------------------------------

  /** The entry the debugger sends for a local. */
  function LocalEntry(l: Mapping.Local): Value {
    Tuple(Mapping.LocalFields(l))
  }

  /** The fields of a local's entry read back as written. */
  lemma LocalEntryFields(l: Mapping.Local)
    ensures Field(LocalEntry(l).fields, "name") == Some(Str(Quote(l.name)))
    ensures Field(LocalEntry(l).fields, "type") == Some(Str(Quote(l.ty)))
    ensures l.value.Some? ==> Field(LocalEntry(l).fields, "value") == Some(Str(Quote(l.value.value)))
    ensures l.value.None? ==> Field(LocalEntry(l).fields, "value") == None
  {
    var fs := Mapping.LocalFields(l);
    assert DistinctNames(fs);
    FieldOfDistinct(fs, 0);
    FieldOfDistinct(fs, 1);
    if l.value.Some? {
      FieldOfDistinct(fs, 2);
    }
    FromContentQuote(l.name);
    FromContentQuote(l.ty);
  }

  /** A scalar is shown with its value and cannot be expanded. */
  lemma ShowScalar(h: Handles, l: Mapping.Local)
    requires !IsPointerType(l.ty) && l.value.Some? && l.value.value != "{...}"
    ensures ShowLocal(h, LocalEntry(l)) == (h, Returns(Variable(l.name, l.value.value, 0)))
  {
    var fields := LocalEntry(l).fields;
    LocalEntryFields(l);
    FromContentQuote(l.name);
    FromContentQuote(l.ty);
    FromContentQuote(l.value.value);
    assert FromContent(Field(fields, "name")) == Returns(l.name);
    assert FromContent(Field(fields, "type")) == Returns(l.ty);
    assert Field(fields, "value") == Some(Str(Quote(l.value.value)));
    assert Quote(l.value.value) != Elided by {
      FromStrQuote(l.value.value);
      FromStrQuote("{...}");
    }
  }

  /** An aggregate, or a local without a value, is shown empty with a fresh
      handle that leads back to its name. */
  lemma ShowAggregate(h: Handles, l: Mapping.Local)
    requires !IsPointerType(l.ty) && (l.value.None? || l.value == Some("{...}"))
    ensures var (h', ref) := Create(h, l.name);
      ShowLocal(h, LocalEntry(l)) == (h', Returns(Variable(l.name, "", ref)))
  {
    LocalEntryFields(l);
    FromContentQuote(l.name);
    FromContentQuote(l.ty);
    assert Quote("{...}") == Elided;
  }

  /** A null pointer is shown as `null`, whatever it points to. */
  lemma ShowNullPointer(h: Handles, l: Mapping.Local)
    requires IsPointerType(l.ty) && l.value.Some? && IsZero(l.value.value)
    ensures ShowLocal(h, LocalEntry(l)) == (h, Returns(Variable(l.name, "null", 0)))
  {
    LocalEntryFields(l);
    FromContentQuote(l.name);
    FromContentQuote(l.ty);
    FromContentQuote(l.value.value);
  }

  /** Any other pointer shows its address and can be expanded. */
  lemma ShowPointer(h: Handles, l: Mapping.Local)
    requires IsPointerType(l.ty) && !IsStringType(l.ty) && l.value.Some? && !IsZero(l.value.value)
    ensures var (h', ref) := Create(h, l.name);
      ShowLocal(h, LocalEntry(l)) == (h', Returns(Variable(l.name, l.value.value, ref)))
  {
    LocalEntryFields(l);
    FromContentQuote(l.name);
    FromContentQuote(l.ty);
    FromContentQuote(l.value.value);
  }

  /** The text of a `char *` after its address is never a number. */
  lemma LiteralNotZero(digits: string, text: string)
    ensures !IsZero("0x" + digits + " \\\"" + text + "\\\"")
  {
    var s := "0x" + digits + " \\\"" + text + "\\\"";
    assert s[2 + |digits|] == ' ' && !IsHexDigit(s[2 + |digits|]);
    assert s[2..][|digits|] == ' ';
    assert !IsDigit(s[1]);
  }

  /** A `char *` is shown as its text, in quotes, and cannot be expanded. */
  lemma ShowStringLocal(h: Handles, name: string, digits: string, text: string)
    requires |digits| > 0 && AllHexDigits(digits)
    requires forall k :: 0 <= k < |text| ==> !IsLineTerminator(text[k])
    ensures ShowLocal(h, LocalEntry(Mapping.Local(name, "char *", Some("0x" + digits + " \\\"" + text + "\\\""))))
            == (h, Returns(Variable(name, Quote(text), 0)))
  {
    var ptr := "0x" + digits + " \\\"" + text + "\\\"";
    var l := Mapping.Local(name, "char *", Some(ptr));
    var fields := LocalEntry(l).fields;
    LocalEntryFields(l);
    FromContentQuote(name);
    FromContentQuote("char *");
    FromContentQuote(ptr);
    assert FromContent(Field(fields, "name")) == Returns(name);
    assert FromContent(Field(fields, "type")) == Returns("char *");
    assert FromContent(Field(fields, "value")) == Returns(ptr);
    LiteralNotZero(digits, text);
    LiteralRoundTrip(digits, text);
    assert IsPointerType("char *") && IsStringType("char *");
  }

}
