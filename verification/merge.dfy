/** The `localsByName` map of a variables request. It is a JavaScript `Map`:
    setting a name already present replaces its value but keeps the place
    of its first insertion, and `values()` iterates in insertion order. The
    map is modelled as the sequence of its values; `MergeAll` is the loop's
    fold, and `Merged` describes the result directly. */
module Merge {
  import opened Base
  import opened Session

  function Names(vs: seq<Variable>): (ns: seq<string>)
    ensures |ns| == |vs| && forall k :: 0 <= k < |vs| ==> ns[k] == vs[k].name
  {
    seq(|vs|, k requires 0 <= k < |vs| => vs[k].name)
  }

  predicate DistinctStrings(ns: seq<string>) {
    forall i, j :: 0 <= i < j < |ns| ==> ns[i] != ns[j]
  }

  /** The names of all but the last variable. */
  lemma NamesInit(vs: seq<Variable>)
    requires |vs| > 0
    ensures Names(vs[..|vs| - 1]) == Names(vs)[..|vs| - 1]
    ensures Names(vs) == Names(vs[..|vs| - 1]) + [vs[|vs| - 1].name]
  {
  }

  /** `map.set(v.name, v)`. */
  function Put(m: seq<Variable>, v: Variable): (r: seq<Variable>)
    ensures v in r
    ensures v.name in Names(m) ==> |r| == |m|
    ensures v.name !in Names(m) ==> r == m + [v]
    decreases |m|
  {
    if |m| == 0 then [v]
    else if m[0].name == v.name then [v] + m[1..]
    else
      var rest := Put(m[1..], v);
      assert Names(m) == [m[0].name] + Names(m[1..]);
      [m[0]] + rest
  }

  /** Without its first entry a map still has distinct names, and the first
      name is not a later one. */
  lemma DistinctTail(m: seq<Variable>, k: nat)
    requires DistinctStrings(Names(m)) && 0 < k < |m|
    ensures m[0].name != m[k].name
    ensures DistinctStrings(Names(m[1..]))
  {
    assert Names(m)[0] != Names(m)[k];
    assert forall i :: 0 <= i < |m| - 1 ==> Names(m[1..])[i] == Names(m)[i + 1];
  }

  /** Setting a name the map holds replaces that entry where it stands. */
  lemma {:induction false} PutAt(m: seq<Variable>, v: Variable, k: nat)
    requires DistinctStrings(Names(m)) && k < |m| && m[k].name == v.name
    ensures Put(m, v) == m[k := v]
    decreases |m|
  {
    if k > 0 {
      DistinctTail(m, k);
      assert Put(m, v) == [m[0]] + Put(m[1..], v);
      PutAt(m[1..], v, k - 1);
      UpdateTail(m, v, k);
    } else {
      assert Put(m, v) == [v] + m[1..];
      UpdateHead(m, v);
    }
  }

  /** The map after each variable of `vs` is set in turn. */
  function MergeAll(vs: seq<Variable>): seq<Variable>
    decreases |vs|
  {
    if |vs| == 0 then [] else Put(MergeAll(vs[..|vs| - 1]), vs[|vs| - 1])
  }

  // ---------------------------------------------------------------------
  // The direct description
  // ---------------------------------------------------------------------

  /** Each name once, in order of first appearance. */
  function Unique(ns: seq<string>): (u: seq<string>)
    ensures DistinctStrings(u)
    ensures forall n :: n in u <==> n in ns
    decreases |ns|
  {
    if |ns| == 0 then []
    else
      var init := ns[..|ns| - 1];
      var u := Unique(init);
      assert ns == init + [ns[|ns| - 1]];
      if ns[|ns| - 1] in u then u else u + [ns[|ns| - 1]]
  }

  /** The last variable called `n`. */
  function LastSet(vs: seq<Variable>, n: string): (r: Option<Variable>)
    ensures r.Some? <==> n in Names(vs)
    ensures r.Some? ==> r.value in vs && r.value.name == n
    decreases |vs|
  {
    if |vs| == 0 then None
    else
      NamesInit(vs);
      if vs[|vs| - 1].name == n then Some(vs[|vs| - 1]) else LastSet(vs[..|vs| - 1], n)
  }

  /** The map's values in iteration order: one variable per name, in order
      of the name's first appearance, each the last variable of that name. */
  function Merged(vs: seq<Variable>): (r: seq<Variable>)
    ensures Names(r) == Unique(Names(vs))
  {
    var u := Unique(Names(vs));
    seq(|u|, k requires 0 <= k < |u| => LastSet(vs, u[k]).value)
  }

  /** One more name extends the first appearances only when it is new. */
  lemma UniqueSnoc(ns: seq<string>, n: string)
    ensures Unique(ns + [n]) == if n in Unique(ns) then Unique(ns) else Unique(ns) + [n]
  {
    assert (ns + [n])[..|ns|] == ns;
  }

  /** One more variable is the last of its name and of no other. */
  lemma LastSetSnoc(vs: seq<Variable>, v: Variable, n: string)
    ensures LastSet(vs + [v], n) == if n == v.name then Some(v) else LastSet(vs, n)
  {
    assert (vs + [v])[..|vs|] == vs;
  }

  /** The names of `vs` followed by `v`. */
  lemma NamesSnoc(vs: seq<Variable>, v: Variable)
    ensures Names(vs + [v]) == Names(vs) + [v.name]
  {
  }

  /** Setting a name seen before replaces its entry in the description. */
  lemma MergedSnocSeen(vs: seq<Variable>, v: Variable, k: nat)
    requires k < |Unique(Names(vs))| && Unique(Names(vs))[k] == v.name
    ensures Merged(vs + [v]) == Merged(vs)[k := v]
  {
    var u := Unique(Names(vs));
    NamesSnoc(vs, v);
    UniqueSnoc(Names(vs), v.name);
    var after := Merged(vs + [v]);
    forall j | 0 <= j < |u|
      ensures after[j] == Merged(vs)[k := v][j]
    {
      LastSetSnoc(vs, v, u[j]);
    }
  }

  /** Setting a new name appends its entry to the description. */
  lemma MergedSnocNew(vs: seq<Variable>, v: Variable)
    requires v.name !in Names(vs)
    ensures Merged(vs + [v]) == Merged(vs) + [v]
  {
    var u := Unique(Names(vs));
    var u' := u + [v.name];
    assert Unique(Names(vs + [v])) == u' by {
      NamesSnoc(vs, v);
      UniqueSnoc(Names(vs), v.name);
    }
    var after := Merged(vs + [v]);
    var before := Merged(vs);
    assert |after| == |u'| && |before| == |u|;
    forall j | 0 <= j < |u'|
      ensures after[j] == (before + [v])[j]
    {
      assert after[j] == LastSet(vs + [v], u'[j]).value;
      LastSetSnoc(vs, v, u'[j]);
      if j < |u| {
        assert u'[j] == u[j] != v.name;
        assert before[j] == LastSet(vs, u[j]).value;
      }
    }
  }

  /** The fold the loop performs and the direct description agree. */
  lemma {:induction false} MergeAllIsMerged(vs: seq<Variable>)
    ensures MergeAll(vs) == Merged(vs)
    decreases |vs|
  {
    if |vs| > 0 {
      var init := vs[..|vs| - 1];
      var v := vs[|vs| - 1];
      assert vs == init + [v];
      MergeAllIsMerged(init);
      var u := Unique(Names(init));
      if v.name in u {
        var k :| 0 <= k < |u| && u[k] == v.name;
        assert Names(Merged(init))[k] == v.name;
        PutAt(Merged(init), v, k);
        MergedSnocSeen(init, v, k);
      } else {
        MergedSnocNew(init, v);
      }
    }
  }

  /** Every name set is in the map, holding the last variable set under it,
      and no two entries share a name. */
  lemma MergedHolds(vs: seq<Variable>, n: string)
    ensures DistinctStrings(Names(Merged(vs)))
    ensures n in Names(Merged(vs)) <==> n in Names(vs)
    ensures forall k :: 0 <= k < |Merged(vs)| && Merged(vs)[k].name == n ==> Merged(vs)[k] == LastSet(vs, n).value
  {
  }

  // ---------------------------------------------------------------------
  // The calls made for each variable
  // ---------------------------------------------------------------------

  /** `varDelete` before `varCreate` for a name already set, `varCreate`
      alone for a new one, in the order the variables are set. */
  function Calls(vs: seq<Variable>): (cs: seq<Command>)
    ensures |cs| >= |vs|
    decreases |vs|
  {
    if |vs| == 0 then []
    else
      var init := vs[..|vs| - 1];
      var n := vs[|vs| - 1].name;
      Calls(init) + (if n in Names(init) then [VarDelete(n)] else []) + [VarCreate(n)]
  }

  /** A name set only once is created once and never deleted. */
  lemma {:induction false} CallsOnce(vs: seq<Variable>, n: string)
    requires DistinctStrings(Names(vs))
    ensures VarDelete(n) !in Calls(vs)
    ensures |Calls(vs)| == |vs|
    decreases |vs|
  {
    if |vs| > 0 {
      var init := vs[..|vs| - 1];
      NamesInit(vs);
      assert DistinctStrings(Names(init));
      CallsOnce(init, n);
      assert vs[|vs| - 1].name !in Names(init) by {
        assert forall i :: 0 <= i < |vs| - 1 ==> Names(vs)[i] != Names(vs)[|vs| - 1];
      }
    }
  }
}
