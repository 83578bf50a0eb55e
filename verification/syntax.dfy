/** The parsed form of GDB/MI output ("GDB/MI Output Syntax" in the GDB
    manual): a recursive value tree, the three record kinds the parser
    recognises, and the `Output` unit that groups records up to one result
    record. */
module Syntax {
  import opened Base

  /** A value is a quoted string kept exactly as lexed (quotes included), a
      tuple of named results, or a list. */
  datatype Value =
    | Str(raw: string)
    | Tuple(fields: seq<Result>)
    | List(elements: Elements)

  /** A list holds either bare values or named results, never a mix. */
  datatype Elements = Values(values: seq<Value>) | Results(results: seq<Result>)

  /** `variable=value`. */
  datatype Result = Result(variable: string, value: Value)

  datatype StreamType = Console | Target | Log

  datatype StreamRecord = StreamRecord(streamType: StreamType, output: string)

  /** An exec-async record; its class is always `stopped`, the only one the
      parser keeps. */
  datatype AsyncOutput = AsyncOutput(results: seq<Result>)

  /** The result class is the identifier as written: it is not checked
      against the five classes of the protocol. */
  datatype ResultRecord = ResultRecord(resultClass: string, token: string, results: seq<Result>)

  const Done: string := "done"
  const Error: string := "error"

  datatype Record =
    | ResultRec(result: ResultRecord)
    | StreamRec(stream: StreamRecord)
    | AsyncRec(async: AsyncOutput)

  /** One parse unit: the stream and async records gathered with (at most)
      one result record. */
  datatype Output = Output(asyncOutputs: seq<AsyncOutput>, streamRecords: seq<StreamRecord>, result: Option<ResultRecord>)

  const EmptyOutput := Output([], [], None)

  /** `Output.isNotEmpty`. */
  predicate IsNotEmpty(o: Output) {
    o.result.Some? || |o.streamRecords| > 0 || |o.asyncOutputs| > 0
  }

  // ---------------------------------------------------------------------
  // Tuple field lookup
  // ---------------------------------------------------------------------

  /** The field object a tuple is built from: the results folded left to
      right into a map, so a later result overwrites an earlier one of the
      same name. */
  function FieldMap(fields: seq<Result>): map<string, Value>
    decreases |fields|
  {
    if |fields| == 0 then map[]
    else FieldMap(fields[..|fields| - 1])[fields[|fields| - 1].variable := fields[|fields| - 1].value]
  }

  /** `fields[name]`: the value of the last result called `name`, if any. */
  function Field(fields: seq<Result>, name: string): (v: Option<Value>)
    ensures LastNamed(fields, name, v)
    decreases |fields|
  {
    if |fields| == 0 then None
    else if fields[|fields| - 1].variable == name then
      var v := Some(fields[|fields| - 1].value);
      assert fields[|fields| - 1] == Result(name, v.value);
      v
    else
      var v := Field(fields[..|fields| - 1], name);
      LastNamedSnoc(fields, name, v);
      v
  }

  /** `v` is what the last result called `name` holds, or `None` when no
      result has that name. */
  predicate LastNamed(fields: seq<Result>, name: string, v: Option<Value>) {
    && (v.None? <==> forall k :: 0 <= k < |fields| ==> fields[k].variable != name)
    && (v.Some? ==> exists k :: 0 <= k < |fields| && fields[k] == Result(name, v.value)
                       && forall m :: k < m < |fields| ==> fields[m].variable != name)
  }

  /** A last result of another name does not change the lookup. */
  lemma LastNamedSnoc(fields: seq<Result>, name: string, v: Option<Value>)
    requires |fields| > 0 && fields[|fields| - 1].variable != name
    requires LastNamed(fields[..|fields| - 1], name, v)
    ensures LastNamed(fields, name, v)
  {
    var init := fields[..|fields| - 1];
    assert forall k :: 0 <= k < |init| ==> init[k] == fields[k];
    if v.Some? {
      var k :| 0 <= k < |init| && init[k] == Result(name, v.value)
                 && forall m :: k < m < |init| ==> init[m].variable != name;
      assert fields[k] == Result(name, v.value);
    }
  }

  /** Looking a name up in the folded field object agrees with `Field`. */
  lemma {:induction false} FieldMapAgrees(fields: seq<Result>, name: string)
    ensures name in FieldMap(fields) <==> Field(fields, name).Some?
    ensures name in FieldMap(fields) ==> FieldMap(fields)[name] == Field(fields, name).value
    decreases |fields|
  {
    if |fields| > 0 {
      FieldMapAgrees(fields[..|fields| - 1], name);
    }
  }

  /** Appending a result makes it the one every later lookup of its name sees,
      and leaves lookups of other names unchanged. */
  lemma FieldLastWins(fields: seq<Result>, r: Result, name: string)
    ensures Field(fields + [r], r.variable) == Some(r.value)
    ensures name != r.variable ==> Field(fields + [r], name) == Field(fields, name)
  {
    assert (fields + [r])[..|fields|] == fields;
  }

  /** No two results share a name. */
  predicate DistinctNames(fields: seq<Result>) {
    forall i, j :: 0 <= i < j < |fields| ==> fields[i].variable != fields[j].variable
  }

  /** Among results with distinct names, the lookup finds the one result
      of that name. */
  lemma FieldOfDistinct(fields: seq<Result>, k: nat)
    requires DistinctNames(fields) && k < |fields|
    ensures Field(fields, fields[k].variable) == Some(fields[k].value)
  {
    var v := Field(fields, fields[k].variable);
    var j :| 0 <= j < |fields| && fields[j] == Result(fields[k].variable, v.value)
               && forall m :: j < m < |fields| ==> fields[m].variable != fields[k].variable;
    assert j == k;
  }
}
