/**
 * Trigger calls (`CallTrigger`): the ten arguments handed to the trigger
 * wrapper are assembled from the event, and the tuple handed back to the
 * host is chosen from the event and the script's return value.
 */
module Trigger {
  import opened Base
  import opened Convert
  import opened ErrorBridge
  import Wrapper
  import SetReturning

  datatype TriggerOp = Insert | Delete | Update | Truncate

  datatype Timing = Before | After | InsteadOf

  /** A decoded trigger event: operation, row or statement level, timing. */
  datatype TriggerEvent = TriggerEvent(op: TriggerOp, forRow: bool, timing: Timing)

  datatype Relation = Relation(relid: nat, name: string, schema: string, colnames: seq<string>)

  /** What the host passes to a trigger function. */
  datatype TriggerData = TriggerData(
    event: TriggerEvent,
    relation: Relation,
    trigTuple: Row,
    newTuple: Row,
    tgName: string,
    tgArgs: seq<string>)

  /**
   * What the host guarantees: both tuples fit the relation, relation
   * identifiers are 32-bit, and TRUNCATE never fires a row-level trigger.
   */
  predicate WellFormed(td: TriggerData) {
    && |td.trigTuple| == |td.relation.colnames|
    && |td.newTuple| == |td.relation.colnames|
    && td.relation.relid < 0x1_0000_0000
    && (td.event.forRow ==> !td.event.op.Truncate?)
  }

  /** The tuple handed back to the host. */
  datatype TriggerResult =
    | NoTuple
    | TrigTuple
    | NewTuple
    | Formed(row: Row)

  function RowConverter(rel: Relation): Converter {
    Converter(rel.colnames, false)
  }

  function OpName(op: TriggerOp): string {
    match op
    case Insert => "INSERT"
    case Delete => "DELETE"
    case Update => "UPDATE"
    case Truncate => "TRUNCATE"
  }

  /** The NEW and OLD arguments. */
  function RowArgs(td: TriggerData): (r: (Value, Value))
    requires WellFormed(td)
  {
    var conv := RowConverter(td.relation);
    if !td.event.forRow then (Undefined, Undefined)
    else match td.event.op
      case Insert => (RowToObject(conv, td.trigTuple), Undefined)
      case Delete => (Undefined, RowToObject(conv, td.trigTuple))
      case Update => (RowToObject(conv, td.newTuple), RowToObject(conv, td.trigTuple))
      case Truncate => (Undefined, Undefined)
  }

  /** The ten trigger arguments, in the order of the wrapper's trigger parameters. */
  function TriggerArgs(td: TriggerData): (args: seq<Value>)
    requires WellFormed(td)
    ensures |args| == |Wrapper.TriggerParamNames|
  {
    var rows := RowArgs(td);
    [ rows.0,
      rows.1,
      Str(td.tgName),
      Str(if td.event.timing.Before? then "BEFORE" else "AFTER"),
      Str(if td.event.forRow then "ROW" else "STATEMENT"),
      Str(OpName(td.event.op)),
      Num(td.relation.relid),
      Str(td.relation.name),
      Str(td.relation.schema),
      Arr(seq(|td.tgArgs|, i requires 0 <= i < |td.tgArgs| => Str(td.tgArgs[i])))
    ]
  }

  /** The tuple returned when the script's value does not replace it. */
  function Unreplaced(e: TriggerEvent): TriggerResult {
    if !e.forRow then NoTuple
    else match e.op
      case Update => NewTuple
      case Insert => TrigTuple
      case Delete => TrigTuple
      case Truncate => NoTuple
  }

  /** The value-to-result step of `CallTrigger`, given how the script ended. */
  function CallTrigger(td: TriggerData, ending: SetReturning.Ending): (r: Result<TriggerResult>)
    requires WellFormed(td)
    ensures ending.Throws? ==> r == Fail(ScriptError(CaptureException(ending.ex)))
    ensures ending.Returns? && (!td.event.op.Update? || ending.v.IsNullish()) ==> r == Ok(Unreplaced(td.event))
    ensures r.Ok? && r.value.Formed? ==> td.event.op.Update? && ending.Returns? && ending.v.IsObject()
    ensures ending.Returns? && td.event.op.Update? && !ending.v.IsNullish() ==>
      r == (match ObjectToRow(RowConverter(td.relation), ending.v)
            case Ok(row) => Ok(Formed(row))
            case Fail(f) => Fail(f))
  {
    match ending
    case Throws(ex) => Fail(ScriptError(CaptureException(ex)))
    case Returns(v) =>
      if td.event.op.Update? && !v.IsNullish() then
        var row :- ObjectToRow(RowConverter(td.relation), v);
        Ok(Formed(row))
      else Ok(Unreplaced(td.event))
  }

  /** The argument bound to a trigger parameter name. */
  function Bound(td: TriggerData, name: string): Value
    requires WellFormed(td)
  {
    var args := TriggerArgs(td);
    if exists k :: 0 <= k < |args| && Wrapper.TriggerParamNames[k] == name
    then var k :| 0 <= k < |args| && Wrapper.TriggerParamNames[k] == name; args[k]
    else Undefined
  }

  lemma TriggerParamNamesDistinct()
    ensures NoDup(Wrapper.TriggerParamNames)
  {
  }

  /**
   * NEW and OLD as the trigger body sees them: INSERT gives NEW = the row
   * and OLD undefined, DELETE the reverse, UPDATE both; a statement-level
   * trigger sees neither. TG_WHEN, TG_LEVEL and TG_OP follow the event;
   * TG_RELID, TG_TABLE_NAME, TG_TABLE_SCHEMA and TG_ARGV the relation and
   * the trigger's own arguments.
   */
  lemma TriggerBindings(td: TriggerData)
    requires WellFormed(td)
    ensures var conv := RowConverter(td.relation);
      && (!td.event.forRow ==> Bound(td, "NEW") == Undefined && Bound(td, "OLD") == Undefined)
      && (td.event.forRow && td.event.op.Insert? ==>
            Bound(td, "NEW") == RowToObject(conv, td.trigTuple) && Bound(td, "OLD") == Undefined)
      && (td.event.forRow && td.event.op.Delete? ==>
            Bound(td, "NEW") == Undefined && Bound(td, "OLD") == RowToObject(conv, td.trigTuple))
      && (td.event.forRow && td.event.op.Update? ==>
            Bound(td, "NEW") == RowToObject(conv, td.newTuple) && Bound(td, "OLD") == RowToObject(conv, td.trigTuple))
      && Bound(td, "TG_WHEN") == Str(if td.event.timing.Before? then "BEFORE" else "AFTER")
      && Bound(td, "TG_LEVEL") == Str(if td.event.forRow then "ROW" else "STATEMENT")
      && Bound(td, "TG_OP") == Str(OpName(td.event.op))
      && Bound(td, "TG_NAME") == Str(td.tgName)
      && Bound(td, "TG_RELID") == Num(td.relation.relid)
      && Bound(td, "TG_TABLE_NAME") == Str(td.relation.name)
      && Bound(td, "TG_TABLE_SCHEMA") == Str(td.relation.schema)
      && Bound(td, "TG_ARGV").Arr?
      && |Bound(td, "TG_ARGV").elems| == |td.tgArgs|
      && (forall i :: 0 <= i < |td.tgArgs| ==> Bound(td, "TG_ARGV").elems[i] == Str(td.tgArgs[i]))
  {
    var names := Wrapper.TriggerParamNames;
    var args := TriggerArgs(td);
    assert names[0] == "NEW" && names[1] == "OLD" && names[2] == "TG_NAME";
    assert names[3] == "TG_WHEN" && names[4] == "TG_LEVEL" && names[5] == "TG_OP";
    assert names[6] == "TG_RELID" && names[7] == "TG_TABLE_NAME";
    assert names[8] == "TG_TABLE_SCHEMA" && names[9] == "TG_ARGV";
    BoundAt(td, 0);
    BoundAt(td, 1);
    BoundAt(td, 2);
    BoundAt(td, 3);
    BoundAt(td, 4);
    BoundAt(td, 5);
    BoundAt(td, 6);
    BoundAt(td, 7);
    BoundAt(td, 8);
    BoundAt(td, 9);
  }

  /** Parameter names are distinct, so each name is bound to the argument at its own position. */
  lemma BoundAt(td: TriggerData, k: nat)
    requires WellFormed(td)
    requires k < |Wrapper.TriggerParamNames|
    ensures Bound(td, Wrapper.TriggerParamNames[k]) == TriggerArgs(td)[k]
  {
    TriggerParamNamesDistinct();
  }

  /**
   * An UPDATE row trigger that returns NEW unchanged stores the new row as
   * it was; one that returns OLD stores the old row.
   */
  lemma UpdateReturningArgumentRow(td: TriggerData)
    requires WellFormed(td)
    requires td.event.forRow && td.event.op.Update?
    requires NoDup(td.relation.colnames)
    ensures CallTrigger(td, SetReturning.Returns(TriggerArgs(td)[0])) == Ok(Formed(td.newTuple))
    ensures CallTrigger(td, SetReturning.Returns(TriggerArgs(td)[1])) == Ok(Formed(td.trigTuple))
  {
    var args := TriggerArgs(td);
    assert args[0] == RowToObject(RowConverter(td.relation), td.newTuple);
    assert args[1] == RowToObject(RowConverter(td.relation), td.trigTuple);
    ReturnedRowIsStored(td, td.newTuple);
    ReturnedRowIsStored(td, td.trigTuple);
  }

  /** An UPDATE trigger returning a row converted to an object stores that row. */
  lemma ReturnedRowIsStored(td: TriggerData, tuple: Row)
    requires WellFormed(td)
    requires td.event.op.Update?
    requires NoDup(td.relation.colnames)
    requires |tuple| == |td.relation.colnames|
    ensures CallTrigger(td, SetReturning.Returns(RowToObject(RowConverter(td.relation), tuple))) == Ok(Formed(tuple))
  {
    var conv := RowConverter(td.relation);
    var o := RowToObject(conv, tuple);
    RowObjectRoundTrip(conv, tuple);
    assert !o.IsNullish();
  }

  /**
   * The replacement test looks only at the operation, not the level: a
   * statement-level UPDATE trigger returning an object still has it
   * converted, and returning a non-object value makes the call fail.
   */
  lemma StatementUpdateConvertsReturn(td: TriggerData, v: Value)
    requires WellFormed(td)
    requires !td.event.forRow && td.event.op.Update?
    requires !v.IsNullish()
    ensures v.IsObject() ==> CallTrigger(td, SetReturning.Returns(v)).Ok? && CallTrigger(td, SetReturning.Returns(v)).value.Formed?
    ensures !v.IsObject() ==> CallTrigger(td, SetReturning.Returns(v)) == ScriptFail(ObjectRequired)
  {
  }
}
