/**
 * Set-returning calls (`CallSRFunction`). The `plv8` object of each global
 * context carries two ambient fields, the current converter and the
 * current tuple store, which
 * `plv8.return_next` uses to emit rows. A call saves them, points them at
 * its own converter and store, runs the script, restores them, and then
 * appends its return value: nothing for `undefined`, each element for an
 * array, the value itself otherwise.
 *
 * A script run is given as the sequence of things it does that matter
 * here: `return_next` calls and nested set-returning calls reached through
 * a query. A failure of either reaches the script as an exception, which
 * the script catches or lets escape; an escaping exception ends the call
 * the way any script throw does, as a script error captured by `DoCall`.
 * `restoreOnThrow` selects whether the ambient fields are also restored
 * when the script throws (false is the code as written).
 *
 * Every nested call is taken to run in its caller's context (the same
 * role), so a single pair of fields serves the whole call tree.
 */
module SetReturning {
  import opened Base
  import opened Convert
  import opened ErrorBridge

  /** The two ambient fields of the `plv8` object. */
  datatype Slots = Slots(conv: Option<Converter>, store: Option<nat>)

  const EmptySlots: Slots := Slots(None, None)

  /** What is saved before the call: both fields, or both empty when no converter is set. */
  function Saved(s: Slots): Slots {
    if s.conv.Some? then s else EmptySlots
  }

  /** The fields are only ever set together. */
  predicate Coherent(s: Slots) {
    s.conv.None? ==> s.store.None?
  }

  /** The host's set-returning call context (the ReturnSetInfo checks of `CreateTupleStore`). */
  datatype SetContext = SetContext(acceptsSet: bool, materializeAllowed: bool)

  /**
   * What the script does when a step fails: catch the exception, or let it
   * escape; `ex` is the exception the engine then reports for the script.
   */
  datatype Handler = Caught | Escapes(ex: ScriptException)

  datatype Step =
    | ReturnNext(v: Value, handler: Handler)
      /** A query that runs another set-returning call. */
    | Nested(call: SrfCall, handler: Handler)

  datatype Ending = Returns(v: Value) | Throws(ex: ScriptException)

  datatype SrfCall = SrfCall(ctx: SetContext, conv: Converter, steps: seq<Step>, ending: Ending)

  /** Ambient fields, every tuple store created so far, and the next store identifier. */
  datatype State = State(slots: Slots, stores: Stores, nextStore: nat)

  predicate Valid(st: State) {
    && Coherent(st.slots)
    && (forall id :: id in st.stores ==> id < st.nextStore)
    && (st.slots.store.Some? ==> st.slots.store.value in st.stores)
  }

  /** The state after a call, and the identifier of the store it filled (or why it failed). */
  datatype Outcome = Outcome(st: State, result: Result<nat>)

  /** The state after a script body, and the exception that escaped it, if any. */
  datatype StepsOutcome = StepsOutcome(st: State, escaped: Option<ScriptException>)

  const NotASetContext: string := "set-valued function called in context that cannot accept a set"
  const MaterializeNotAllowed: string := "materialize mode required, but it is not allowed in this context"
  const ReturnNextOutsideSet: string := "return_next called in context that cannot return a set"

  /** The values a return value contributes as rows. */
  function ResultValues(v: Value): seq<Value> {
    if v.Undefined? then [] else if v.Arr? then v.elems else [v]
  }

  /** Converts each value in turn; fails when any of them does. */
  function ConvertAll(conv: Converter, vals: seq<Value>): (r: Result<seq<Row>>)
    ensures r.Ok? ==> |r.value| == |vals|
    ensures r.Ok? ==> forall k :: 0 <= k < |vals| ==> ObjectToRow(conv, vals[k]) == Ok(r.value[k])
    decreases |vals|
  {
    if vals == [] then Ok([])
    else
      var first :- ObjectToRow(conv, vals[0]);
      var rest :- ConvertAll(conv, vals[1..]);
      Ok([first] + rest)
  }

  /** Converting a list fails exactly when some element fails to convert. */
  lemma {:induction false} ConvertAllFails(conv: Converter, vals: seq<Value>)
    ensures ConvertAll(conv, vals).Fail? <==> exists k :: 0 <= k < |vals| && ObjectToRow(conv, vals[k]).Fail?
    decreases |vals|
  {
    if vals != [] {
      ConvertAllFails(conv, vals[1..]);
      if ObjectToRow(conv, vals[0]).Ok? && ConvertAll(conv, vals[1..]).Fail? {
        var k :| 0 <= k < |vals[1..]| && ObjectToRow(conv, vals[1..][k]).Fail?;
        assert ObjectToRow(conv, vals[k + 1]).Fail?;
      }
      if ConvertAll(conv, vals).Ok? {
        forall k | 0 <= k < |vals|
          ensures ObjectToRow(conv, vals[k]).Ok?
        {
          if k > 0 {
            assert vals[k] == vals[1..][k - 1];
          }
        }
      }
    }
  }

  /** Appends each value as a row of store `id`, in order. */
  function AppendAll(conv: Converter, vals: seq<Value>, id: nat, stores: Stores): (r: Result<Stores>)
    requires id in stores
    ensures ConvertAll(conv, vals).Fail? ==> r == ScriptFail(ObjectRequired)
    ensures ConvertAll(conv, vals).Ok? ==> r == Ok(stores[id := stores[id] + ConvertAll(conv, vals).value])
    decreases |vals|
  {
    if vals == [] then
      assert stores[id] + [] == stores[id];
      assert stores[id := stores[id]] == stores;
      Ok(stores)
    else
      match ToDatum(conv, vals[0], ToStore(id), stores)
      case Fail(f) => Fail(f)
      case Ok(p) =>
        var r := AppendAll(conv, vals[1..], id, p.stores);
        AppendAllStep(conv, vals, id, stores);
        r
  }

  lemma AppendAllStep(conv: Converter, vals: seq<Value>, id: nat, stores: Stores)
    requires id in stores && vals != [] && ObjectToRow(conv, vals[0]).Ok?
    ensures ConvertAll(conv, vals).Ok? <==> ConvertAll(conv, vals[1..]).Ok?
    ensures ConvertAll(conv, vals).Ok? ==>
      var first := ObjectToRow(conv, vals[0]).value;
      var rest := ConvertAll(conv, vals[1..]).value;
      && ConvertAll(conv, vals).value == [first] + rest
      && stores[id := stores[id] + [first]][id := (stores[id] + [first]) + rest]
         == stores[id := stores[id] + ([first] + rest)]
  {
    if ConvertAll(conv, vals).Ok? {
      var first := ObjectToRow(conv, vals[0]).value;
      var rest := ConvertAll(conv, vals[1..]).value;
      SeqAssoc(stores[id], [first], rest);
    }
  }

  /** `plv8.return_next(v)`: one row through the ambient converter into the ambient store. */
  function ReturnNextRow(st: State, v: Value): Result<State> {
    if st.slots.conv.None? || st.slots.store.None? || st.slots.store.value !in st.stores then
      ScriptFail(ReturnNextOutsideSet)
    else
      var p :- ToDatum(st.slots.conv.value, v, ToStore(st.slots.store.value), st.stores);
      Ok(st.(stores := p.stores))
  }

  /** `CallSRFunction`. */
  function RunSrf(c: SrfCall, st: State, restoreOnThrow: bool): (r: Outcome)
    ensures st.stores.Keys <= r.st.stores.Keys
    decreases c, 1
  {
    if !c.ctx.acceptsSet then Outcome(st, HostFail(NotASetContext))
    else if !c.ctx.materializeAllowed then Outcome(st, HostFail(MaterializeNotAllowed))
    else
      var id := st.nextStore;
      var prev := Saved(st.slots);
      var entered := State(Slots(Some(c.conv), Some(id)), st.stores[id := []], id + 1);
      var body := RunSteps(c, 0, entered, restoreOnThrow);
      var escaped :=
        if body.escaped.Some? then body.escaped
        else if c.ending.Throws? then Some(c.ending.ex)
        else None;
      if escaped.Some? then
        Outcome(if restoreOnThrow then body.st.(slots := prev) else body.st,
                Fail(ScriptError(CaptureException(escaped.value))))
      else
        var restored := body.st.(slots := prev);
        match AppendAll(c.conv, ResultValues(c.ending.v), id, restored.stores)
          case Fail(f) => Outcome(restored, Fail(f))
          case Ok(stores) => Outcome(restored.(stores := stores), Ok(id))
  }

  /** The script body from step `i` on. */
  function RunSteps(c: SrfCall, i: nat, st: State, restoreOnThrow: bool): (r: StepsOutcome)
    requires i <= |c.steps|
    ensures st.stores.Keys <= r.st.stores.Keys
    decreases c, 0, |c.steps| - i
  {
    if i == |c.steps| then StepsOutcome(st, None)
    else
      assert c.steps[i] in c.steps;
      match c.steps[i]
      case ReturnNext(v, handler) =>
        var o := ReturnNextRow(st, v);
        if o.Ok? then RunSteps(c, i + 1, o.value, restoreOnThrow)
        else if handler.Escapes? then StepsOutcome(st, Some(handler.ex))
        else RunSteps(c, i + 1, st, restoreOnThrow)
      case Nested(inner, handler) =>
        var o := RunSrf(inner, st, restoreOnThrow);
        if o.result.Fail? && handler.Escapes? then StepsOutcome(o.st, Some(handler.ex))
        else RunSteps(c, i + 1, o.st, restoreOnThrow)
  }

  /**
   * The rows a script body emits through `return_next` itself, nested calls
   * aside: one for each value that converts. A value that does not convert
   * adds no row, whether its failure is caught or ends the body.
   */
  function OwnRows(conv: Converter, steps: seq<Step>): seq<Row>
    decreases |steps|
  {
    if steps == [] then []
    else
      var first := if steps[0].ReturnNext? && ObjectToRow(conv, steps[0].v).Ok?
        then [ObjectToRow(conv, steps[0].v).value] else [];
      first + OwnRows(conv, steps[1..])
  }

  /** The frame property of a script body from step `i` on, with the fields restored on every exit. */
  predicate StepsFramed(c: SrfCall, i: nat, st: State, own: nat, o: StepsOutcome)
    requires i <= |c.steps|
  {
    && own in st.stores
    && st.stores.Keys <= o.st.stores.Keys
    && o.st.slots == st.slots
    && Valid(o.st)
    && st.nextStore <= o.st.nextStore
    && (forall id :: id in st.stores && id != own ==> o.st.stores[id] == st.stores[id])
    && (o.escaped.None? ==> o.st.stores[own] == st.stores[own] + OwnRows(c.conv, c.steps[i..]))
  }

  /**
   * With the ambient fields restored on every exit, a script body leaves
   * the fields as it found them, leaves every other store untouched, and
   * fills its own store with exactly the rows it emitted itself.
   */
  lemma {:induction false} RunStepsFrame(c: SrfCall, i: nat, st: State, own: nat)
    requires i <= |c.steps|
    requires Valid(st)
    requires st.slots == Slots(Some(c.conv), Some(own))
    ensures StepsFramed(c, i, st, own, RunSteps(c, i, st, true))
    decreases c, 0, |c.steps| - i, 1
  {
    if i == |c.steps| {
      assert c.steps[i..] == [];
      assert st.stores[own] + [] == st.stores[own];
    } else if c.steps[i].ReturnNext? {
      ReturnNextFrame(c, i, st, own);
    } else {
      NestedFrame(c, i, st, own);
    }
  }

  lemma ReturnNextRowEffect(st: State, v: Value, conv: Converter, own: nat)
    requires st.slots == Slots(Some(conv), Some(own)) && own in st.stores
    ensures var o := ReturnNextRow(st, v);
      && (o.Ok? <==> ObjectToRow(conv, v).Ok?)
      && (o.Ok? ==> o.value == st.(stores := st.stores[own := st.stores[own] + [ObjectToRow(conv, v).value]]))
  {
  }

  lemma OwnRowsAtStep(conv: Converter, c: SrfCall, i: nat)
    requires i < |c.steps|
    ensures c.steps[i].ReturnNext? && ObjectToRow(conv, c.steps[i].v).Ok? ==>
      OwnRows(conv, c.steps[i..]) == [ObjectToRow(conv, c.steps[i].v).value] + OwnRows(conv, c.steps[i + 1..])
    ensures !(c.steps[i].ReturnNext? && ObjectToRow(conv, c.steps[i].v).Ok?) ==>
      OwnRows(conv, c.steps[i..]) == OwnRows(conv, c.steps[i + 1..])
  {
    assert c.steps[i..][1..] == c.steps[i + 1..];
  }

  lemma SeqAssoc<T>(a: seq<T>, b: seq<T>, c: seq<T>)
    ensures (a + b) + c == a + (b + c)
  {
  }

  lemma RunStepsAtReturnNext(c: SrfCall, i: nat, st: State, restoreOnThrow: bool)
    requires i < |c.steps| && c.steps[i].ReturnNext?
    ensures var o := ReturnNextRow(st, c.steps[i].v);
      RunSteps(c, i, st, restoreOnThrow)
      == if o.Ok? then RunSteps(c, i + 1, o.value, restoreOnThrow)
         else if c.steps[i].handler.Escapes? then StepsOutcome(st, Some(c.steps[i].handler.ex))
         else RunSteps(c, i + 1, st, restoreOnThrow)
  {
  }

  lemma {:induction false} ReturnNextFrame(c: SrfCall, i: nat, st: State, own: nat)
    requires i < |c.steps| && c.steps[i].ReturnNext?
    requires Valid(st)
    requires st.slots == Slots(Some(c.conv), Some(own))
    ensures StepsFramed(c, i, st, own, RunSteps(c, i, st, true))
    decreases c, 0, |c.steps| - i, 0
  {
    var v := c.steps[i].v;
    var o := ReturnNextRow(st, v);
    ReturnNextRowEffect(st, v, c.conv, own);
    RunStepsAtReturnNext(c, i, st, true);
    OwnRowsAtStep(c.conv, c, i);
    if o.Ok? {
      var row := ObjectToRow(c.conv, v).value;
      assert Valid(o.value);
      RunStepsFrame(c, i + 1, o.value, own);
      var r := RunSteps(c, i + 1, o.value, true);
      if r.escaped.None? {
        var rest := OwnRows(c.conv, c.steps[i + 1..]);
        assert r.st.stores[own] == o.value.stores[own] + rest;
        assert o.value.stores[own] == st.stores[own] + [row];
        SeqAssoc(st.stores[own], [row], rest);
      }
    } else if c.steps[i].handler.Caught? {
      RunStepsFrame(c, i + 1, st, own);
    }
  }

  lemma {:induction false} NestedFrame(c: SrfCall, i: nat, st: State, own: nat)
    requires i < |c.steps| && c.steps[i].Nested?
    requires Valid(st)
    requires st.slots == Slots(Some(c.conv), Some(own))
    ensures StepsFramed(c, i, st, own, RunSteps(c, i, st, true))
    decreases c, 0, |c.steps| - i, 0
  {
    assert c.steps[i] in c.steps;
    var inner := c.steps[i].call;
    RunSrfFrame(inner, st);
    var o := RunSrf(inner, st, true);
    if !(o.result.Fail? && c.steps[i].handler.Escapes?) {
      RunStepsFrame(c, i + 1, o.st, own);
      OwnRowsAtStep(c.conv, c, i);
    }
  }

  /**
   * Stack discipline of the ambient fields: a set-returning call, however
   * deeply its queries nest further calls and whether or not it fails,
   * leaves the fields exactly as it found them and never touches a store
   * that existed before it. On success the store it filled is a fresh one.
   */
  lemma {:induction false} RunSrfFrame(c: SrfCall, st: State)
    requires Valid(st)
    ensures var o := RunSrf(c, st, true);
      && o.st.slots == st.slots
      && Valid(o.st)
      && st.nextStore <= o.st.nextStore
      && (forall id :: id in st.stores ==> o.st.stores[id] == st.stores[id])
      && (o.result.Ok? ==> o.result.value == st.nextStore && o.result.value in o.st.stores)
    decreases c, 1
  {
    if c.ctx.acceptsSet && c.ctx.materializeAllowed {
      var id := st.nextStore;
      var entered := State(Slots(Some(c.conv), Some(id)), st.stores[id := []], id + 1);
      assert Valid(entered);
      RunStepsFrame(c, 0, entered, id);
      assert forall k :: k in st.stores ==> k != id;
    }
  }

  /**
   * What a script body keeps whether or not the fields are restored on a
   * throw: validity, the store counter, every store older than `base`, and
   * ambient fields that point at a store no older than `base`.
   */
  predicate StepsKeepOlder(st: State, base: nat, o: StepsOutcome) {
    && Valid(o.st)
    && st.nextStore <= o.st.nextStore
    && (forall id :: id in st.stores && id < base ==> id in o.st.stores && o.st.stores[id] == st.stores[id])
    && o.st.slots.store.Some?
    && base <= o.st.slots.store.value
  }

  /** A script body whose fields point at store `base` or a younger one never writes to an older store. */
  lemma {:induction false} RunStepsKeepsOlder(c: SrfCall, i: nat, st: State, restoreOnThrow: bool, base: nat)
    requires i <= |c.steps|
    requires Valid(st)
    requires st.slots.store.Some? && base <= st.slots.store.value
    ensures StepsKeepOlder(st, base, RunSteps(c, i, st, restoreOnThrow))
    decreases c, 0, |c.steps| - i
  {
    if i < |c.steps| {
      assert c.steps[i] in c.steps;
      match c.steps[i]
      case ReturnNext(v, handler) =>
        var o := ReturnNextRow(st, v);
        if o.Ok? {
          RunStepsKeepsOlder(c, i + 1, o.value, restoreOnThrow, base);
        } else if handler.Caught? {
          RunStepsKeepsOlder(c, i + 1, st, restoreOnThrow, base);
        }
      case Nested(inner, handler) =>
        RunSrfEitherMode(inner, st, restoreOnThrow);
        var o := RunSrf(inner, st, restoreOnThrow);
        if !(o.result.Fail? && handler.Escapes?) {
          RunStepsKeepsOlder(c, i + 1, o.st, restoreOnThrow, base);
        }
    }
  }

  /**
   * The frame property for either value of `restoreOnThrow`: a call never
   * touches a store that existed before it and, when it returns normally,
   * leaves the ambient fields as it found them. After a throw the fields
   * are as they were (always, when they are restored on a throw) or point
   * at a store created during the call.
   */
  lemma {:induction false} RunSrfEitherMode(c: SrfCall, st: State, restoreOnThrow: bool)
    requires Valid(st)
    ensures var o := RunSrf(c, st, restoreOnThrow);
      && Valid(o.st)
      && st.nextStore <= o.st.nextStore
      && (forall id :: id in st.stores ==> o.st.stores[id] == st.stores[id])
      && (o.result.Ok? ==> o.st.slots == st.slots)
      && (restoreOnThrow ==> o.st.slots == st.slots)
      && (o.st.slots == st.slots || (o.st.slots.store.Some? && st.nextStore <= o.st.slots.store.value))
    decreases c, 1
  {
    if c.ctx.acceptsSet && c.ctx.materializeAllowed {
      var id := st.nextStore;
      var entered := State(Slots(Some(c.conv), Some(id)), st.stores[id := []], id + 1);
      assert Valid(entered);
      RunStepsKeepsOlder(c, 0, entered, restoreOnThrow, id);
      assert forall k :: k in st.stores ==> k < id;
      assert Saved(st.slots) == st.slots;
    }
  }

  /**
   * A successful set-returning call's own store holds the rows it emitted
   * with `return_next`, then the rows of its return value.
   */
  lemma RunSrfRows(c: SrfCall, st: State)
    requires Valid(st)
    ensures var o := RunSrf(c, st, true);
      o.result.Ok? ==>
        && c.ending.Returns?
        && ConvertAll(c.conv, ResultValues(c.ending.v)).Ok?
        && o.st.stores[st.nextStore]
           == OwnRows(c.conv, c.steps) + ConvertAll(c.conv, ResultValues(c.ending.v)).value
  {
    if c.ctx.acceptsSet && c.ctx.materializeAllowed {
      var id := st.nextStore;
      var entered := State(Slots(Some(c.conv), Some(id)), st.stores[id := []], id + 1);
      assert Valid(entered);
      RunStepsFrame(c, 0, entered, id);
      assert c.steps[0..] == c.steps;
      var body := RunSteps(c, 0, entered, true);
      var o := RunSrf(c, st, true);
      if body.escaped.None? && c.ending.Returns? {
        var emitted := OwnRows(c.conv, c.steps);
        assert body.st.stores[id] == [] + emitted == emitted;
        var restored := body.st.(slots := Saved(st.slots));
        var a := AppendAll(c.conv, ResultValues(c.ending.v), id, restored.stores);
        if a.Ok? {
          assert o.st.stores == a.value;
        }
      } else {
        assert o.result.Fail?;
      }
    }
  }

  /**
   * The return value's contribution: `undefined` adds no row, an array of
   * N elements adds N rows in index order, any other value adds one row;
   * the call fails exactly when one of those values does not convert.
   */
  lemma ReturnValueRows(c: SrfCall, st: State)
    requires Valid(st)
    requires c.ctx.acceptsSet && c.ctx.materializeAllowed
    requires c.steps == [] && c.ending.Returns?
    ensures var o := RunSrf(c, st, true);
      var v := c.ending.v;
      && (o.result.Fail? <==> exists k :: 0 <= k < |ResultValues(v)| && ObjectToRow(c.conv, ResultValues(v)[k]).Fail?)
      && (o.result.Ok? ==>
            var rows := o.st.stores[st.nextStore];
            && (v.Undefined? ==> rows == [])
            && (v.Arr? ==> |rows| == |v.elems| && forall k :: 0 <= k < |v.elems| ==> ObjectToRow(c.conv, v.elems[k]) == Ok(rows[k]))
            && (!v.Undefined? && !v.Arr? ==> rows == [ObjectToRow(c.conv, v).value]))
  {
    RunSrfRows(c, st);
    ConvertAllFails(c.conv, ResultValues(c.ending.v));
    assert OwnRows(c.conv, c.steps) == [];
    var o := RunSrf(c, st, true);
    if o.result.Ok? {
      var rows := o.st.stores[st.nextStore];
      assert rows == ConvertAll(c.conv, ResultValues(c.ending.v)).value;
    }
  }

  /** The exceptions a script body's steps let escape on failure, in step order. */
  function Escapable(steps: seq<Step>): seq<ScriptException>
    decreases |steps|
  {
    if steps == [] then []
    else (if steps[0].handler.Escapes? then [steps[0].handler.ex] else []) + Escapable(steps[1..])
  }

  /** What a call's script may throw: an exception a step lets escape, or the one it ends with. */
  function Thrown(c: SrfCall): seq<ScriptException> {
    Escapable(c.steps) + (if c.ending.Throws? then [c.ending.ex] else [])
  }

  /**
   * An exception that ends a script body is one its own steps let escape:
   * the failure of a nested call or of `return_next` never passes through
   * as it is.
   */
  lemma {:induction false} RunStepsEscapes(c: SrfCall, i: nat, st: State, restoreOnThrow: bool)
    requires i <= |c.steps|
    ensures var o := RunSteps(c, i, st, restoreOnThrow);
      o.escaped.Some? ==> o.escaped.value in Escapable(c.steps[i..])
    decreases |c.steps| - i
  {
    if i < |c.steps| {
      assert c.steps[i..][1..] == c.steps[i + 1..];
      match c.steps[i]
      case ReturnNext(v, handler) =>
        var o := ReturnNextRow(st, v);
        RunStepsEscapes(c, i + 1, if o.Ok? then o.value else st, restoreOnThrow);
      case Nested(inner, handler) =>
        RunStepsEscapes(c, i + 1, RunSrf(inner, st, restoreOnThrow).st, restoreOnThrow);
    }
  }

  /**
   * Once the host accepts a set-returning call, each of its failures is a
   * script error: an exception its script throws, captured with the message
   * and location the engine reports, or the failure to convert a value it
   * returned. A host error of a nested call is never passed up unchanged.
   */
  lemma RunSrfFailure(c: SrfCall, st: State, restoreOnThrow: bool)
    requires c.ctx.acceptsSet && c.ctx.materializeAllowed
    ensures var o := RunSrf(c, st, restoreOnThrow);
      o.result.Fail? ==>
        || (exists ex :: ex in Thrown(c) && o.result.failure == ScriptError(CaptureException(ex)))
        || (c.ending.Returns? && o.result == ScriptFail(ObjectRequired))
  {
    var id := st.nextStore;
    var entered := State(Slots(Some(c.conv), Some(id)), st.stores[id := []], id + 1);
    var body := RunSteps(c, 0, entered, restoreOnThrow);
    RunStepsEscapes(c, 0, entered, restoreOnThrow);
    assert c.steps[0..] == c.steps;
    if body.escaped.Some? {
      assert body.escaped.value in Thrown(c);
    } else if c.ending.Throws? {
      assert c.ending.ex in Thrown(c);
    }
  }

  /**
   * A nested call the host refuses, and a `return_next` value that does
   * not convert, reach the outer script as exceptions: left to escape, the
   * outer call ends with that exception captured as a script error; caught,
   * the outer call carries on and succeeds.
   */
  lemma StepFailuresReachScript(ex: ScriptException, restoreOnThrow: bool)
    ensures var conv := Converter(["x"], false);
      var ok := SetContext(true, true);
      var refused := SrfCall(SetContext(false, true), conv, [], Returns(Undefined));
      var st := State(EmptySlots, map[], 0);
      && RunSrf(SrfCall(ok, conv, [Nested(refused, Escapes(ex))], Returns(Undefined)), st, restoreOnThrow).result
         == Fail(ScriptError(CaptureException(ex)))
      && RunSrf(SrfCall(ok, conv, [Nested(refused, Caught)], Returns(Undefined)), st, restoreOnThrow).result == Ok(0)
      && RunSrf(SrfCall(ok, conv, [ReturnNext(Num(1), Escapes(ex))], Returns(Undefined)), st, restoreOnThrow).result
         == Fail(ScriptError(CaptureException(ex)))
      && RunSrf(SrfCall(ok, conv, [ReturnNext(Num(1), Caught)], Returns(Undefined)), st, restoreOnThrow).result == Ok(0)
  {
    var conv := Converter(["x"], false);
    var ok := SetContext(true, true);
    var refused := SrfCall(SetContext(false, true), conv, [], Returns(Undefined));
    var entered := State(Slots(Some(conv), Some(0)), map[0 := []], 1);
    var none: Stores := map[];
    assert none[0 := []] == map[0 := []];
    assert RunSrf(refused, entered, restoreOnThrow) == Outcome(entered, HostFail(NotASetContext));
    var escapes := SrfCall(ok, conv, [Nested(refused, Escapes(ex))], Returns(Undefined));
    assert RunSteps(escapes, 0, entered, restoreOnThrow) == StepsOutcome(entered, Some(ex));
    var caught := SrfCall(ok, conv, [Nested(refused, Caught)], Returns(Undefined));
    assert RunSteps(caught, 0, entered, restoreOnThrow) == StepsOutcome(entered, None);
    assert ObjectToRow(conv, Num(1)).Fail?;
    assert ResultValues(Undefined) == [];
  }

  /**
   * As written, a script failure skips the restore: the ambient fields are
   * left pointing at the failed call's converter and store.
   */
  lemma ThrowLeavesSlotsSet(c: SrfCall, st: State)
    requires c.ctx.acceptsSet && c.ctx.materializeAllowed
    requires c.steps == [] && c.ending.Throws?
    ensures RunSrf(c, st, false).result.Fail?
    ensures RunSrf(c, st, false).st.slots == Slots(Some(c.conv), Some(st.nextStore))
    ensures RunSrf(c, st, false).st.slots != st.slots || st.slots.store == Some(st.nextStore)
  {
  }

  /**
   * The consequence for an outer call whose script catches the failure of
   * a nested call and then emits a row: as written the row lands in the
   * nested call's store (1) and the outer store (0) stays empty; with the
   * restore on every exit it lands in the outer store.
   */
  lemma CaughtNestedFailureMisroutesRows()
    ensures var conv := Converter(["x"], false);
      var ok := SetContext(true, true);
      var inner := SrfCall(ok, conv, [], Throws(ScriptException(Some("boom"), None)));
      var outer := SrfCall(ok, conv, [Nested(inner, Caught), ReturnNext(Obj(map["x" := Num(1)], ["x"]), Caught)], Returns(Undefined));
      var st := State(EmptySlots, map[], 0);
      && RunSrf(outer, st, false).result == Ok(0)
      && RunSrf(outer, st, false).st.stores[0] == []
      && RunSrf(outer, st, false).st.stores[1] == [[Some(Num(1))]]
      && RunSrf(outer, st, true).result == Ok(0)
      && RunSrf(outer, st, true).st.stores[0] == [[Some(Num(1))]]
      && RunSrf(outer, st, true).st.stores[1] == []
  {
    var conv := Converter(["x"], false);
    var ok := SetContext(true, true);
    var ex := ScriptException(Some("boom"), None);
    var inner := SrfCall(ok, conv, [], Throws(ex));
    var v := Obj(map["x" := Num(1)], ["x"]);
    var outer := SrfCall(ok, conv, [Nested(inner, Caught), ReturnNext(v, Caught)], Returns(Undefined));
    var st := State(EmptySlots, map[], 0);
    var row: Row := [Some(Num(1))];
    var r := ObjectToRow(conv, v).value;
    assert GetProperty(v, "x") == Num(1);
    assert ObjectToRow(conv, v).Ok?;
    assert |r| == 1;
    assert r[0] == ToColumn(ColumnValue(conv, v, 0)) == Some(Num(1));
    assert r == row;
    assert ObjectToRow(conv, v) == Ok(row);
    assert ResultValues(Undefined) == [];
    var outerSlots := Slots(Some(conv), Some(0));
    var innerSlots := Slots(Some(conv), Some(1));
    var entered := State(outerSlots, map[0 := []], 1);
    assert st.stores[0 := []] == map[0 := []];
    var innerEntered := State(innerSlots, map[0 := [], 1 := []], 2);
    assert entered.stores[1 := []] == map[0 := [], 1 := []];
    assert RunSteps(inner, 0, innerEntered, false) == StepsOutcome(innerEntered, None);
    assert RunSteps(inner, 0, innerEntered, true) == StepsOutcome(innerEntered, None);
    var fail := ScriptError(CaptureException(ex));
    assert RunSrf(inner, entered, false) == Outcome(innerEntered, Fail(fail));
    var back := innerEntered.(slots := outerSlots);
    assert RunSrf(inner, entered, true) == Outcome(back, Fail(fail));

    // As written: the row follows the stale fields into store 1.
    var wrongStores := map[0 := [], 1 := [row]];
    assert innerEntered.stores[1] + [row] == [row];
    assert innerEntered.stores[1 := [row]] == wrongStores;
    assert ReturnNextRow(innerEntered, v) == Ok(innerEntered.(stores := wrongStores));
    assert RunSteps(outer, 2, innerEntered.(stores := wrongStores), false)
        == StepsOutcome(innerEntered.(stores := wrongStores), None);
    assert RunSteps(outer, 0, entered, false) == StepsOutcome(innerEntered.(stores := wrongStores), None);
    assert AppendAll(conv, [], 0, wrongStores) == Ok(wrongStores);
    assert RunSrf(outer, st, false) == Outcome(State(EmptySlots, wrongStores, 2), Ok(0));

    // Restored on every exit: the row lands in the outer store 0.
    var rightStores := map[0 := [row], 1 := []];
    assert back.stores[0] + [row] == [row];
    assert back.stores[0 := [row]] == rightStores;
    assert ReturnNextRow(back, v) == Ok(back.(stores := rightStores));
    assert RunSteps(outer, 2, back.(stores := rightStores), true) == StepsOutcome(back.(stores := rightStores), None);
    assert RunSteps(outer, 0, entered, true) == StepsOutcome(back.(stores := rightStores), None);
    assert AppendAll(conv, [], 0, rightStores) == Ok(rightStores);
    assert RunSrf(outer, st, true) == Outcome(State(EmptySlots, rightStores, 2), Ok(0));
  }
}
