/**
 * The backend's engine-side state and the entry points that change it:
 * `Compile` and `CompileFunction`, `CreateExecEnv`, the validator and the
 * transaction-end callback. Engine handles are naturals drawn from a
 * counter, so a new handle is fresh by construction; the engine's verdict
 * on a wrapper source is a parameter.
 */
module Backend {
  import opened Base
  import opened ErrorBridge
  import opened Wrapper
  import opened ProcCache
  import opened Namespaces
  import opened ExecEnvs

  /** Host type identifiers of the pseudo types the validator treats specially. */
  const RecordOid: Oid := 2249
  const VoidOid: Oid := 2278
  const TriggerOid: Oid := 2279
  const OpaqueOid: Oid := 2282

  /** The engine's verdict on a wrapper source: a function, or an exception. */
  datatype Compiled = Compiles | Rejects(ex: ScriptException)

  /**
   * Procedure cache, environment registry, namespace pool, the next free
   * handle, and every handle released so far, in release order.
   */
  datatype Session = Session(cache: Cache, envs: Registry, pool: Pool, next: Handle, released: seq<Handle>)

  datatype Step = Step(s: Session, result: Result<Handle>)

  predicate CacheHandlesOk(s: Session) {
    && (forall k :: k in s.cache && s.cache[k].compiled.Some? ==>
          s.cache[k].compiled.value < s.next && s.cache[k].compiled.value !in s.released)
    && (forall k1, k2 :: k1 in s.cache && k2 in s.cache && k1 != k2 && s.cache[k1].compiled.Some? ==>
          s.cache[k2].compiled != s.cache[k1].compiled)
  }

  predicate RecvHandlesOk(s: Session) {
    && (forall i :: 0 <= i < |s.envs| && s.envs[i].recv.Some? ==>
          s.envs[i].recv.value.obj < s.next && s.envs[i].recv.value.obj !in s.released)
    && DistinctRecvs(s.envs)
    && (forall k, i :: k in s.cache && s.cache[k].compiled.Some? && 0 <= i < |s.envs| && s.envs[i].recv.Some? ==>
          s.cache[k].compiled.value != s.envs[i].recv.value.obj)
  }

  predicate ReleasedOk(s: Session) {
    && (forall i :: 0 <= i < |s.released| ==> s.released[i] < s.next)
    && NoDup(s.released)
  }

  /**
   * Each role's context was handed out, is never released, and is shared
   * with no other role and with no function or receiver handle.
   */
  predicate PoolHandlesOk(s: Session) {
    && ContextsBelow(s.pool, s.next)
    && DistinctContexts(s.pool)
    && (forall i :: 0 <= i < |s.pool| ==> s.pool[i].context !in s.released)
    && (forall k, i :: k in s.cache && s.cache[k].compiled.Some? && 0 <= i < |s.pool| ==>
          s.cache[k].compiled.value != s.pool[i].context)
    && (forall i, j :: 0 <= i < |s.envs| && s.envs[i].recv.Some? && 0 <= j < |s.pool| ==>
          s.envs[i].recv.value.obj != s.pool[j].context)
  }

  /**
   * Every live handle was handed out and is owned once; no handle is
   * released twice, and none is released while still held.
   */
  predicate Valid(s: Session) {
    CacheHandlesOk(s) && RecvHandlesOk(s) && ReleasedOk(s) && PoolHandlesOk(s)
  }

  /** The pool of `t` extends that of `s` with distinct contexts drawn from `s.next` up to `bound`. */
  predicate PoolGrows(s: Session, t: Session, bound: Handle) {
    && s.pool <= t.pool
    && DistinctContexts(t.pool)
    && (forall i :: |s.pool| <= i < |t.pool| ==> s.next <= t.pool[i].context < bound)
  }

  /** The cached entry for `oid` may be reused for `row` and `user`. */
  predicate Fresh(s: Session, oid: Oid, row: ProcRow, user: Oid) {
    oid in s.cache && UpToDate(s.cache[oid], row, user)
  }

  /**
   * `CompileFunction`: obtain the user's context (which may run the
   * start-up procedure), then build the wrapper, then let the engine
   * compile it; on success the new handle is stored in the entry.
   */
  function CompileFunction(s: Session, oid: Oid, names: ArgNames, isTrigger: bool, user: Oid,
                           startup: Startup, engine: string -> Compiled): (r: Step)
    requires oid in s.cache && s.cache[oid].prosrc.Some?
    ensures r.s.envs == s.envs && r.s.released == s.released
    ensures r.s.pool == GetGlobalContext(s.pool, user, s.next, startup).pool
    ensures FindContext(r.s.pool, user).Some?
    ensures s.next <= r.s.next
    ensures r.result.Fail? ==> r.s.cache == s.cache
    ensures r.result.Ok? ==>
      && r.result.value >= s.next && r.s.next == r.result.value + 1
      && r.s.cache == s.cache[oid := s.cache[oid].(compiled := Some(r.result.value))]
    ensures isTrigger && |s.cache[oid].argTypes| != 0 ==>
      && r.result.Fail?
      && (GetGlobalContext(s.pool, user, s.next, startup).result.Ok? ==>
            r.result == ScriptFail("trigger function cannot have arguments"))
  {
    var e := s.cache[oid];
    var acq := GetGlobalContext(s.pool, user, s.next, startup);
    SecondLookupReuses(s.pool, user, s.next, startup, startup);
    var s1 := s.(pool := acq.pool, next := acq.next);
    if acq.result.Fail? then Step(s1, Fail(acq.result.failure))
    else match WrapperSource(|e.argTypes|, names, e.prosrc.value, isTrigger)
      case Fail(f) => Step(s1, Fail(f))
      case Ok(src) =>
        match engine(src)
        case Rejects(ex) => Step(s1, Fail(ScriptError(CaptureException(ex))))
        case Compiles =>
          Step(s1.(cache := s1.cache[oid := e.(compiled := Some(s1.next))], next := s1.next + 1), Ok(s1.next))
  }

  function OptionToSeq(h: Option<Handle>): (r: seq<Handle>)
    ensures h.None? ==> r == []
    ensures h.Some? ==> r == [h.value]
  {
    if h.Some? then [h.value] else []
  }

  /**
   * `Compile`: resolve `oid` through the cache and compile it if the
   * entry holds no function. Returns the function's handle.
   */
  function Compile(s: Session, oid: Oid, row: Option<ProcRow>, user: Oid, validate: bool, isTrigger: bool,
                   pseudo: map<Oid, string>, startup: Startup, engine: string -> Compiled): (r: Step)
    requires row.Some? ==> row.value.Valid()
    ensures row.None? ==> r == Step(s, HostFail(LookupFailedMessage(oid)))
    ensures row.Some? && Fresh(s, oid, row.value, user) ==> r == Step(s, Ok(s.cache[oid].compiled.value))
    ensures r.s.envs == s.envs && s.next <= r.s.next
    ensures r.result.Ok? ==>
      && oid in r.s.cache
      && r.s.cache[oid].compiled == Some(r.result.value)
      && r.s.cache[oid].fp == CurrentFingerprint(row.value, user)
  {
    var g := GetProc(s.cache, oid, row, user, validate, pseudo);
    var s1 := s.(cache := g.cache, released := s.released + OptionToSeq(g.released));
    match g.result
    case Fail(f) => Step(s1, Fail(f))
    case Ok(Reused(h)) => Step(s1, Ok(h))
    case Ok(Refilled(names)) =>
      CompileFunction(s1, oid, names, isTrigger, user, startup, engine)
  }

  /** Two steps that each change only the entry for `oid` together change only that entry. */
  lemma OnlyTouchesTrans(c1: Cache, c2: Cache, c3: Cache, oid: Oid)
    requires OnlyTouches(c1, c2, oid) && OnlyTouches(c2, c3, oid)
    ensures OnlyTouches(c1, c3, oid)
  {
  }

  /** A compile changes no cache entry but the one for `oid`. */
  lemma CompileTouchesOnly(s: Session, oid: Oid, row: ProcRow, user: Oid, validate: bool, isTrigger: bool,
                           pseudo: map<Oid, string>, startup: Startup, engine: string -> Compiled)
    requires row.Valid()
    ensures OnlyTouches(s.cache, Compile(s, oid, Some(row), user, validate, isTrigger, pseudo, startup, engine).s.cache, oid)
  {
    var r := Compile(s, oid, Some(row), user, validate, isTrigger, pseudo, startup, engine);
    var g := GetProc(s.cache, oid, Some(row), user, validate, pseudo);
    assert OnlyTouches(s.cache, g.cache, oid);
    if g.result.Ok? && g.result.value.Refilled? {
      var s1 := s.(cache := g.cache, released := s.released + OptionToSeq(g.released));
      var c := CompileFunction(s1, oid, g.result.value.names, isTrigger, user, startup, engine);
      assert r == c;
      OnlyTouchesTrans(s.cache, g.cache, c.s.cache, oid);
    } else {
      assert r.s.cache == g.cache;
    }
  }

  /** A compile releases the entry's stale handle, and only that one. */
  lemma CompileReleases(s: Session, oid: Oid, row: ProcRow, user: Oid, validate: bool, isTrigger: bool,
                        pseudo: map<Oid, string>, startup: Startup, engine: string -> Compiled)
    requires row.Valid()
    ensures Compile(s, oid, Some(row), user, validate, isTrigger, pseudo, startup, engine).s.released
         == s.released + OptionToSeq(StaleHandle(s.cache, oid, row, user))
  {
    var g := GetProc(s.cache, oid, Some(row), user, validate, pseudo);
    var s1 := s.(cache := g.cache, released := s.released + OptionToSeq(g.released));
    if g.result.Ok? && g.result.value.Refilled? {
      var c := CompileFunction(s1, oid, g.result.value.names, isTrigger, user, startup, engine);
      assert c == Compile(s, oid, Some(row), user, validate, isTrigger, pseudo, startup, engine);
    }
  }

  /**
   * A compile that does not reuse the entry hands out a handle never seen
   * before, and when it fails leaves the entry without a function.
   */
  lemma CompileOutcome(s: Session, oid: Oid, row: ProcRow, user: Oid, validate: bool, isTrigger: bool,
                       pseudo: map<Oid, string>, startup: Startup, engine: string -> Compiled)
    requires row.Valid()
    requires !Fresh(s, oid, row, user)
    ensures var r := Compile(s, oid, Some(row), user, validate, isTrigger, pseudo, startup, engine);
      && (r.result.Ok? ==> s.next <= r.result.value < r.s.next)
      && (r.result.Fail? ==> oid in r.s.cache && r.s.cache[oid].compiled.None?)
  {
    var r := Compile(s, oid, Some(row), user, validate, isTrigger, pseudo, startup, engine);
    var g := Refill(s.cache, oid, row, user, validate, pseudo);
    assert g == GetProc(s.cache, oid, Some(row), user, validate, pseudo);
    var s1 := s.(cache := g.cache, released := s.released + OptionToSeq(g.released));
    if g.result.Fail? {
      assert r.s == s1;
    } else {
      var c := CompileFunction(s1, oid, g.result.value.names, isTrigger, user, startup, engine);
      assert r == c;
    }
  }

  /**
   * Two resolutions with no catalog change in between give the same
   * handle: the second reuses what the first stored, changes nothing, and
   * consults neither the start-up procedure nor the engine.
   */
  lemma CompileTwice(s: Session, oid: Oid, row: ProcRow, user: Oid, validate: bool, isTrigger: bool,
                     pseudo: map<Oid, string>, startup: Startup, engine: string -> Compiled,
                     validate2: bool, isTrigger2: bool, startup2: Startup, engine2: string -> Compiled)
    requires row.Valid()
    requires Compile(s, oid, Some(row), user, validate, isTrigger, pseudo, startup, engine).result.Ok?
    ensures var r := Compile(s, oid, Some(row), user, validate, isTrigger, pseudo, startup, engine);
      Compile(r.s, oid, Some(row), user, validate2, isTrigger2, pseudo, startup2, engine2) == r
  {
  }

  /** `CreateExecEnv`: register a new environment, then give it the user's context and a receiver bound to `fn`. */
  function CreateExecEnv(s: Session, fn: Handle, user: Oid, startup: Startup): (r: Step)
    ensures |r.s.envs| == |s.envs| + 1 && r.s.envs[1..] == s.envs
    ensures r.s.cache == s.cache && r.s.released == s.released && s.next <= r.s.next
    ensures r.s.pool == GetGlobalContext(s.pool, user, s.next, startup).pool
    ensures r.result.Fail? ==> r.s.envs[0] == ExecEnv(None, None)
    ensures r.result.Ok? ==>
      && s.next <= r.result.value < r.s.next
      && r.s.envs[0] == ExecEnv(Some(Receiver(r.result.value, fn)), FindContext(r.s.pool, user))
  {
    var envs := NewExecEnv(s.envs);
    var acq := GetGlobalContext(s.pool, user, s.next, startup);
    SecondLookupReuses(s.pool, user, s.next, startup, startup);
    match acq.result
    case Fail(f) => Step(s.(envs := envs, pool := acq.pool, next := acq.next), Fail(f))
    case Ok(ctx) =>
      var obj := acq.next;
      Step(Session(s.cache, envs[0 := ExecEnv(Some(Receiver(obj, fn)), Some(ctx))], acq.pool, obj + 1, s.released),
           Ok(obj))
  }

  function CannotReturnMessage(typeName: string): string {
    "PL/v8 functions cannot return type " + typeName
  }

  /**
   * The validator's return-type rule: a pseudo return type is accepted
   * for TRIGGER and for OPAQUE with no arguments (both make the function a
   * trigger), and for RECORD and VOID; any other is refused. The result
   * says whether the function is a trigger. The host's `pseudo` lists all
   * four of those types; one missing from it counts as an ordinary type.
   */
  function ValidateReturnType(rettype: Oid, pronargs: nat, pseudo: map<Oid, string>): (r: Result<bool>)
    ensures r.Ok? <==>
      rettype !in pseudo || rettype == TriggerOid || rettype == RecordOid || rettype == VoidOid ||
      (rettype == OpaqueOid && pronargs == 0)
    ensures r == Ok(true) <==> rettype in pseudo && (rettype == TriggerOid || (rettype == OpaqueOid && pronargs == 0))
    ensures r.Fail? ==> r == HostFail(CannotReturnMessage(pseudo[rettype]))
  {
    if rettype !in pseudo then Ok(false)
    else if rettype == TriggerOid || (rettype == OpaqueOid && pronargs == 0) then Ok(true)
    else if rettype != RecordOid && rettype != VoidOid then HostFail(CannotReturnMessage(pseudo[rettype]))
    else Ok(false)
  }

  /** The host's count of a function's input arguments. */
  function InputCount(row: ProcRow): nat {
    |InputPositions(row.argModes, |row.argTypes|)|
  }

  /**
   * `plv8_call_validator`: check the return type, compile in validate
   * mode, and create an environment for the function. The host ignores
   * the value; the model returns the function's handle.
   */
  function CallValidator(s: Session, oid: Oid, row: Option<ProcRow>, user: Oid, pseudo: map<Oid, string>,
                         startup: Startup, engine: string -> Compiled): (r: Step)
    requires row.Some? ==> row.value.Valid()
    ensures row.None? ==> r == Step(s, HostFail(LookupFailedMessage(oid)))
    ensures row.Some? && ValidateReturnType(row.value.rettype, InputCount(row.value), pseudo).Fail? ==>
      r == Step(s, ValidateReturnType(row.value.rettype, InputCount(row.value), pseudo).PropagateFailure())
    ensures r.result.Ok? ==>
      && oid in r.s.cache && r.s.cache[oid].compiled == Some(r.result.value)
      && |r.s.envs| == |s.envs| + 1 && r.s.envs[1..] == s.envs
      && r.s.envs[0].recv.Some? && r.s.envs[0].recv.value.bound == r.result.value
  {
    if row.None? then Step(s, HostFail(LookupFailedMessage(oid)))
    else
      match ValidateReturnType(row.value.rettype, InputCount(row.value), pseudo)
      case Fail(f) => Step(s, Fail(f))
      case Ok(isTrigger) =>
        var c := Compile(s, oid, row, user, true, isTrigger, pseudo, startup, engine);
        if c.result.Fail? then c
        else
          var x := CreateExecEnv(c.s, c.result.value, user, startup);
          Step(x.s, if x.result.Ok? then c.result else Fail(x.result.failure))
  }

  /**
   * The validator refuses a function with a pseudo-type argument, input or
   * output, naming the first one, whenever the lookup has to refill.
   */
  lemma ValidatorRejectsPseudoArgument(s: Session, oid: Oid, row: ProcRow, user: Oid, pseudo: map<Oid, string>,
                                       startup: Startup, engine: string -> Compiled)
    requires row.Valid() && row.prosrc.Some?
    requires ValidateReturnType(row.rettype, InputCount(row), pseudo).Ok?
    requires !Fresh(s, oid, row, user)
    requires FirstPseudoArg(row.argTypes, pseudo, 0).Some?
    ensures var k := FirstPseudoArg(row.argTypes, pseudo, 0).value;
      CallValidator(s, oid, Some(row), user, pseudo, startup, engine).result
        == HostFail(CannotAcceptMessage(pseudo[row.argTypes[k]]))
  {
    RefillErrors(s.cache, oid, row, user, true, pseudo);
  }

  /** The transaction-end callback: every receiver is released and the registry emptied. */
  method EndTransaction(s: Session) returns (t: Session)
    ensures t == s.(envs := [], released := s.released + RecvObjects(s.envs))
    ensures Valid(s) ==> Valid(t)
  {
    var rel, after := XactCallback(s.envs);
    t := s.(envs := after, released := s.released + rel);
    if Valid(s) {
      NoDupAppend(s.released, rel);
      forall j | 0 <= j < |t.released| ensures t.released[j] < t.next {
        if j >= |s.released| {
          var x := rel[j - |s.released|];
          assert t.released[j] == x && x in rel;
          var i :| 0 <= i < |s.envs| && s.envs[i].recv.Some? && s.envs[i].recv.value.obj == x;
        }
      }
    }
  }

  lemma NoDupAppend(a: seq<Handle>, b: seq<Handle>)
    requires NoDup(a) && NoDup(b)
    requires forall x :: x in b ==> x !in a
    ensures NoDup(a + b)
  {
    var c := a + b;
    forall i, j | 0 <= i < j < |c| ensures c[i] != c[j] {
      if j >= |a| && i < |a| {
        assert c[j] == b[j - |a|] && c[j] in b;
      } else if i >= |a| {
        assert c[i] == b[i - |a|] && c[j] == b[j - |a|];
      }
    }
  }

  /** Emptying the entry for `oid` and releasing the handle it held keeps the state valid. */
  lemma DropEntryKeepsValid(s: Session, oid: Oid, c: Cache, rel: seq<Handle>)
    requires Valid(s)
    requires OnlyTouches(s.cache, c, oid)
    requires oid in c && c[oid].compiled.None?
    requires rel == (if oid in s.cache then OptionToSeq(s.cache[oid].compiled) else [])
    ensures Valid(s.(cache := c, released := s.released + rel))
  {
    var t := s.(cache := c, released := s.released + rel);
    forall x | x in rel ensures x !in s.released {
      assert s.cache[oid].compiled.Some? && x == s.cache[oid].compiled.value;
    }
    NoDupAppend(s.released, rel);
    forall k | k in c && c[k].compiled.Some?
      ensures c[k].compiled.value !in t.released
    {
      assert k != oid && c[k] == s.cache[k];
    }
  }

  /** Storing a handle not yet handed out in an empty entry keeps the state valid. */
  lemma StoreFreshKeepsValid(s: Session, oid: Oid, h: Handle, t: Session)
    requires Valid(s)
    requires oid in s.cache && s.cache[oid].compiled.None?
    requires s.next <= h
    requires t.cache == s.cache[oid := s.cache[oid].(compiled := Some(h))]
    requires t.envs == s.envs && t.released == s.released && t.next == h + 1
    requires PoolGrows(s, t, h)
    ensures Valid(t)
  {
    forall i | 0 <= i < |t.pool| ensures t.pool[i].context < t.next {
      if i < |s.pool| {
        assert t.pool[i] == s.pool[i];
      }
    }
  }

  /** Handing out handles, new contexts among them, only moves the counter forward. */
  lemma AdvanceKeepsValid(s: Session, t: Session)
    requires Valid(s)
    requires t.cache == s.cache && t.envs == s.envs && t.released == s.released && s.next <= t.next
    requires PoolGrows(s, t, t.next)
    ensures Valid(t)
  {
    forall i | 0 <= i < |t.pool| ensures t.pool[i].context < t.next {
      if i < |s.pool| {
        assert t.pool[i] == s.pool[i];
      }
    }
  }

  /** Compiling keeps every handle owned once and released at most once. */
  lemma CompileKeepsValid(s: Session, oid: Oid, row: Option<ProcRow>, user: Oid, validate: bool, isTrigger: bool,
                          pseudo: map<Oid, string>, startup: Startup, engine: string -> Compiled)
    requires row.Some? ==> row.value.Valid()
    requires Valid(s)
    ensures Valid(Compile(s, oid, row, user, validate, isTrigger, pseudo, startup, engine).s)
  {
    if row.Some? && !Fresh(s, oid, row.value, user) {
      var g := Refill(s.cache, oid, row.value, user, validate, pseudo);
      assert g == GetProc(s.cache, oid, row, user, validate, pseudo);
      var s1 := s.(cache := g.cache, released := s.released + OptionToSeq(g.released));
      DropEntryKeepsValid(s, oid, g.cache, OptionToSeq(g.released));
      if g.result.Ok? {
        CompileFunctionKeepsValid(s1, oid, g.result.value.names, isTrigger, user, startup, engine);
        assert Compile(s, oid, row, user, validate, isTrigger, pseudo, startup, engine)
            == CompileFunction(s1, oid, g.result.value.names, isTrigger, user, startup, engine);
      }
    }
  }

  lemma CompileFunctionKeepsValid(s: Session, oid: Oid, names: ArgNames, isTrigger: bool, user: Oid,
                                  startup: Startup, engine: string -> Compiled)
    requires Valid(s)
    requires oid in s.cache && s.cache[oid].prosrc.Some? && s.cache[oid].compiled.None?
    ensures Valid(CompileFunction(s, oid, names, isTrigger, user, startup, engine).s)
  {
    var r := CompileFunction(s, oid, names, isTrigger, user, startup, engine);
    LookupKeepsContextsDistinct(s.pool, user, s.next, startup);
    if r.result.Ok? {
      StoreFreshKeepsValid(s, oid, r.result.value, r.s);
    } else {
      AdvanceKeepsValid(s, r.s);
    }
  }

  /** Creating an environment keeps every handle owned once and released at most once. */
  lemma CreateExecEnvKeepsValid(s: Session, fn: Handle, user: Oid, startup: Startup)
    requires Valid(s)
    ensures Valid(CreateExecEnv(s, fn, user, startup).s)
  {
    CreateExecEnvKeepsHandles(s, fn, user, startup);
    CreateExecEnvKeepsPool(s, fn, user, startup);
  }

  lemma CreateExecEnvKeepsHandles(s: Session, fn: Handle, user: Oid, startup: Startup)
    requires Valid(s)
    ensures var t := CreateExecEnv(s, fn, user, startup).s;
      CacheHandlesOk(t) && RecvHandlesOk(t) && ReleasedOk(t)
  {
    var r := CreateExecEnv(s, fn, user, startup);
    assert forall i :: 1 <= i < |r.s.envs| ==> r.s.envs[i] == s.envs[i - 1];
  }

  lemma CreateExecEnvKeepsPool(s: Session, fn: Handle, user: Oid, startup: Startup)
    requires Valid(s)
    ensures PoolHandlesOk(CreateExecEnv(s, fn, user, startup).s)
  {
    var r := CreateExecEnv(s, fn, user, startup);
    LookupKeepsContextsDistinct(s.pool, user, s.next, startup);
    assert forall i :: 1 <= i < |r.s.envs| ==> r.s.envs[i] == s.envs[i - 1];
    forall i | 0 <= i < |r.s.pool| ensures r.s.pool[i].context < r.s.next {
      if i < |s.pool| {
        assert r.s.pool[i] == s.pool[i];
      }
    }
  }

  /** Validating keeps every handle owned once and released at most once. */
  lemma CallValidatorKeepsValid(s: Session, oid: Oid, row: Option<ProcRow>, user: Oid, pseudo: map<Oid, string>,
                                startup: Startup, engine: string -> Compiled)
    requires row.Some? ==> row.value.Valid()
    requires Valid(s)
    ensures Valid(CallValidator(s, oid, row, user, pseudo, startup, engine).s)
  {
    if row.Some? {
      var v := ValidateReturnType(row.value.rettype, InputCount(row.value), pseudo);
      if v.Ok? {
        CompileKeepsValid(s, oid, row, user, true, v.value, pseudo, startup, engine);
        var c := Compile(s, oid, row, user, true, v.value, pseudo, startup, engine);
        if c.result.Ok? {
          CreateExecEnvKeepsValid(c.s, c.result.value, user, startup);
        }
      }
    }
  }
}
