/**
 * The procedure cache (`plv8_get_proc`): a map from function OID to an
 * entry holding the compiled-function handle, the function's source and
 * the catalog fingerprint the handle was compiled against.
 */
module ProcCache {
  import opened Base
  import opened Decimal
  import opened Wrapper

  /** Host name buffer size; a copied name keeps at most NameDataLen - 1 characters. */
  const NameDataLen: nat := 64

  /** A catalog row's physical address. */
  datatype Tid = Tid(block: nat, offset: nat)

  /** What identifies one version of a function as seen by one user. */
  datatype Fingerprint = Fingerprint(xmin: nat, tid: Tid, userId: Oid)

  datatype ArgMode = In | Out | InOut | Variadic | Table {
    /** The modes whose arguments are passed in by the caller. */
    predicate IsInput() {
      In? || InOut? || Variadic?
    }
  }

  /**
   * The parts of a function's catalog row the cache reads. `argTypes`,
   * `argNames` and `argModes` cover all declared arguments, outputs
   * included; a missing mode array means every argument is an input.
   */
  datatype ProcRow = ProcRow(
    proname: string,
    prosrc: Option<string>,
    retset: bool,
    rettype: Oid,
    xmin: nat,
    tid: Tid,
    argTypes: seq<Oid>,
    argNames: ArgNames,
    argModes: Option<seq<ArgMode>>)
  {
    predicate Valid() {
      && (argNames.Some? ==> |argNames.value| == |argTypes|)
      && (argModes.Some? ==> |argModes.value| == |argTypes|)
    }
  }

  datatype CacheEntry = CacheEntry(
    compiled: Option<Handle>,
    prosrc: Option<string>,
    proname: string,
    fp: Fingerprint,
    retset: bool,
    rettype: Oid,
    argTypes: seq<Oid>)

  /** The contents of an entry the lookup has just created. */
  const Blank: CacheEntry := CacheEntry(None, None, "", Fingerprint(0, Tid(0, 0), 0), false, 0, [])

  type Cache = map<Oid, CacheEntry>

  /** `c2` differs from `c1` at most at `oid`, and keeps every key `c1` has. */
  predicate OnlyTouches(c1: Cache, c2: Cache, oid: Oid) {
    && (forall k :: k in c1 ==> k in c2)
    && (forall k :: k in c2 && k != oid ==> k in c1)
    && (forall k :: k in c1 && k != oid ==> c2[k] == c1[k])
  }

  function CurrentFingerprint(row: ProcRow, user: Oid): Fingerprint {
    Fingerprint(row.xmin, row.tid, user)
  }

  /** A cached handle may be reused: it exists and its fingerprint is current. */
  predicate UpToDate(e: CacheEntry, row: ProcRow, user: Oid) {
    e.compiled.Some? && e.fp == CurrentFingerprint(row, user)
  }

  /** A name as the fixed-size name buffer keeps it. */
  function CopyName(name: string): (r: string)
    ensures |r| < NameDataLen
    ensures r <= name
    ensures |name| < NameDataLen ==> r == name
    ensures NameDataLen <= |name| ==> |r| == NameDataLen - 1
  {
    if |name| < NameDataLen then name else name[..NameDataLen - 1]
  }

  function ModeAt(modes: Option<seq<ArgMode>>, i: nat): ArgMode {
    if modes.Some? && i < |modes.value| then modes.value[i] else In
  }

  /** The positions below `n` that hold input arguments, in increasing order. */
  function InputPositions(modes: Option<seq<ArgMode>>, n: nat): (pos: seq<nat>)
    ensures |pos| <= n
    ensures forall k :: 0 <= k < |pos| ==> pos[k] < n && ModeAt(modes, pos[k]).IsInput()
    ensures forall k, l :: 0 <= k < l < |pos| ==> pos[k] < pos[l]
  {
    if n == 0 then []
    else InputPositions(modes, n - 1) + (if ModeAt(modes, n - 1).IsInput() then [n - 1] else [])
  }

  /** The elements of `xs` at positions `pos`. */
  function Select<T>(xs: seq<T>, pos: seq<nat>): (r: seq<T>)
    requires forall k :: 0 <= k < |pos| ==> pos[k] < |xs|
    ensures |r| == |pos|
    ensures forall k :: 0 <= k < |pos| ==> r[k] == xs[pos[k]]
  {
    seq(|pos|, k requires 0 <= k < |pos| => xs[pos[k]])
  }

  /** Every input position is selected, and nothing else. */
  lemma {:induction false} InputPositionsExact(modes: Option<seq<ArgMode>>, n: nat)
    ensures forall i :: 0 <= i < n ==> (ModeAt(modes, i).IsInput() <==> i in InputPositions(modes, n))
  {
    if n > 0 {
      InputPositionsExact(modes, n - 1);
      var pos := InputPositions(modes, n - 1);
      assert forall k :: 0 <= k < |pos| ==> pos[k] < n - 1;
    }
  }

  /** Without a mode array every argument is kept. */
  lemma {:induction false} NoModesKeepsAll(n: nat)
    ensures InputPositions(None, n) == seq(n, i => i)
  {
    if n > 0 {
      NoModesKeepsAll(n - 1);
    }
  }

  /**
   * The argument compaction of the refill path: input-argument types are
   * collected in order, and when names exist, the name array is compacted
   * in place, the input names moving to the front and the tail left alone.
   */
  method CompactInputArgs(types: seq<Oid>, names: ArgNames, modes: Option<seq<ArgMode>>)
    returns (inTypes: seq<Oid>, compacted: ArgNames)
    requires names.Some? ==> |names.value| == |types|
    requires modes.Some? ==> |modes.value| == |types|
    ensures inTypes == Select(types, InputPositions(modes, |types|))
    ensures compacted.Some? <==> names.Some?
    ensures names.Some? ==>
      && |compacted.value| == |types|
      && compacted.value[..|inTypes|] == Select(names.value, InputPositions(modes, |types|))
      && compacted.value[|inTypes|..] == names.value[|inTypes|..]
  {
    inTypes := [];
    compacted := names;
    var i := 0;
    while i < |types|
      invariant 0 <= i <= |types|
      invariant inTypes == Select(types, InputPositions(modes, i))
      invariant compacted.Some? <==> names.Some?
      invariant names.Some? ==>
        && |compacted.value| == |types|
        && compacted.value[..|inTypes|] == Select(names.value, InputPositions(modes, i))
        && forall j :: |inTypes| <= j < |types| ==> compacted.value[j] == names.value[j]
    {
      var mode := if modes.Some? then modes.value[i] else In;
      assert mode == ModeAt(modes, i);
      ghost var pos := InputPositions(modes, i);
      if mode.IsInput() {
        assert InputPositions(modes, i + 1) == pos + [i];
        SelectSnoc(types, pos, i);
        if compacted.Some? {
          var k := |inTypes|;
          var before := compacted.value;
          compacted := Some(before[k := before[i]]);
          SelectSnoc(names.value, pos, i);
          assert compacted.value[..k + 1] == before[..k] + [names.value[i]];
        }
        inTypes := inTypes + [types[i]];
      } else {
        assert InputPositions(modes, i + 1) == pos;
      }
      i := i + 1;
    }
  }

  /** Selecting one more position appends that element. */
  lemma SelectSnoc<T>(xs: seq<T>, pos: seq<nat>, p: nat)
    requires forall k :: 0 <= k < |pos| ==> pos[k] < |xs|
    requires p < |xs|
    ensures Select(xs, pos + [p]) == Select(xs, pos) + [xs[p]]
  {
    assert forall k :: 0 <= k < |pos| ==> (pos + [p])[k] == pos[k];
  }

  /** The first argument position at or after `i` whose type is a pseudo type. */
  function FirstPseudoArg(types: seq<Oid>, pseudo: map<Oid, string>, i: nat): (r: Option<nat>)
    decreases |types| - i
    ensures r.Some? ==> i <= r.value < |types| && types[r.value] in pseudo
    ensures r.Some? ==> forall j :: i <= j < r.value ==> types[j] !in pseudo
    ensures r.None? ==> forall j :: i <= j < |types| ==> types[j] !in pseudo
  {
    if i >= |types| then None
    else if types[i] in pseudo then Some(i)
    else FirstPseudoArg(types, pseudo, i + 1)
  }

  /** How a lookup resolved: a handle to reuse, or an entry to compile with these names. */
  datatype Resolution = Reused(handle: Handle) | Refilled(names: ArgNames)

  /** The cache after a lookup, the handle it released, and the resolution. */
  datatype Lookup = Lookup(cache: Cache, released: Option<Handle>, result: Result<Resolution>)

  function LookupFailedMessage(oid: Oid): string {
    "cache lookup failed for function " + NatToString(oid)
  }

  function CannotAcceptMessage(typeName: string): string {
    "PL/v8 functions cannot accept type " + typeName
  }

  /** The entry the refill path stores, before the source and argument types are copied. */
  function Refreshed(e: CacheEntry, row: ProcRow, user: Oid): CacheEntry {
    e.(retset := row.retset, rettype := row.rettype, proname := CopyName(row.proname),
       fp := CurrentFingerprint(row, user))
  }

  /** The handle a lookup against `row` releases: the entry's, unless it may be reused. */
  function StaleHandle(cache: Cache, oid: Oid, row: ProcRow, user: Oid): Option<Handle> {
    if oid in cache && !UpToDate(cache[oid], row, user) then cache[oid].compiled else None
  }

  /**
   * `plv8_get_proc`: look up `oid` for `user`, where `row` is the current
   * catalog row (None if there is none) and `pseudo` names the pseudo
   * types. An up-to-date entry is reused; otherwise the entry is refilled.
   */
  function GetProc(cache: Cache, oid: Oid, row: Option<ProcRow>, user: Oid, validate: bool,
                   pseudo: map<Oid, string>): (r: Lookup)
    requires row.Some? ==> row.value.Valid()
    ensures row.None? ==> r == Lookup(cache, None, HostFail(LookupFailedMessage(oid)))
    ensures r.result.Ok? && r.result.value.Reused? <==>
      row.Some? && oid in cache && UpToDate(cache[oid], row.value, user)
    ensures r.result.Ok? && r.result.value.Reused? ==> r == Lookup(cache, None, Ok(Reused(cache[oid].compiled.value)))
    ensures row.Some? ==> r.released == StaleHandle(cache, oid, row.value, user)
    ensures OnlyTouches(cache, r.cache, oid)
    ensures row.Some? && !(oid in cache && UpToDate(cache[oid], row.value, user)) ==>
      r == Refill(cache, oid, row.value, user, validate, pseudo)
  {
    if row.None? then Lookup(cache, None, HostFail(LookupFailedMessage(oid)))
    else if oid in cache && UpToDate(cache[oid], row.value, user) then
      Lookup(cache, None, Ok(Reused(cache[oid].compiled.value)))
    else Refill(cache, oid, row.value, user, validate, pseudo)
  }

  /**
   * The refill path of `plv8_get_proc`: the entry's handle is released and
   * its source dropped, then it is filled from the row. Only this entry
   * changes, and it is left without a function for the caller to compile.
   */
  function Refill(cache: Cache, oid: Oid, p: ProcRow, user: Oid, validate: bool,
                  pseudo: map<Oid, string>): (r: Lookup)
    requires p.Valid()
    ensures OnlyTouches(cache, r.cache, oid)
    ensures oid in r.cache && r.cache[oid].compiled.None?
    ensures r.released == (if oid in cache then cache[oid].compiled else None)
    ensures r.result.Ok? ==> r.result.value.Refilled? && r.cache[oid].prosrc.Some?
    ensures r.result.Ok? ==> r.cache[oid].fp == CurrentFingerprint(p, user)
  {
    var released := if oid in cache then cache[oid].compiled else None;
    var e := if oid in cache then cache[oid].(compiled := None, prosrc := None) else Blank;
    if p.prosrc.None? then
      Lookup(cache[oid := e], released, HostFail("null prosrc"))
    else
      var e1 := Refreshed(e, p, user);
      var bad := if validate then FirstPseudoArg(p.argTypes, pseudo, 0) else None;
      if bad.Some? then
        Lookup(cache[oid := e1], released, HostFail(CannotAcceptMessage(pseudo[p.argTypes[bad.value]])))
      else
        var inputs := InputPositions(p.argModes, |p.argTypes|);
        var names := if p.argNames.Some? then Some(CompactNames(p.argNames.value, inputs)) else None;
        var e2 := e1.(prosrc := p.prosrc, argTypes := Select(p.argTypes, inputs));
        Lookup(cache[oid := e2], released, Ok(Refilled(names)))
  }

  /**
   * The refill fails with "null prosrc" when the row has no source, and
   * otherwise exactly when validating finds a pseudo-type argument, input
   * or output, naming the first one.
   */
  lemma RefillErrors(cache: Cache, oid: Oid, p: ProcRow, user: Oid, validate: bool, pseudo: map<Oid, string>)
    requires p.Valid()
    ensures var r := Refill(cache, oid, p, user, validate, pseudo);
      && (p.prosrc.None? ==> r.result == HostFail("null prosrc"))
      && (p.prosrc.Some? ==> (r.result.Fail? <==> validate && FirstPseudoArg(p.argTypes, pseudo, 0).Some?))
      && (p.prosrc.Some? && validate && FirstPseudoArg(p.argTypes, pseudo, 0).Some? ==>
            r.result == HostFail(CannotAcceptMessage(pseudo[p.argTypes[FirstPseudoArg(p.argTypes, pseudo, 0).value]])))
  {
  }

  /**
   * A successful refill stores the row's source, the current fingerprint,
   * the copied name, the return information and the input-argument types
   * in order, and hands back the input-argument names compacted in step.
   */
  lemma RefillContents(cache: Cache, oid: Oid, p: ProcRow, user: Oid, validate: bool, pseudo: map<Oid, string>)
    requires p.Valid()
    requires Refill(cache, oid, p, user, validate, pseudo).result.Ok?
    ensures var r := Refill(cache, oid, p, user, validate, pseudo);
      var e := r.cache[oid];
      var names := r.result.value.names;
      var inputs := InputPositions(p.argModes, |p.argTypes|);
      && e.prosrc == p.prosrc && e.prosrc.Some?
      && e.fp == CurrentFingerprint(p, user)
      && e.proname == CopyName(p.proname)
      && e.retset == p.retset && e.rettype == p.rettype
      && e.argTypes == Select(p.argTypes, inputs)
      && (names.Some? <==> p.argNames.Some?)
      && (names.Some? ==> |names.value| == |p.argTypes| && names.value[..|e.argTypes|] == Select(p.argNames.value, inputs))
  {
  }

  /** The name array after in-place compaction: selected names first, the rest as it was. */
  function CompactNames(names: seq<Option<string>>, pos: seq<nat>): (r: seq<Option<string>>)
    requires |pos| <= |names|
    requires forall k :: 0 <= k < |pos| ==> pos[k] < |names|
    ensures |r| == |names|
    ensures r[..|pos|] == Select(names, pos)
    ensures r[|pos|..] == names[|pos|..]
  {
    Select(names, pos) + names[|pos|..]
  }

  /** The refill path computes what the compaction loop computes. */
  method RefillArgs(p: ProcRow) returns (inTypes: seq<Oid>, names: ArgNames)
    requires p.Valid()
    ensures var inputs := InputPositions(p.argModes, |p.argTypes|);
      && inTypes == Select(p.argTypes, inputs)
      && names == (if p.argNames.Some? then Some(CompactNames(p.argNames.value, inputs)) else None)
  {
    inTypes, names := CompactInputArgs(p.argTypes, p.argNames, p.argModes);
    if names.Some? {
      var inputs := InputPositions(p.argModes, |p.argTypes|);
      var expected := CompactNames(p.argNames.value, inputs);
      assert names.value == names.value[..|inTypes|] + names.value[|inTypes|..];
      assert expected == expected[..|inputs|] + expected[|inputs|..];
    }
  }

  /**
   * Reuse requires all three fingerprint parts: a change of row version,
   * row address or user makes the lookup refill and release the old handle.
   */
  lemma FingerprintChangeForcesRecompile(cache: Cache, oid: Oid, row: ProcRow, user: Oid,
                                         validate: bool, pseudo: map<Oid, string>)
    requires row.Valid()
    requires oid in cache && cache[oid].compiled.Some?
    requires cache[oid].fp.xmin != row.xmin || cache[oid].fp.tid != row.tid || cache[oid].fp.userId != user
    ensures var r := GetProc(cache, oid, Some(row), user, validate, pseudo);
      && !(r.result.Ok? && r.result.value.Reused?)
      && r.released == cache[oid].compiled
      && r.cache[oid].compiled.None?
  {
  }

  /**
   * A refilled entry that then receives a handle is reused by the next
   * lookup against the same row and user, with nothing released.
   */
  lemma RefillThenReuse(cache: Cache, oid: Oid, row: ProcRow, user: Oid, validate: bool,
                        pseudo: map<Oid, string>, h: Handle, validate2: bool)
    requires row.Valid()
    requires GetProc(cache, oid, Some(row), user, validate, pseudo).result.Ok?
    ensures var r := GetProc(cache, oid, Some(row), user, validate, pseudo);
      var c := r.cache[oid := r.cache[oid].(compiled := Some(h))];
      GetProc(c, oid, Some(row), user, validate2, pseudo) == Lookup(c, None, Ok(Reused(h)))
  {
    var r := GetProc(cache, oid, Some(row), user, validate, pseudo);
    if r.result.value.Reused? {
      assert r.cache == cache;
      assert cache[oid].(compiled := Some(r.result.value.handle)) == cache[oid];
    } else {
      RefillContents(cache, oid, row, user, validate, pseudo);
    }
  }
}
