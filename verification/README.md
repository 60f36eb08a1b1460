# plv8 core, modelled in Dafny

This project models the bookkeeping and decision logic of `plv8.cc`, the
PostgreSQL procedural-language handler that runs JavaScript functions on the
V8 engine. The V8 calls and PostgreSQL host services are stripped out. What
remains is a set of deterministic rules, written here as pure functions over
immutable datatypes:

- the procedure cache and its freshness rule (`plv8_get_proc`, `Compile`);
- the synthesized wrapper source (`CompileFunction`);
- the ambient converter/tuple-store slots and result shaping of set-returning
  calls (`CallSRFunction`);
- trigger argument assembly and result selection (`CallTrigger`);
- the validator's type rules (`plv8_call_validator`);
- row/object conversion (`Converter::ToValue`, `Converter::ToDatum`);
- the execution-environment registry (`plv8_new_exec_env`, `plv8_xact_cb`);
- the per-user namespace pool (`GetGlobalContext`);
- error formatting (`js_error`, `error_object`, `rethrow`, `FormatSPIStatus`).

Engine handles (compiled functions, receivers, contexts) are naturals drawn
from a counter, so every new handle is fresh. The handle invariant
(`Backend.Valid`) says that every live handle was handed out, is held by
one owner only and is not released. Each role's global context is such a
handle, so no two roles share one. The engine's verdict on a
wrapper source is a parameter (`engine: string -> Compiled`). So are:

- how a script ends (`Ending`);
- how the start-up procedure ends (`Startup`);
- the current catalog row (`Option<ProcRow>`);
- the current user;
- the set of pseudo types with their printed names. The host's catalog
  lists TRIGGER, OPAQUE, RECORD and VOID among them; a type missing from
  the map is treated as an ordinary type.

Modules, one per file:

| module | file | covers |
|---|---|---|
| `Base` | base.dfy | `Option`, `Result`, the two failure domains (script / host) |
| `Decimal` | decimal.dfy | decimal rendering of integers (`%d`, `$%d`) and its inverse |
| `Text` | text.dfy | search, join, split and count over strings |
| `ErrorBridge` | errors.dfy | exception capture, `error_object`, `rethrow`, `FormatSPIStatus` |
| `Wrapper` | wrapper.dfy | the `(function (…){\n…\n})` source |
| `Convert` | convert.dfy | script values, rows, `Converter::ToValue` / `ToDatum` |
| `SetReturning` | srf.dfy | `CallSRFunction` with nested calls and `return_next` |
| `Trigger` | trigger.dfy | `CallTrigger` |
| `ProcCache` | cache.dfy | `plv8_get_proc` |
| `Namespaces` | namespaces.dfy | `GetGlobalContext` |
| `ExecEnvs` | execenv.dfy | `plv8_new_exec_env`, `plv8_xact_cb` |
| `Backend` | backend.dfy | `Compile`, `CompileFunction`, `CreateExecEnv`, the validator, the handle invariant |

Host constants come from the PostgreSQL headers, not from `plv8.cc`:

- the SPI error codes `SPI_ERROR_CONNECT` … `SPI_ERROR_TYPUNKNOWN` (−1 … −11);
- `RECORDOID` 2249, `VOIDOID` 2278, `TRIGGEROID` 2279, `OPAQUEOID` 2282;
- `NAMEDATALEN` 64.

Where the code and its design description differ, the model follows the code:

- `GetGlobalContext` registers a new context *before* running the start-up
  procedure. A failing start-up therefore leaves the context registered, and
  the procedure never runs again for that user (`Namespaces.SecondLookupReuses`).
- `CallTrigger` tests only for UPDATE, not for row level, before converting
  the returned value. A statement-level UPDATE trigger that returns an
  object therefore gets it converted, and one that returns a non-object
  fails with "argument must be an object"
  (`Trigger.StatementUpdateConvertsReturn`).
- `TG_WHEN` is "AFTER" for INSTEAD OF triggers.
- `CompileFunction` obtains the user's context, which may run the start-up
  procedure, before it rejects a trigger declared with arguments.
- `CreateExecEnv` registers the environment before obtaining the context. If
  that fails, an empty environment stays on the list until transaction end.
- When a lookup fails after the cache entry has been entered, the entry
  stays in the cache with no function. The next lookup refills it.

## Model

| member | source | states |
|---|---|---|
| Decimal.NatToString | plv8.cc:842 | the positional name's number is a non-empty run of digits, with no leading zero except for 0 itself |
| Decimal.IntToStringRoundTrip | plv8.cc:1224-1225 | the `%d` rendering of any integer parses back to that integer |
| Decimal.IntToStringInjective | plv8.cc:1224-1225 | different integers render differently |
| ErrorBridge.FormatDetail | plv8.cc:1212-1226 | the detail starts with the script label and then "() LINE " |
| ErrorBridge.DetailRoundTrip | plv8.cc:1219-1226 | the detail parses back into the script label ("?" when absent), the engine's line number minus one, and the source label ("?" when absent) |
| ErrorBridge.CaptureException | plv8.cc:1199-1233 | the message is the exception's text, or missing when reading the text itself fails; a detail exists exactly when the text was read and the engine supplied location data, and it is then the formatted detail |
| ErrorBridge.Rethrow | plv8.cc:1251-1265 | a script failure is reported with its message and detail; a host failure is re-raised with its own message and detail unchanged |
| ErrorBridge.NestedCaptureReadsUnknown | plv8.cc:1199-1247 | an exception whose text cannot be read is reported with neither message nor detail, and becomes an Error reading "unknown exception" |
| ErrorBridge.LineAndSourceRoundTrip | plv8.cc:1219-1226 | the detail's "() LINE n: source" part reads back as the number and the source text |
| ErrorBridge.ExceptionReportsCorrectedLine | plv8.cc:1219-1226 | a reported script exception carries its text, and its detail reads back with line number L − 1 |
| ErrorBridge.ErrorObjectMessage | plv8.cc:1236-1247 | a missing message becomes "unknown exception"; the result is that message with exactly one leading "Error: " removed when present, and unchanged otherwise |
| ErrorBridge.StripsOnePrefix | plv8.cc:1240-1244 | "Error: " + x becomes x, even when x itself starts with "Error: " |
| ErrorBridge.ErrorObjectRecapture | plv8.cc:1236-1247 | turning a cleaned message into an Error and cleaning its string form again changes nothing |
| ErrorBridge.FormatSPIStatus | plv8.cc:935-972 | the text is "OK" exactly for positive statuses; unnamed non-positive statuses give "SPI_ERROR: " and the number |
| ErrorBridge.NamedStatusRoundTrip | plv8.cc:943-966 | the text of each named status other than SPI_ERROR_UNCONNECTED reads back as that status |
| ErrorBridge.UnknownStatusRoundTrip | plv8.cc:967-970 | the "SPI_ERROR: " text of a status with no name reads back as its number |
| ErrorBridge.SPIStatusRoundTrip | plv8.cc:943-971 | every non-positive status reads back from its text, except SPI_ERROR_UNCONNECTED, which shares SPI_ERROR_TRANSACTION's text |
| Wrapper.WrapperSource | plv8.cc:823-846 | the wrapper is rejected exactly for a trigger with arguments, with "trigger function cannot have arguments" |
| Wrapper.ParseWrapped | plv8.cc:823-846 | a wrapper around a parameter list without ')' splits back into that list and the unchanged body |
| Wrapper.ParamListSplits | plv8.cc:836-843 | a comma-joined list of plain parameter names splits at its commas into exactly those names |
| Wrapper.WrapperRoundTrip | plv8.cc:823-846 | with plain parameter names, the wrapper splits back into the parameter list (declared names or `$i+1`, comma-joined; the fixed ten names for a trigger) and the unchanged body |
| Wrapper.ParamListPlain | plv8.cc:836-843 | a parameter list built from plain names contains no ')' and no newline |
| Wrapper.HeaderHasOneNewline | plv8.cc:845 | the header up to the body contains exactly one newline |
| Wrapper.SourceStartsOnSecondLine | plv8.cc:845 | the body begins right after the wrapper's first newline, so body line L is wrapper line L + 1 |
| Wrapper.InlineWrapper | plv8.cc:823-846 | a function without parameters is wrapped as "(function (){\n" + src + "\n})" |
| Convert.RowToObject | plv8.cc:1114-1138 | the object has one property per attribute name, and no others; its property order lists each name once, and with distinct names it is the attribute order |
| Convert.BuildOrder | plv8.cc:1119-1134 | the property order lists each attribute name once, where it first occurs, and nothing else; with distinct names it is the attribute order |
| Convert.BuildObject | plv8.cc:1119-1134 | after c attributes the object's properties are exactly their names, each listed once in its order |
| Convert.BuildObjectSetsInTurn | plv8.cc:1119-1134 | the object is built by setting each attribute in turn: a new name is added last, a repeated one keeps its place and takes the later value |
| Convert.BuildPropsLookup | plv8.cc:1119-1135 | a property holds the value of the last attribute with that name |
| Convert.RowToObjectProperties | plv8.cc:1119-1135 | with distinct names, each property holds its attribute's value, and `null` for a null attribute |
| Convert.ToColumn | plv8.cc:1165-1169 | a column is null exactly when its value is missing (no own property of that name), `undefined` or `null` |
| Convert.ObjectToRow | plv8.cc:1147-1170 | a composite converter fails on a non-object with "argument must be an object"; otherwise there is one column per attribute, null exactly where the value read from the object's own properties is nullish |
| Convert.ScalarModeRepeatsValue | plv8.cc:1163-1170 | a scalar converter accepts any value and every column reads that same value |
| Convert.ToDatum | plv8.cc:1172-1180 | with a store, the row is appended to that store only; without one, it is returned as a standalone tuple and no store changes |
| Convert.RowObjectRoundTrip | plv8.cc:1114-1186 | a row turned into an object and converted back is the same row, values and null flags alike |
| SetReturning.ConvertAll | plv8.cc:419-425 | converting a list of values either fails or yields one row per value, each the value's conversion |
| SetReturning.ConvertAllFails | plv8.cc:419-425 | converting a list fails exactly when some element fails to convert |
| SetReturning.AppendAll | plv8.cc:419-425 | appending a list fails with "argument must be an object" when some element fails to convert; otherwise the store gains exactly the elements' rows, in order, and no other store changes |
| SetReturning.RunSrf | plv8.cc:362-432 | a set-returning call only ever adds stores, never removes them |
| SetReturning.RunStepsFrame | plv8.cc:392-402 | with the restore on every exit, while a call's script runs, nested calls leave the ambient slots, the other stores and the store counter's order intact, and the call's own store gains exactly the rows of the `return_next` values that convert, in order; a value that does not convert adds no row, whether the script catches its failure or not |
| SetReturning.RunSrfFrame | plv8.cc:383-408 | with the restore on every exit, a call leaves the ambient slots as it found them, never changes an older store, and on success fills a fresh store |
| SetReturning.RunStepsKeepsOlder | plv8.cc:392-402 | with or without the restore on a throw, a script body never changes a store older than its own, and the slots keep pointing at its own store or a younger one |
| SetReturning.RunSrfEitherMode | plv8.cc:383-408 | with or without the restore on a throw, a call never changes an older store and keeps the state valid; a normal return leaves the slots as it found them; after a throw they are as they were, or point at a store made during the call |
| SetReturning.RunSrfRows | plv8.cc:383-426 | with the restore on every exit, a successful call's own store holds its `return_next` rows and then its return value's rows, in order |
| SetReturning.ReturnValueRows | plv8.cc:410-426 | `undefined` adds no row, an array of N elements adds N rows in index order, any other value adds one row; the call fails exactly when some value fails to convert |
| SetReturning.RunStepsEscapes | plv8.cc:284-285 | an exception that ends a script body is one that the body's own steps let escape; a failed nested call or `return_next` never ends the body with its own failure |
| SetReturning.RunSrfFailure | plv8.cc:273-291 | once the host accepts the call, every failure is a script error: an exception the script throws, captured by `js_error(try_catch)` with its message and location, or "argument must be an object" for a returned value that does not convert |
| SetReturning.StepFailuresReachScript | plv8.cc:284-285 | a nested call the host refuses, or a `return_next` value that does not convert, ends the outer call with the escaping exception captured as a script error; if the script catches it, the outer call succeeds |
| SetReturning.ThrowLeavesSlotsSet | plv8.cc:401-408 | as written, a script failure skips the restore and leaves the slots on the failed call's converter and store |
| SetReturning.CaughtNestedFailureMisroutesRows | plv8.cc:383-408 | as written, a row emitted after a caught nested failure lands in the nested store; with the restore it lands in the caller's store |
| Trigger.TriggerArgs | plv8.cc:437-451 | there is one argument per trigger parameter name |
| Trigger.TriggerBindings | plv8.cc:437-534 | INSERT binds NEW to the row and leaves OLD undefined, DELETE the reverse, UPDATE binds both, statement level neither; TG_WHEN, TG_LEVEL, TG_OP and TG_NAME follow the event; TG_RELID is the relation's id as a number, TG_TABLE_NAME and TG_TABLE_SCHEMA its name and schema, TG_ARGV the trigger's arguments as strings, in order |
| Trigger.CallTrigger | plv8.cc:536-558 | a throw is captured; only an UPDATE returning a non-nullish value replaces the tuple, after composite conversion; otherwise the result is the trigger tuple (INSERT, DELETE), the new tuple (UPDATE) or none (statement level) |
| Trigger.UpdateReturningArgumentRow | plv8.cc:478-485 | an UPDATE row trigger returning NEW unchanged stores the new row; returning OLD stores the old row |
| Trigger.ReturnedRowIsStored | plv8.cc:545-556 | an UPDATE trigger returning a row turned into an object stores that same row |
| Trigger.StatementUpdateConvertsReturn | plv8.cc:545-556 | a statement-level UPDATE trigger returning an object still gets a formed tuple; a non-object fails |
| ProcCache.CopyName | plv8.cc:679 | the kept name is a prefix of the catalog name: the whole name when it fits, otherwise exactly its first NAMEDATALEN − 1 characters |
| ProcCache.InputPositions | plv8.cc:705-726 | the kept positions are in range, strictly increasing and all IN, INOUT or VARIADIC |
| ProcCache.InputPositionsExact | plv8.cc:705-726 | a position is kept exactly when its mode is IN, INOUT or VARIADIC |
| ProcCache.NoModesKeepsAll | plv8.cc:709 | without a mode array every argument is kept, in order |
| ProcCache.CompactInputArgs | plv8.cc:705-726 | the loop collects the input-argument types in order, moves the input names to the front of the name array, and leaves the rest of that array as it was |
| ProcCache.RefillArgs | plv8.cc:705-726 | the compaction loop computes the functional filter the lookup uses |
| ProcCache.FirstPseudoArg | plv8.cc:686-697 | the position found holds a pseudo type and no earlier one does; none is found only when no argument has a pseudo type |
| ProcCache.GetProc | plv8.cc:624-660 | a missing row fails with "cache lookup failed for function N"; a handle is reused exactly when the entry has one and its xmin, tid and user all match, and then nothing changes; otherwise the entry's handle is released and the entry refilled; only this entry ever changes |
| ProcCache.Refill | plv8.cc:644-726 | only this entry changes; it is left without a function; the handle it held is the one released; success hands back the argument names, with the source and the current fingerprint stored |
| ProcCache.RefillErrors | plv8.cc:666-696 | a missing source fails with "null prosrc"; otherwise the refill fails exactly when validating finds a pseudo-type argument, input or output, and names the first one |
| ProcCache.RefillContents | plv8.cc:666-726 | a successful refill stores the source, the current xmin, tid and user, the name cut to NAMEDATALEN, the return information and the input-argument types in order, and compacts the input names to the front |
| ProcCache.FingerprintChangeForcesRecompile | plv8.cc:640-654 | a change of xmin, tid or user makes the lookup release the handle and empty the entry |
| ProcCache.RefillThenReuse | plv8.cc:640-682 | once a refilled entry receives a handle, the next lookup for the same row and user reuses it and releases nothing |
| Namespaces.FindContext | plv8.cc:986-994 | the lookup finds nothing exactly when no entry has the user, and otherwise returns a context registered for the user |
| Namespaces.GetGlobalContext | plv8.cc:980-1041 | an existing context is returned unchanged; otherwise a new one is appended first and then returned, unless the start-up procedure fails, whose failure is returned with the context still registered |
| Namespaces.SecondLookupReuses | plv8.cc:995-1038 | after any lookup the user has a context, and a second lookup returns it without running the start-up procedure, even after a failed start-up |
| Namespaces.LookupKeepsUsersUnique | plv8.cc:986-1012 | lookups keep one context per user and never change another user's context |
| Namespaces.DistinctUsersDistinctContexts | plv8.cc:95-98 | in a pool whose contexts are distinct, two different users never resolve to the same context |
| Namespaces.LookupKeepsContextsDistinct | plv8.cc:995-1012 | a lookup only appends, and only a context handle not handed out before; contexts stay distinct, so after any lookup two different users never share a context |
| ExecEnvs.NewExecEnv | plv8.cc:190-206 | a new empty environment is pushed in front of the unchanged list |
| ExecEnvs.RecvObjectsNoDup | plv8.cc:169-188 | environments holding distinct receivers yield a release list without repeats |
| ExecEnvs.XactCallback | plv8.cc:169-188 | the loop releases exactly the receivers the environments hold, each once when they are distinct, and empties the registry |
| Backend.CompileFunction | plv8.cc:803-867 | the user's context is obtained first; a trigger with arguments then fails; on success the fresh handle is stored in the entry, and, when no start-up procedure is compiled along the way, nothing else changes |
| Backend.Compile | plv8.cc:772-801 | a missing row fails with nothing changed; an up-to-date entry returns its handle and changes nothing; the environments are never touched; success leaves the handle in the entry with the current fingerprint |
| Backend.CompileTouchesOnly | plv8.cc:772-801 | when no start-up procedure is compiled along the way, a compile changes no cache entry but its own |
| Backend.CompileReleases | plv8.cc:772-801 | a compile releases the entry's stale handle, and no other |
| Backend.CompileOutcome | plv8.cc:772-801 | a compile that does not reuse the entry hands out a handle never handed out before, and on failure leaves the entry without a function |
| Backend.CompileTwice | plv8.cc:791-798 | two compiles with no catalog change in between give the same handle, and the second changes nothing |
| Backend.CreateExecEnv | plv8.cc:740-770 | a new environment is pushed; on success it holds a fresh receiver bound to the function and the user's context; on failure it stays empty |
| Backend.ValidateReturnType | plv8.cc:572-592 | a pseudo return type is accepted exactly for TRIGGER, RECORD, VOID and for OPAQUE without arguments; only TRIGGER and argument-less OPAQUE mark a trigger; any other is refused with "PL/v8 functions cannot return type X" |
| Backend.CallValidator | plv8.cc:561-608 | a missing row or a refused return type fails with nothing changed; success compiles the function and pushes an environment bound to it |
| Backend.ValidatorRejectsPseudoArgument | plv8.cc:686-697 | when the entry must be refilled, the validator refuses a pseudo-type argument, naming the first one |
| Backend.EndTransaction | plv8.cc:169-188 | every receiver is released, the registry is emptied, and no handle is then released twice |
| Backend.DropEntryKeepsValid | plv8.cc:645-654 | releasing a stale entry's handle never releases a handle twice or one still held |
| Backend.CompileKeepsValid | plv8.cc:772-801 | compiling keeps every live handle owned once and never released |
| Backend.StoreFreshKeepsValid | plv8.cc:791-798 | storing a never-handed-out handle in an empty entry keeps the handle invariant |
| Backend.AdvanceKeepsValid | plv8.cc:995-1011 | moving the handle counter forward, registering new distinct contexts below it, keeps the handle invariant |
| Backend.CompileFunctionKeepsValid | plv8.cc:791-798 | storing a newly compiled handle keeps the handle invariant |
| Backend.CreateExecEnvKeepsValid | plv8.cc:740-770 | creating an environment keeps the handle invariant |
| Backend.CreateExecEnvKeepsPool | plv8.cc:740-770 | creating an environment keeps every context handed out, never released, distinct from every other context and from every function and receiver handle |
| Backend.CallValidatorKeepsValid | plv8.cc:561-608 | validating keeps the handle invariant |

## Left out

- The call handler and the inline handler (`plv8_call_handler`, `plv8_inline_handler`), `fn_extra` caching and `CallFunction`. They only dispatch to the modelled operations.
- `DoCall`: SPI connect and finish around a call, and the engine call itself. A script run is given as the sequence of `return_next` calls and nested set-returning calls it makes, plus how it ends. Its failure is captured as `js_error(try_catch)` at line 285, which is modelled.
- SetReturning.RunSteps: the code that turns a failed query or a failed `return_next` into an engine exception lives outside `plv8.cc`. Each step therefore says whether the script catches the failure (`Caught`) or which exception then escapes the script (`Escapes(ex)`); the exception's text and location are parameters.
- `plv8.return_next`: its code lives outside `plv8.cc`. It is modelled as "convert with the ambient converter and append to the ambient store". When the slots are empty, the failure text "return_next called in context that cannot return a set" is an assumed wording.
- `find_js_function` and `find_js_function_by_name`. The start-up procedure is an outcome parameter. Code it runs (nested calls, new environments) is not modelled.
- V8 itself: script compilation and running, handle scopes, `TryCatch`, the dispose mechanics, object templates and `SetupPlv8Functions`. Compilation is the `engine` parameter.
- The `CreateTupleStore` checks are modelled as two flags (`SetContext`). The result-type lookup and descriptor copying are not modelled.
- Scalar datum/value conversion (`::ToValue`, `::ToDatum`, `plv8_fill_type`): its code is not part of this model. A non-null datum is its script value.
- `_PG_init`, GUC registration, the global-object template constants and the `PG_MODULE_MAGIC` boilerplate.
- Trigger events are modelled decoded (operation, level, timing), not as the `tg_event` bit mask. A row-level TRUNCATE, which the host never fires, is excluded by `Trigger.WellFormed`. This also excludes the "?" TG_OP branch, which no decoded event reaches.
- Message translation (`_()`) is taken to be the identity.
- SetReturning.RunSrf: each role's global context has its own `plv8` object and so its own pair of ambient fields. The model keeps one pair and takes every nested set-returning call to run in its caller's context. A nested call in another role's context, such as a SECURITY DEFINER function, neither saves nor overwrites the caller's fields in the source, and that case is not modelled.
- Backend.CompileFunction: when the user has no context yet and a start-up procedure is configured, `find_js_function_by_name` compiles that procedure through `Compile`, which can refill its cache entry and release its old handle. The start-up procedure is modelled only by how it ends (`Startup`), so the effect on its own cache entry is not modelled. "Nothing else changes" holds only when no start-up procedure is compiled.
- Backend.CompileTouchesOnly: holds only when no start-up procedure is compiled during the call, for the reason given for `Backend.CompileFunction`.
- Convert.GetProperty: reads only the object's own properties (and an array's `length` and indices). The engine's `Get` also walks the prototype chain, so for an attribute named `constructor`, `toString`, `valueOf` or the like, an object without that own property yields the inherited function, not `undefined`. The model makes that column null.
- ErrorBridge.Rethrow: a host error's hint, context and SQLSTATE are not modelled. Only its message and detail pass through, unchanged.
- ErrorBridge.CaptureException: a nested failure after the message was read, while the detail is built, is not modelled. Only a failure while reading the message is.
- Convert.RowToObject: the engine lists integer-like property names before all others, in numeric order. The model's property order is plain insertion order, which differs only for attribute names such as "1".
- ProcCache.CopyName: truncates by characters, whereas the source truncates by bytes. This differs only for names with multi-byte characters.
- ProcCache.Refill: the argument names come from the host already split into present and absent names. An empty name string in the catalog is not modelled.
- ProcCache.Refill: a freshly entered entry's uninitialised fields are modelled as the blank entry. The fields written before a validation error are modelled. The argument types are not yet rewritten at that point and keep their previous values.
- The `plv8_proc` descriptor that `plv8_get_proc` allocates (lines 729-735) only carries per-argument type information for scalar conversion, so it is not modelled.

## Findings

| source | as written | input that shows it | evidently intended | confidence | as-written member | corrected member |
|---|---|---|---|---|---|---|
| plv8.cc:401-408 | the ambient converter and tuple-store slots are restored only when `DoCall` returns; if the script throws, the restore lines are skipped | an outer set-returning call runs a query that calls an inner set-returning function in the same global context (same role), which throws; the outer script catches the error and calls `plv8.return_next` | the slots are restored on every exit, so the outer call's rows go to its own store | medium, not executed | SetReturning.CaughtNestedFailureMisroutesRows | SetReturning.RunSrfFrame |

The model runs `SetReturning.RunSrf` with `restoreOnThrow = false` for the
code as written (`SetReturning.ThrowLeavesSlotsSet`) and with `true` for the
corrected behaviour, whose stack discipline `SetReturning.RunSrfFrame` proves.
What both share, a normal return that restores the slots and no write to an
older store, is `SetReturning.RunSrfEitherMode`.
