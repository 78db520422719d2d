# Asteria runtime core, modelled in Dafny

This project models the core of the Asteria script runtime (C++) and proves properties of
the model. Each module follows one component:

- `Values` (value.dfy): the script `Value`, a tagged union over nine alternatives, with
  `type()`, `opt<T>()` and `check<T>()`.
- `Variant` (variant.dfy): `rocket::variant`, a class holding one live alternative, with
  its constructors, accessors and the three assignment strategies (in place, rebuild,
  backup and restore).
- `References` (reference.dfy): reference roots (`dereference_const`,
  `dereference_mutable`, `enumerate_variables`, `dispose_variable`), the modifier chain
  (reads, writes, `unset`) and a `Reference` class. The session of test/reference.cpp is
  replayed as lemmas and methods.
- `AvmcQueue` (avmc_queue.dfy): the AVMC queue, a class over the nodes it holds. It
  covers headers, sizes, reservation and growth, trivial and non-trivial appends,
  `execute`, `enumerate_variables`, `reload`, `clear`, `shrink_to_fit` and `swap`.
- `AirStatus` (status.dfy): the status codes that nodes return.
- `Statements` (statement.dfy): how statement lists, branches, `switch`, `while`,
  `do ... while`, `for` and `for each` run their blocks, and which statuses each consumes.
  It also covers how `break`, `continue` and `return` lower to status codes, the
  reserved-name check and the conversion of a result to a temporary.
- `Crc32` (crc32.dfy): the CRC-32 table, `Hasher::write`, `Hasher::finish` and
  `std.checksum.crc32`.
- `Streambuf` (streambuf.dfy): `basic_insertable_streambuf`, a stream buffer over a
  string with an insertion caret.
- `Enums` (enums.dfy): `describe_xop`.

Some code around the core is passed in as function parameters:
- the executors, enumerators and payload constructors of the queue;
- what each AIR node does when it is solidified;
- what statement nodes and expressions do to the executive context.

Each operation follows the source's branches and error cases. What those parameters
return is taken as given; the exceptions they may raise are modelled where "## Left out"
does not say otherwise.

## Model

| member | source | states |
|---|---|---|
| Values.AlternativeIndex | asteria/src/value.hpp:29-40 | the index of a value's alternative is below nine |
| Values.TypeFromIndex | asteria/src/value.hpp:17-28 | `static_cast<Type>(k)` is the enumerator whose code is `k` |
| Values.TypeCode | asteria/src/value.hpp:17-28 | each `Type` enumerator's code is below the alternative count; `TypeCodeInjective` and `TypeFromIndex` make it a bijection |
| Values.TypeOf | asteria/src/value.hpp:71-74 | `type()` reads the active alternative as a `Type`; `TypeMatchesVariantIndex` proves it agrees with the index |
| Values.CompareCode | asteria/src/value.hpp:42-48 | the numeric values of `Value::Compare`, `compare_unordered` 0 to `compare_greater` 3 |
| Values.DefaultValue | asteria/src/value.hpp:54-57 | `Value()` holds null, alternative 0 |
| Values.Opt | asteria/src/value.hpp:75-84 | `opt<T>()` gives the value exactly when its type is `T` |
| Values.Check | asteria/src/value.hpp:85-94 | `check<T>()` succeeds exactly when the type is `T`; otherwise it fails with the expected and actual index |
| Values.TypeMatchesVariantIndex | asteria/src/value.hpp:71-74 | `type()` equals the variant index, and each type corresponds to exactly one alternative |
| Values.TypeCodeInjective | asteria/src/value.hpp:17-28 | distinct `Type` enumerators have distinct codes |
| Values.MakeVariant | asteria/src/value.hpp:58-62 | a value stored in a variant reads back through `index()`, `get()` and `as()` as `type()`, `opt()` and `check()` |
| Variant.Variant.Default | asteria/rocket/variant.hpp:60-69 | the default constructor makes alternative 0 live |
| Variant.Variant.Converting | asteria/rocket/variant.hpp:71-83 | the converting constructor makes the argument's alternative live |
| Variant.Variant.CopyOf | asteria/rocket/variant.hpp:85-107 | copy and move construction keep the index and the value |
| Variant.Variant.Index | asteria/rocket/variant.hpp:252-258 | `index()` is below the alternative count and tags the stored value |
| Variant.Variant.Get | asteria/rocket/variant.hpp:269-306 | `get<I>()` is null exactly when `I` is not the active index |
| Variant.Variant.As | asteria/rocket/variant.hpp:308-344 | `as<I>()` fails with an index mismatch exactly when `get<I>()` is null |
| Variant.Variant.AssignCopy | asteria/rocket/variant.hpp:110-147 | copy assignment works in place for the same alternative; a throwing in-place assignment keeps the index and leaves what the assignment left. Otherwise it rebuilds when the copy cannot throw, else uses a backup, and a throwing copy leaves the old value |
| Variant.Variant.AssignMove | asteria/rocket/variant.hpp:150-170 | move assignment leaves the argument's alternative; only the in-place move assignment can throw, and it keeps the index and leaves what the assignment left |
| Variant.Variant.AssignFrom | asteria/rocket/variant.hpp:172-207 | assigning from a variant follows the same three paths. It leaves `other`'s alternative; a throwing `dispatch_copy_assign` keeps the index, and a throwing copy on the backup path leaves the old value |
| Variant.Variant.MoveFrom | asteria/rocket/variant.hpp:209-226 | move-assigning a variant takes `other`'s index and value; only the in-place `dispatch_move_assign` can throw, and it keeps the index and leaves what the assignment left |
| Variant.Variant.Emplace | asteria/rocket/variant.hpp:366-397 | `emplace<I>` makes `I` live; when the constructor throws, the old index and value are kept |
| Variant.Variant.Swap | asteria/rocket/variant.hpp:408-430 | `swap` exchanges indices and values, in place when they agree. Only the in-place swap can throw, and it keeps both indices and leaves what the swap left |
| References.Variable.constructor | asteria/src/runtime/reference_root.cpp:113 | a variable holds its value and its immutability flag |
| References.Variable.Reset | asteria/src/runtime/reference_root.cpp:113 | `reset` replaces the value and the flag |
| References.DereferenceConst | asteria/src/runtime/reference_root.cpp:16-41 | null and a moved-from variable read null; a constant, temporary or variable reads its value |
| References.DereferenceMutable | asteria/src/runtime/reference_root.cpp:43-68 | only a live, mutable variable can be written; each other root fails with its own error |
| References.EnumerateVariables | asteria/src/runtime/reference_root.cpp:70-98 | a variable root offers its variable, and descends into it only when the callback accepts it; constants and temporaries descend into their values |
| References.Collector.UntrackVariable | asteria/src/runtime/reference_root.cpp:110 | untracking succeeds exactly for a tracked variable and removes it |
| References.DisposeVariable | asteria/src/runtime/reference_root.cpp:100-121 | a variable used at most twice that could be untracked is wiped to an immutable null; nothing else changes |
| References.Nulls | test/reference.cpp:33-36 | the padding a write creates is all nulls |
| References.ElementAt | test/reference.cpp:44-58 | an index names a slot counted from the front, or from the end when negative; outside the array there is nothing |
| References.Extend | test/reference.cpp:33-41 | a write past either end pads with nulls, prepending for negative indices, and keeps the old elements |
| References.ReadStep | test/reference.cpp:44-60 | one read step: null gives nothing, a missing element gives nothing, a parent of the wrong kind is a type error; `WriteFailsIffReadFails` ties it to writes |
| References.ReadPath | test/reference.cpp:44-58 | `read()` below a root value; `WriteThenRead` and `ReadNull` state what it returns |
| References.WritePath | test/reference.cpp:32-51 | `open() = x` below a root value, creating containers and padding; its partner is `WriteThenRead` |
| References.EraseStep | test/reference.cpp:63-69 | the last step of `unset()` removes the element and returns it, or null when there is none |
| References.UnsetPath | test/reference.cpp:63-69 | `unset()` below a root value; `UnsetReturnsRead` and `UnsetMemberThenRead` state its result |
| References.WriteThenRead | test/reference.cpp:36-51 | after a successful write, reading the same path gives the value written |
| References.ReadNull | test/reference.cpp:33-47 | every path below null reads null |
| References.WriteIntoNullSucceeds | test/reference.cpp:32-36 | writing below null never fails |
| References.WriteFailsIffReadFails | test/reference.cpp:59-60 | a write fails exactly when a read along the same path fails |
| References.UnsetReturnsRead | test/reference.cpp:63-69 | `unset` returns what `read` would, and fails exactly when it does |
| References.UnsetMemberThenRead | test/reference.cpp:63-67 | after `unset`, the same path reads null |
| References.ReplaceThenReadStep | test/reference.cpp:36-41 | replacing a child and stepping into it gives the new child |
| References.Reference.constructor | test/reference.cpp:11 | a new reference has its root and no modifiers |
| References.Reference.Copy | test/reference.cpp:16-19 | a copy has the same root and modifiers |
| References.Reference.SetRoot | test/reference.cpp:22 | assigning a root drops the modifiers |
| References.Reference.ZoomIn | test/reference.cpp:33 | `zoom_in` pushes a modifier |
| References.Reference.ZoomOut | test/reference.cpp:37 | `zoom_out` pops a modifier; with none left the reference becomes null |
| References.Reference.Read | test/reference.cpp:12 | `read` reads the path from the root's value |
| References.Reference.Open | test/reference.cpp:15-36 | `open() = x` writes the path inside a mutable variable, or fails and changes nothing |
| References.Reference.Unset | test/reference.cpp:63-69 | `unset` removes the last element and returns it, or fails and changes nothing |
| References.NegativeIndexExample | test/reference.cpp:32-41 | index -3 of null reads null; writing 36 there gives `[36, null, null]`, and index 0 reads 36 |
| References.NestedKeyExample | test/reference.cpp:44-60 | the nested key reads null, then 10.5 through index 2 and through index -1. A key below a real is a type error |
| References.UnsetExample | test/reference.cpp:63-69 | `unset` returns 10.5, the key then reads null, and a second `unset` returns null |
| References.SessionConstantAndTemporary | test/reference.cpp:11-30 | a constant and a temporary read back their values and refuse `open` with their own errors |
| References.SessionNegativeIndex | test/reference.cpp:32-42 | the variable's value after the first writes, and the values read back |
| References.SessionNestedKey | test/reference.cpp:44-53 | the nested write and the reads around it |
| References.SessionReread | test/reference.cpp:54-61 | reading through index -1, and the refused key below a real |
| References.SessionUnset | test/reference.cpp:63-69 | the two `unset` calls and the read between them |
| AvmcQueue.UparamOf | asteria/src/llds/avmc_queue.cpp:46-50 | `uparam()` returns the stored 48 bits behind the lead `0xDEAD` |
| AvmcQueue.MvctorOpt | asteria/src/llds/avmc_queue.cpp:26-29 | `mvctor_opt()` is null for a node without a vtable; `TrivialNodeFields` and `NontrivialNodeFields` give its value |
| AvmcQueue.DtorOpt | asteria/src/llds/avmc_queue.cpp:31-34 | `dtor_opt()` is null for a node without a vtable; `DtorCalls` calls it for each node |
| AvmcQueue.ExecutorOf | asteria/src/llds/avmc_queue.cpp:36-39 | `executor()` is the vtable's executor or the bare one; `TrivialNodeFields` and `NontrivialNodeFields` state which |
| AvmcQueue.VnumOpt | asteria/src/llds/avmc_queue.cpp:41-44 | `vnum_opt()` is null for a node without a vtable; `EnumerateNodes` calls it for each node |
| AvmcQueue.SymbolSizeInHeaders | asteria/src/llds/avmc_queue.cpp:63-67 | symbols take headers exactly when the node has them, and never more than `sizeof(Symbols)` rounded up to headers |
| AvmcQueue.TotalSize | asteria/src/llds/avmc_queue.cpp:74-78 | a node takes at least its header |
| AvmcQueue.Nphdrs | asteria/src/llds/avmc_queue.cpp:157-159 | the payload's size in headers, rounded up; `NphdrsIsCeiling` proves it |
| AvmcQueue.Footprint | asteria/src/llds/avmc_queue.cpp:74-78 | the headers a run of nodes takes, which `m_used` tracks; see `FootprintPrefix` and `FootprintZero` |
| AvmcQueue.Reserve | asteria/src/llds/avmc_queue.cpp:149-179 | the reservation `do_reserve_one` makes; `ReserveLeavesRoom` states when it succeeds and what it leaves |
| AvmcQueue.TrivialNode | asteria/src/llds/avmc_queue.cpp:181-204 | the node `do_append_trivial` accepts; `TrivialNodeFields` states what its header reports |
| AvmcQueue.NontrivialNode | asteria/src/llds/avmc_queue.cpp:206-229 | the node `do_append_nontrivial` accepts; `NontrivialNodeFields` states what its header reports |
| AvmcQueue.DtorCalls | asteria/src/llds/avmc_queue.cpp:81-102 | the destructor calls of `do_destroy_nodes`, in node order; see `DtorCallsConcat` |
| AvmcQueue.RunNodes | asteria/src/llds/avmc_queue.cpp:247-271 | what `execute` does over a run of nodes; see `RunNodesConcat`, `RunStopsAtFirst` and `ExceptionLeavesRun` |
| AvmcQueue.EnumerateNodes | asteria/src/llds/avmc_queue.cpp:273-287 | what `enumerate_variables` does over a run of nodes; see `EnumerateSkipsTrivial` |
| AvmcQueue.Requests | asteria/src/llds/avmc_queue.cpp:231-245 | the appends `reload` asks for, up to the first AIR node that declines; see `RequestsStopAt` |
| AvmcQueue.NphdrsIsCeiling | asteria/src/llds/avmc_queue.cpp:153-159 | below `nbytes_max`, `nphdrs` is the rounded-up header count and fits a byte |
| AvmcQueue.FootprintSnoc | asteria/src/llds/avmc_queue.cpp:87-88 | walking one more node adds its total size |
| AvmcQueue.FootprintAppend | asteria/src/llds/avmc_queue.cpp:203 | accepting a node adds its total size to `m_used` |
| AvmcQueue.FootprintPrefix | asteria/src/llds/avmc_queue.cpp:254-255 | the walk by node sizes stays inside the used headers |
| AvmcQueue.FootprintZero | asteria/src/llds/avmc_queue.hpp:184-187 | no headers are used exactly when there are no nodes |
| AvmcQueue.BitOrBounds | asteria/src/llds/avmc_queue.cpp:169 | `nadd \|= used * 4` never reserves less than asked, nor more than the sum |
| AvmcQueue.ReserveLeavesRoom | asteria/src/llds/avmc_queue.cpp:104-179 | a reservation succeeds exactly when the payload fits `nbytes_max` and the grown block fits `nhdrs_max`. It then leaves room for the node and never shrinks the block |
| AvmcQueue.GrowthCanRefuseFittingNode | asteria/src/llds/avmc_queue.cpp:166-171 | the growth policy can reject a one-header node that would still fit under `nhdrs_max` |
| AvmcQueue.TrivialNodeFields | asteria/src/llds/avmc_queue.cpp:181-204 | a trivial node reports its executor, user data and size, and has no vtable entries |
| AvmcQueue.NontrivialNodeFields | asteria/src/llds/avmc_queue.cpp:206-229 | a non-trivial node reports its vtable's entries, user data and size |
| AvmcQueue.GetVtable | asteria/src/llds/avmc_queue.hpp:117-153 | the move constructor is omitted exactly for trivially movable payloads, and the destructor exactly for trivially destructible ones |
| AvmcQueue.DtorCallsConcat | asteria/src/llds/avmc_queue.cpp:81-102 | destroying two runs of nodes is destroying each in turn |
| AvmcQueue.NoDtorCallsForTrivialPayloads | asteria/src/llds/avmc_queue.cpp:91-92 | nodes without a destructor cause no destructor call |
| AvmcQueue.WithFrame | asteria/src/llds/avmc_queue.cpp:262-265 | an error raised by a node gains one frame for the node's symbols, if it has any |
| AvmcQueue.RunNodesConcat | asteria/src/llds/avmc_queue.cpp:247-271 | running two runs of nodes runs the second only when the first ends with `next` |
| AvmcQueue.RunStopsAtFirst | asteria/src/llds/avmc_queue.cpp:267-268 | once a run stops, nothing after it is executed |
| AvmcQueue.ExceptionLeavesRun | asteria/src/llds/avmc_queue.cpp:257-264 | an exception from a node after a run of `next` ends the run on that node's context: a `Runtime_Error` with exactly that node's frame added, any other exception unchanged |
| AvmcQueue.EnumerateSkipsTrivial | asteria/src/llds/avmc_queue.cpp:283-284 | nodes without an enumerator are skipped |
| AvmcQueue.RequestNodes | asteria/src/llds/avmc_queue.cpp:238-240 | each solidify request adds one node |
| AvmcQueue.RequestsStopAt | asteria/src/llds/avmc_queue.cpp:238-240 | solidifying stops at the first AIR node that declines to continue |
| AvmcQueue.RequestNodesConcat | asteria/src/llds/avmc_queue.cpp:238-240 | the nodes of two runs of requests are the nodes of each run, in order |
| AvmcQueue.RequestNodesInOrder | asteria/src/llds/avmc_queue.cpp:238-240 | each request contributes its own node, at its own position |
| AvmcQueue.Queue.constructor | asteria/src/llds/avmc_queue.hpp:77-80 | a new queue has no block and no nodes |
| AvmcQueue.Queue.Moved | asteria/src/llds/avmc_queue.hpp:82-84 | moving takes over the other queue's block and leaves it empty |
| AvmcQueue.Queue.Empty | asteria/src/llds/avmc_queue.hpp:184-187 | `empty()` holds exactly when there are no nodes |
| AvmcQueue.Queue.Swap | asteria/src/llds/avmc_queue.hpp:211-219 | `swap` exchanges blocks, reserved and used counts |
| AvmcQueue.Queue.DestroyNodes | asteria/src/llds/avmc_queue.cpp:81-102 | the destructor calls are those of the nodes, in order |
| AvmcQueue.Queue.Clear | asteria/src/llds/avmc_queue.hpp:189-199 | `clear` destroys every node and keeps the block |
| AvmcQueue.Queue.Reallocate | asteria/src/llds/avmc_queue.cpp:104-147 | the block grows by `nadd` unless that passes `nhdrs_max` (`bad_array_new_length`). The nodes are kept |
| AvmcQueue.Queue.ShrinkToFit | asteria/src/llds/avmc_queue.hpp:201-209 | afterwards the reserved size equals the used size, and the nodes are kept |
| AvmcQueue.Queue.ReserveOne | asteria/src/llds/avmc_queue.cpp:149-179 | rejects oversized payloads and grows the block as `Reserve` says |
| AvmcQueue.Queue.Accept | asteria/src/llds/avmc_queue.cpp:203-228 | appends the node and adds its size to `m_used` |
| AvmcQueue.Queue.AppendTrivialNode | asteria/src/llds/avmc_queue.cpp:181-204 | appends a bare-executor node with copied or zeroed payload, or fails and changes nothing |
| AvmcQueue.Queue.AppendNontrivialNode | asteria/src/llds/avmc_queue.cpp:206-229 | appends a vtable node with a constructed or zeroed payload. A throwing constructor appends nothing |
| AvmcQueue.Queue.AppendTrivial | asteria/src/llds/avmc_queue.hpp:224-284 | the `append_trivial` overloads and `append<execT, nullptr>` append a bare-executor node whose payload is copied from the source or zero-filled, with the block as `Reserve` leaves it; on failure nothing changes |
| AvmcQueue.Queue.Append | asteria/src/llds/avmc_queue.hpp:286-342 | trivial payloads get a bare-executor node holding their bytes; others get the whole vtable of `do_get_vtable`. A throwing payload constructor appends nothing but keeps the grown block |
| AvmcQueue.Queue.Execute | asteria/src/llds/avmc_queue.cpp:247-271 | `execute` returns what `RunNodes` gives for the nodes: a `Runtime_Error` gains the node's frame, any other exception passes through unchanged |
| AvmcQueue.Queue.EnumerateVariables | asteria/src/llds/avmc_queue.cpp:273-287 | calls every node's enumerator in order |
| AvmcQueue.Queue.Reload | asteria/src/llds/avmc_queue.cpp:231-245 | afterwards the nodes are those the AIR nodes request, up to the first that declines, and the block is shrunk; a failing append leaves a proper prefix of those nodes |
| AvmcQueue.Queue.SolidifyAll | asteria/src/llds/avmc_queue.cpp:238-240 | appends the requested nodes in order; on failure the queue holds a proper prefix of them |
| AvmcQueue.Queue.Perform | asteria/src/llds/avmc_queue.hpp:224-342 | carries out one append request; a failed append changes no node |
| AvmcQueue.Queue.PerformAll | asteria/src/llds/avmc_queue.hpp:224-342 | carries out the append requests in order; on failure the queue holds a proper prefix of their nodes |
| Statements.CheckName | asteria/src/syntax/statement.cpp:21-34 | an empty name is not bound; a `__` name is an error; any other name is bound |
| Statements.IsReserved | asteria/src/syntax/statement.cpp:27 | a name is reserved when it starts with `__`; `CheckName` rejects exactly those |
| Statements.SafeSetNamedReference | asteria/src/syntax/statement.cpp:21-34 | reserved names are refused and empty names ignored, changing nothing. Other names are recorded, if asked, and bound |
| Statements.Inject | asteria/src/syntax/statement.cpp:255-256 | binding a list of names fails exactly when one of them is reserved |
| Statements.StatementList | asteria/src/syntax/statement.cpp:60-67 | a statement list's outcome; `StatementListConcat` and `StatementListStopsAtFirst` state it |
| Statements.While | asteria/src/syntax/statement.cpp:308-331 | the outcome of `while`; see `WhileConsumesItsJumps` and `WhileFuelMonotone` |
| Statements.DoWhile | asteria/src/syntax/statement.cpp:281-306 | the outcome of `do ... while`; see `DoWhileConsumesItsJumps` and `DoWhileFuelMonotone` |
| Statements.ForLoop | asteria/src/syntax/statement.cpp:344-364 | the loop of `for` after its initializer; see `ForConsumesItsJumps` and `ForFuelMonotone` |
| Statements.For | asteria/src/syntax/statement.cpp:333-365 | `for`: the initializer's status is discarded and an empty condition is true; see `EmptyConditionNeverEnds` |
| Statements.ForEach | asteria/src/syntax/statement.cpp:367-437 | the outcome of `for each`; see `ForEachConsumesItsJumps` and `ForEachRefusesOtherRanges` |
| Statements.ForEachFrom | asteria/src/syntax/statement.cpp:385-432 | the iterations of `for each` from one element on: a break for the loop ends it with `next`, a continue or `next` moves on, any other status leaves; see `IterationVisitsEveryElement` |
| Statements.FindClause | asteria/src/syntax/statement.cpp:222-258 | the first loop of `switch`; see `FindClauseStartsTriple` and `SecondDefaultIsAnError` |
| Statements.RunClauses | asteria/src/syntax/statement.cpp:260-277 | the second loop of `switch`; see `RunClausesConsumesBreaks` |
| Statements.Select | asteria/src/syntax/statement.cpp:209-279 | the outcome of `switch`; see `SelectConsumesBreaks` and `NoMatchNoDefaultIsNext` |
| Statements.BreakStatus | asteria/src/syntax/statement.cpp:704-735 | the status a `break` lowers to, by target; `BreakReachesItsTarget` states who catches it |
| Statements.ContinueStatus | asteria/src/syntax/statement.cpp:736-766 | the status a `continue` lowers to, by target, none for `switch`; see `ContinueReachesItsTarget` |
| Statements.ReturnCode | asteria/src/syntax/statement.cpp:781-799 | the code `return` lowers to; `ReturnCodeReturns` states what it does |
| Statements.StatementListConcat | asteria/src/syntax/statement.cpp:60-67 | a statement list runs its second part only when its first part ends with `next` |
| Statements.StatementListStopsAtFirst | asteria/src/syntax/statement.cpp:60-67 | the first non-`next` status is the result, and nothing after it runs |
| Statements.ExecuteStatementList | asteria/src/syntax/statement.cpp:60-67 | the loop returns what `StatementList` gives |
| Statements.ExecuteBranch | asteria/src/syntax/statement.cpp:185-207 | runs the true block exactly when `test != negative`, and returns the block's status unchanged |
| Statements.ExecuteWhile | asteria/src/syntax/statement.cpp:308-331 | the loop returns what `While` gives |
| Statements.ExecuteDoWhile | asteria/src/syntax/statement.cpp:281-306 | the loop returns what `DoWhile` gives |
| Statements.ExecuteFor | asteria/src/syntax/statement.cpp:333-365 | the loop returns what `For` gives |
| Statements.WhileConsumesItsJumps | asteria/src/syntax/statement.cpp:308-331 | `while` returns `next` or a status other than `break_unspec`, `break_while`, `continue_unspec` and `continue_while` |
| Statements.DoWhileConsumesItsJumps | asteria/src/syntax/statement.cpp:281-306 | the same for `do ... while` |
| Statements.ForConsumesItsJumps | asteria/src/syntax/statement.cpp:344-364 | `for` returns `next` or a status other than `break_unspec`, `break_for`, `continue_unspec` and `continue_for` |
| Statements.WhileFuelMonotone | asteria/src/syntax/statement.cpp:315-329 | a finished `while` gives the same outcome under any larger iteration bound |
| Statements.DoWhileFuelMonotone | asteria/src/syntax/statement.cpp:289-304 | the same for `do ... while` |
| Statements.ForFuelMonotone | asteria/src/syntax/statement.cpp:344-363 | the same for `for` |
| Statements.EmptyConditionNeverEnds | asteria/src/syntax/statement.cpp:345-351 | an empty `for` condition is true: with a body that always ends with `next`, the loop never finishes |
| Statements.Elements | asteria/src/syntax/statement.cpp:384-435 | iterating fails exactly for ranges that are neither arrays nor objects, and names the range's type |
| Statements.IterationVisitsEveryElement | asteria/src/syntax/statement.cpp:385-432 | each iteration's key and modifier address an existing element. Every array element, and every object member, gets an iteration |
| Statements.ExecuteForEach | asteria/src/syntax/statement.cpp:367-437 | the loops return what `ForEach` gives |
| Statements.ForEachConsumesItsJumps | asteria/src/syntax/statement.cpp:399-429 | `for each` returns `next` or a status it does not consume |
| Statements.ForEachRefusesOtherRanges | asteria/src/syntax/statement.cpp:433-435 | a range of any other type is an error naming its type |
| Statements.SwitchParams | asteria/src/syntax/statement.cpp:627-634 | the clauses are laid out three arguments each |
| Statements.SwitchParamsAreTriples | asteria/src/syntax/statement.cpp:627-634 | the layout is made of triples, and triple `j` holds clause `j`'s label, body and names |
| Statements.FindClauseStartsTriple | asteria/src/syntax/statement.cpp:222-258 | the selected clause is the start of a triple |
| Statements.ExecuteSelect | asteria/src/syntax/statement.cpp:209-279 | the two loops return what `Select` gives |
| Statements.RunClausesConsumesBreaks | asteria/src/syntax/statement.cpp:260-277 | falling through the clauses never returns `break_unspec` or `break_switch` |
| Statements.SelectConsumesBreaks | asteria/src/syntax/statement.cpp:209-279 | a `switch` never returns `break_unspec` or `break_switch` |
| Statements.NoMatchNoDefaultSelectsNothing | asteria/src/syntax/statement.cpp:222-229 | with no matching label and no `default`, no clause is selected |
| Statements.NoMatchNoDefaultIsNext | asteria/src/syntax/statement.cpp:222-229 | such a `switch` yields `next` |
| Statements.SecondDefaultIsAnError | asteria/src/syntax/statement.cpp:222-258 | wherever two `default` clauses stand, a `switch` whose scan reaches the second (no earlier label matches, no earlier name is reserved) fails with the multiple-`default` error |
| Statements.ScanReachesSecondDefault | asteria/src/syntax/statement.cpp:222-258 | the scan passes non-matching `case` clauses and the first `default`, recording it, until it meets the second |
| Statements.DefaultAfterDefaultFails | asteria/src/syntax/statement.cpp:245-250 | meeting a `default` with one already recorded is the multiple-`default` error |
| Statements.BreakReachesItsTarget | asteria/src/syntax/statement.cpp:704-735 | a lowered `break` is caught exactly by the constructs its target names |
| Statements.ContinueReachesItsTarget | asteria/src/syntax/statement.cpp:736-766 | a lowered `continue` is caught exactly by the loops its target names, and passes through every `switch` |
| Statements.ReturnCodeReturns | asteria/src/syntax/statement.cpp:781-799 | the code of `return` ends with the `return` status. It converts to a temporary, just before that, exactly when returning by value |
| Statements.CodeBuffer.GenerateBreak | asteria/src/syntax/statement.cpp:704-735 | appends one node returning the target's break status |
| Statements.CodeBuffer.GenerateContinue | asteria/src/syntax/statement.cpp:736-766 | appends one node returning the target's continue status; a `switch` target is fatal |
| Statements.CodeBuffer.GenerateReturn | asteria/src/syntax/statement.cpp:781-799 | appends the code of `return` |
| Statements.ToTemporary | asteria/src/syntax/statement.cpp:500-510 | the result is a temporary that reads as the original does, and a temporary is left as it is |
| Statements.ToTemporaryIdempotent | asteria/src/syntax/statement.cpp:503-505 | converting twice is converting once |
| Statements.ReferenceStack.ClearStack | asteria/src/syntax/statement.cpp:95-101 | the stack holds a single null reference |
| Statements.ReferenceStack.ExecuteConvertToTemporary | asteria/src/syntax/statement.cpp:500-510 | only the top changes, to its temporary form; a failed read changes nothing |
| Crc32.Iso3309Table | asteria/src/library/bindings_checksum.cpp:23-31 | the table has 256 entries, entry `i` being `Generator<uint8_t(i), 0xEDB88320, 0>` |
| Crc32.TableEntry | asteria/src/library/bindings_checksum.cpp:25 | entry `i` is `Generator<uint8_t(i), 0xEDB88320, 0>`; `TableEntryIsShiftBits` proves it equals the bitwise reference |
| Crc32.Generator | asteria/src/library/bindings_checksum.cpp:17-22 | the rounds of the table generator; `GeneratorIsShiftBits` ties it to the bitwise reference |
| Crc32.TableStep | asteria/src/library/bindings_checksum.cpp:61-63 | one step of the loop in `Hasher::write` |
| Crc32.Update | asteria/src/library/bindings_checksum.cpp:54-66 | the register after `Hasher::write`; `UpdateConcat` proves writes compose |
| Crc32.Index | asteria/src/library/bindings_checksum.cpp:61 | the looked-up slot is below 256 |
| Crc32.Checksum | asteria/src/library/bindings_checksum.cpp:139-144 | the checksum fits in 32 bits |
| Crc32.RoundIsShiftBit | asteria/src/library/bindings_checksum.cpp:17 | the branch-free round is a conditional reduction by the divisor |
| Crc32.GeneratorIsShiftBits | asteria/src/library/bindings_checksum.cpp:17-22 | the generator runs the remaining rounds up to eight |
| Crc32.TableEntryIsShiftBits | asteria/src/library/bindings_checksum.cpp:23-31 | each table entry is its index pushed through eight reductions |
| Crc32.KnownTableEntries | asteria/src/library/bindings_checksum.cpp:31 | entries 0, 1 and 128 are 0, `0x77073096` and `0xEDB88320` |
| Crc32.UpdateSnoc | asteria/src/library/bindings_checksum.cpp:59-64 | each loop step hashes one more byte |
| Crc32.UpdateConcat | asteria/src/library/bindings_checksum.cpp:54-66 | writing `a` then `b` equals writing `a + b` |
| Crc32.ChecksumOfEmpty | asteria/src/library/bindings_checksum.cpp:39-74 | the empty message has checksum 0 |
| Crc32.CheckValue | asteria/src/library/bindings_checksum.cpp:39-74 | the standard CRC-32 check value: "123456789" hashes to 0xCBF43926 |
| Crc32.Hasher.constructor | asteria/src/library/bindings_checksum.cpp:39-42 | the register starts at `UINT32_MAX` |
| Crc32.Hasher.Write | asteria/src/library/bindings_checksum.cpp:54-66 | the register becomes `Update` of the bytes |
| Crc32.Hasher.Finish | asteria/src/library/bindings_checksum.cpp:67-74 | returns the complemented register and resets it |
| Crc32.StdChecksumCrc32 | asteria/src/library/bindings_checksum.cpp:139-144 | returns `Checksum(data)`, below 2^32 |
| Crc32.HashTwice | asteria/src/library/bindings_checksum.cpp:54-74 | two writes then `finish` checksum the concatenation, and the reset hasher starts afresh |
| Streambuf.PutPlacesText | asteria/src/rocket/insertable_streambuf.hpp:126-146 | a write succeeds exactly when the insertion point is in the string and the result fits. The text then lands there and the caret moves past it |
| Streambuf.Put | asteria/src/rocket/insertable_streambuf.hpp:126-146 | `xsputn`'s insert at the caret, or at the end for `npos`; `PutPlacesText` and `PutThenPut` state what it does |
| Streambuf.PutThenPut | asteria/src/rocket/insertable_streambuf.hpp:126-146 | writing `a` then `b` equals writing `a + b`, errors included |
| Streambuf.ReadCount | asteria/src/rocket/insertable_streambuf.hpp:77-90 | `xsgetn` copies `min(n, size)` characters |
| Streambuf.ReadKeepingRepeats | asteria/src/rocket/insertable_streambuf.hpp:77-90 | as written, two one-character reads of "ab" both give "a" |
| Streambuf.ReadKeeping | asteria/src/rocket/insertable_streambuf.hpp:77-90 | `xsgetn` as written: what it hands out is a prefix of the string, and the string is unchanged |
| Streambuf.ReadDiscarding | asteria/src/rocket/insertable_streambuf.hpp:77-90 | `xsgetn` as its comment describes it: what it hands out followed by what stays is the old string |
| Streambuf.ReadDiscardingSplits | asteria/src/rocket/insertable_streambuf.hpp:77-90 | discarding reads split the string: what was copied plus what remains is the string, and reads compose |
| Streambuf.InsertableStreambuf.constructor | asteria/src/rocket/insertable_streambuf.hpp:38-41 | holds the string, the caret and the mode, with no get area |
| Streambuf.InsertableStreambuf.Sync | asteria/src/rocket/insertable_streambuf.hpp:53-62 | erases the characters already read and unsets the get area |
| Streambuf.InsertableStreambuf.ShowManyC | asteria/src/rocket/insertable_streambuf.hpp:64-76 | in in-mode, the number of unread characters; otherwise 0 |
| Streambuf.InsertableStreambuf.XsGetN | asteria/src/rocket/insertable_streambuf.hpp:77-90 | copies up to `n` unread characters and keeps them in the string |
| Streambuf.InsertableStreambuf.XsGetNDiscarding | asteria/src/rocket/insertable_streambuf.hpp:77-90 | copies up to `n` unread characters and discards them |
| Streambuf.InsertableStreambuf.Underflow | asteria/src/rocket/insertable_streambuf.hpp:91-107 | in in-mode, exposes the string and returns its first character, or end-of-file when it is empty |
| Streambuf.InsertableStreambuf.TakeFromGetArea | asteria/src/rocket/insertable_streambuf.hpp:100-102 | reading from the get area that `underflow` exposed hands out the next unread character and leaves the string and caret alone |
| Streambuf.InsertableStreambuf.PBackFail | asteria/src/rocket/insertable_streambuf.hpp:109-124 | in out-mode, puts a character back at the front; end-of-file and in-mode fail |
| Streambuf.InsertableStreambuf.XsPutN | asteria/src/rocket/insertable_streambuf.hpp:126-146 | in out-mode, writes at the caret, or appends when it is `npos`; otherwise writes nothing |
| Streambuf.InsertableStreambuf.Overflow | asteria/src/rocket/insertable_streambuf.hpp:147-169 | writes one character like `xsputn`; end-of-file gives `not_eof` and changes nothing |
| Streambuf.InsertableStreambuf.GetString | asteria/src/rocket/insertable_streambuf.hpp:172-176 | returns the unread string |
| Streambuf.InsertableStreambuf.SetString | asteria/src/rocket/insertable_streambuf.hpp:181-186 | replaces the string and the caret |
| Streambuf.InsertableStreambuf.SetCaret | asteria/src/rocket/insertable_streambuf.hpp:187-190 | replaces only the caret |
| Streambuf.InsertableStreambuf.ExtractString | asteria/src/rocket/insertable_streambuf.hpp:191-198 | returns the unread string and leaves the buffer empty, with the caret at `npos` |
| Streambuf.WriteTwice | asteria/src/rocket/insertable_streambuf.hpp:126-146 | two `xsputn` calls leave the buffer as one write of both texts |
| Enums.PrefixShape | asteria/src/runtime/enums.cpp:23-49 | prefix operators are described as "prefix `op`" |
| Enums.BuiltinShape | asteria/src/runtime/enums.cpp:50-151 | built-in functions are described as prefix operators with their `__` name |
| Enums.PostfixShape | asteria/src/runtime/enums.cpp:14-157 | postfix operators are described as "postfix `op`" |
| Enums.InfixShape | asteria/src/runtime/enums.cpp:89-148 | infix operators are described as "infix `op`" |
| Enums.DescriptionShape | asteria/src/runtime/enums.cpp:9-162 | every listed operator is its fixity and spelling; anything else is "<unknown operator>" |
| Enums.PrefixRoundTrip | asteria/src/runtime/enums.cpp:23-49 | a prefix description reads back as its operator |
| Enums.BuiltinRoundTrip | asteria/src/runtime/enums.cpp:50-151 | a built-in description reads back as its operator |
| Enums.PostfixRoundTrip | asteria/src/runtime/enums.cpp:14-157 | a postfix description reads back as its operator |
| Enums.InfixRoundTrip | asteria/src/runtime/enums.cpp:89-148 | an infix description reads back as its operator |
| Enums.DescriptionRoundTrip | asteria/src/runtime/enums.cpp:9-162 | a description reads back as its operator; the fallback reads back as none |
| Enums.DescriptionsDistinct | asteria/src/runtime/enums.cpp:9-162 | distinct listed operators have distinct descriptions |
| Enums.DescribeXop | asteria/src/runtime/enums.cpp:9-162 | `describe_xop`; `DescriptionShape`, `DescriptionRoundTrip` and `DescriptionsDistinct` state what it returns |

## Left out

**Outside code and runtime mechanics**
- I/O, memory layout and raw storage: the queue keeps node records, not a byte block with `memcpy` and placement construction.
- `AVMC_Queue::~AVMC_Queue` (freeing the block) is not modelled.
- `do_reallocate` moves each non-trivial payload with its move constructor and destroys the old one. The model keeps node values unchanged, which is what the move must achieve.
- Executors, enumerators, payload constructors and what AIR nodes request when they solidify are function parameters. Statement nodes and expressions are also parameters (`Env`). So the model does not follow what they do inside.
- `sizeof(Symbols)` is taken as 24 bytes (two headers).
- Executive and analytic contexts are not modelled. Scope nesting (`ctx_fr`/`ctx_bk` in `switch`, `ctx_for`, `ctx_body`) is reduced to the context value threaded through `Env`.
- A key variable is bound by the same `declare` as a null reference.
- `Statements.While`, `Statements.DoWhile` and `Statements.ForLoop` take an iteration bound (`fuel`) because the source loops may run forever. The fuel-monotonicity lemmas show the bound changes nothing for loops that finish.
- `Statements.Elements`: arrays of more than 2^63 elements are cut at that length, which memory never reaches. Object members are visited in the order `Env.order` gives, since the hash order is not modelled.
- `do_execute_try`, `do_execute_throw`, `do_execute_assert`, variable and function definitions: the exception translation and backtrace object are not part of the status rules modelled here.
- AvmcQueue.Queue.Perform: a payload constructor called from an AIR node's `solidify` is taken not to throw; `Queue.Append` and `Queue.AppendNontrivialNode` model the throwing one.
- Streambuf.InsertableStreambuf.GetString: `get_string()` returns a reference to the buffer's own string; the model returns a copy, so later changes made through that reference are not modelled.
- Statements.StatementList, Statements.While, Statements.DoWhile, Statements.For, Statements.ForEach and Statements.Select: exceptions from statement nodes, conditions, `case` labels and the range read are not modelled. The `Env` functions that stand for them (`run`, `cond`, `step`, `matches`, `range`) always return. In the source none of these executors catches, so an exception ends the statement and passes to the caller unchanged, as `do_execute_throw` (asteria/src/syntax/statement.cpp:491-498) relies on.
- References.DereferenceMutable: `Variable::open_value()` (asteria/src/runtime/reference_root.cpp:62) is taken to refuse an immutable variable with `VariableImmutable`. variable.hpp, where that check would be, is not part of this model.
- `Statements.IsTemporary` takes a temporary to be a temporary root with no modifiers; reference.hpp is not part of this model.

**Reference details from files not in this model**
- The `Variable` class is reduced to its value and immutability flag.
- The modifier chain follows the semantics test/reference.cpp checks, because the headers that define it are not part of this model:
  - `apply_const` stops at null or a missing element and gives null;
  - a non-container parent is a type error;
  - a write pads with nulls, prepending for negative indices.
- `References.Reference.ZoomOut`: with no modifiers left, the reference becomes null.
- Floating-point values are opaque markers (`real`).

**Arithmetic and strings**
- `Crc32.TableStep`: the proof that one table step equals eight bitwise reductions of the register is left out. The table entries are proved equal to the bitwise reference, and the loop is proved against the table. `Crc32.CheckValue` ties the whole computation to the standard check value.
- `Streambuf.Put`: `cow_string::insert` is modelled as an insertion that fails past the end or beyond `max_size`. A negative `n` in `xsputn` is not modelled, since the model's text carries its own length.
- `Enums.DescribeXop`: `Xop` values outside the listed enumerators are a single `Unlisted` case.

## Findings

| source | as written | input that shows it | evidently intended | confidence | as-written member | corrected member |
|---|---|---|---|---|---|---|
| asteria/src/rocket/insertable_streambuf.hpp:77-90 | `xsgetn` copies the requested characters out of the string but never erases them, though its comment says it reads and discards them | two one-character reads of "ab" both give "a" | the copied characters are removed, so consecutive reads hand out each character once | not executed | Streambuf.ReadKeepingRepeats, Streambuf.InsertableStreambuf.XsGetN | Streambuf.ReadDiscardingSplits, Streambuf.InsertableStreambuf.XsGetNDiscarding |
