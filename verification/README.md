# Verified models of the CitizenFX client core

A Dafny model of ten components of this repository whose correctness depends on loops, shared state or
re-entrancy, with proofs of what they promise. `dafny verify dfyconfig.toml` checks all of it.

Each component has a specification on values (functions) with the theorems about it (lemmas), and classes and
methods that have the fields and loops of the source and are proved equal to the specification.

| component | files | main results |
|---|---|---|
| Component graph | `DependencyGraph`, `DependencySort`, `DependencyWalks`, `InitFailures`, `ComponentId`, `ComponentTexts`, `ComponentLoader` | The sort emits exactly the reachable components, each once, and whatever a dependency leads to comes first unless the dependency leads back; a component comes after all it leads to, whatever is sorted, exactly when it is on no cycle. `loadDeps` returns exactly on acyclic graphs; when `initDeps` returns true and when it returns false is characterised on every graph; both follow the sorted order. Printing and parsing identifiers are inverse exactly on the printable ones, and it is stated what any text, with as many version numbers as it has, parses to. |
| DynFunc compiler | `ILMachine`, `DynFunc`, `CommandFunc`, `CompileErrors`, `FuncCache`, `FuncModes` | The emitted IL does what direct argument binding does, for every runtime and every argument array, exactly when at most 128 parameters take an argument. Stack heights agree on all paths in the code of both compilers, and a compiler throws exactly when some parameter is of a type it rejects. After any history the shared cache answers rightly exactly when the first request that compiled the method was in the same mode or the method has no parameters. |
| Task scheduler | `TaskScheduler` | Re-entrant ticks to any depth: every body runs once, an outermost tick runs exactly what the waiting tasks spawn, the tick list is restored. |
| Token bucket | `TokenBucket`, `TokenCalls`, `TokenDrains`, `TokenPumps`, `TokenBorrow`, `TokenLoans` | For every interleaving of loads and exchanges the tokens handed out in sum stay within burst + rate * time, borrowed ones included, and every call gets what it asked for unless a zeroTime it met gives the reason; a call can return a negative amount exactly when one can overtake a drain, and the positive amounts alone keep the rate, however often the calls are made, exactly when none can take tokens that a drain has given back; successive reservations become usable in order and within the rate. |
| PE relocations | `LittleEndian`, `Relocations`, `RelocationFormat`, `RelocationOverlap` | The walk over a table in the PE format lists just its fields. Relocating by d and then by e is relocating by d + e, byte for byte, also where an unknown entry type ends both walks early. A table that lists no field twice restores every image exactly when its fields are disjoint or end at the same byte. |
| MessagePack | `MsgPackFormat`, `MsgPackDecoder`, `MsgPackTables`, `MsgPackInputs`, `MsgPackTruncated`, `MsgPackReader`, `MsgPackSerializer`, `MsgPackShortest` | Every legal encoding of every value, followed by anything, decodes to that value and leaves what follows. What the decoder does is stated for every byte string, tables with keys of any type and bad or incomplete input included; a legal encoding cut short makes the decoder throw exactly when more is missing than content of its last leaf. What is serialised is the shortest such encoding. |
| fu2::function | `FunctionErasure`, `FunctionPlacement`, `FunctionWrappers` | Over every run of construction, copy, move, conversion, assignment, swap and destruction the wrappers behave as plain values, each live box has one owner and each box is destroyed once; among wrappers of one capacity a callable is held in place exactly when it fits. |
| sigslot | `Sigslot`, `SigslotObjects`, `SigslotRuns` | A signal calls a target exactly when the target knows the signal. The one operation that breaks this is disconnecting a multiple connection; over every run it is stated exactly when a signal is left pointing at a destroyed target and when that pointer is followed. |
| Surface ring | `SurfaceRing` | From any two indices and in every interleaving the counts are kept and neither side is stuck. The two sides never hold one surface exactly when the indices start congruent modulo the limit, and every look shows the submitted frame exactly when they start equal. One release too many lets them share a surface, unless the semaphore refuses it. |
| Download queue | `Download`, `DownloadCalls` | Concurrency limits, order of admission, bookkeeping, bounded work, and sinks that hold exactly the first bytes of the object if and only if no write fell short. Every series of calls is such a run, and as long as no error ends it and the queue is marked as downloading, some calls complete all downloads. |
| base64 | `Base64`, `Base64Canonical` | The encoder's output is the encoding of section 4 of RFC 4648, decoding gives the octets back, and a text comes back from decoding and encoding exactly when it is canonical. |

`Options` and `Sequences` hold what several of these share.

The MessagePack encodings follow the MessagePack specification, section "Formats"; the relocation table follows the
PE Format specification, section "The .reloc Section (Image Only)".

## Where the source does less than it says

Each of these is stated by a lemma: a concrete input, the exact condition under which the source meets the property,
or both.

- `LdcI4S` takes one signed byte, so the 129th argument is looked up at index -128 (`ConstructCorrect`).
- The two compilers of DynFunc.cs share a cache keyed by the method alone, so that a method with parameters keeps the
  argument binding of whichever mode compiled it first (`AnswerRightExactly`, `WrongAnswerMisbinds`).
- A late `consumeOrDrain` returns a negative amount; only the sum of all calls obeys the rate
  (`LateDrainGivesBack`). It takes a call that can overtake a drain (`NegativeExactly`), and one
  that can take again what a drain has given back lets the positive amounts exceed every bound (`GainsExactly`).
- `disconnect` unregisters the sender although further connections of the pair may remain; after that the end of
  the target leaves a dangling pointer (`LinkedExactly`, `DestroyedTargetDangles`, `DoubleConnectionDangles`,
  `DanglesExactly`).
- Game.cpp and SDKRender.cpp create the ring with one surface and the game's index at 1: the first frame is drawn where
  nobody looks, and the first look shows a surface on which nothing was drawn (`LauncherMissesFirstFrame`,
  `SeenExactly`); on more surfaces such indices would let both sides hold one (`ExclusiveExactly`).
- The launcher window gives a surface back also when its fetch timed out
  (`StrayReleaseExactly`, `StrayReleaseShares`).
- A comment in Download.cpp says that a mega-huge file should be the sole file; others are let in beside it
  (`MegaHugeNotAlone`), unless all that is tried meanwhile is mega-huge as well (`MegaAloneExactly`).
- The progress of a download counts what was received and not what was written, so a short write leaves a gap that
  the resumed transfer skips (`SinksWholeExactly`, `ShortWriteCompletes`).
- A file that cannot be opened stops the queue without an error, and `DL_Process` then reports the end
  (`QuietEndAfterFailedOpen`, `UnopenedFileEndsQuietly`).
- MessagePack lengths of 2^31 and more read as negative numbers (`HugeLengths`).
- Moving or copying a full fu2 wrapper onto itself touches a destroyed box (`SelfAssignment`).
- A component that is part of a cycle can come before an indirect dependency that is not
  (`TransitiveOrderFailsOnCycles`); one that is on no cycle comes after everything it leads to
  (`SortIsTransitiveExactly`).
- A relocation table that lists no field twice, but two that overlap and end at different bytes, does not restore every
  image by un-applying and applying again (`OverlapDoesNotComeBack`, `TableComesBackExactly`); undoing the fields in
  the opposite order would (`BackwardsUndoes`).
- Text, binary data and function references that are cut off at the end of the data decode as shorter ones
  (`TruncatedExactly`).

## Model

| member | source | states |
|---|---|---|
| `DependencySort.VisitEmits` | code/client/citicore/ComponentLoader.h:248-261 | A visit only appends components that were not visited before, each once, and what is appended is exactly what becomes visited. |
| `DependencySort.VisitCloses` | code/client/citicore/ComponentLoader.h:252-258 | After a walk its entries are visited, and so is every dependency of a component it visited. |
| `DependencySort.VisitReaches` | code/client/citicore/ComponentLoader.h:248-261 | Everything a visit emits is reachable from what was to be visited. |
| `DependencySort.VisitOrders` | code/client/citicore/ComponentLoader.h:248-261 | A direct dependency precedes its dependent in the output unless it reaches the dependent back, from any state in which the components on the call stack lead to what is visited. |
| `DependencySort.SortExact` | code/client/citicore/ComponentLoader.h:241-272 | On every graph, cycles included, the result holds exactly the components reachable from the list, each once. |
| `DependencySort.SortOrders` | code/client/citicore/ComponentLoader.h:241-272 | For every edge u to d where d cannot reach u back, d comes before u. |
| `DependencySort.SortOrdersDeeply` | code/client/citicore/ComponentLoader.h:241-272 | Under the same condition everything d leads to, at any distance and on cycles or not, comes before u as well. |
| `DependencySort.SortIsTransitive` | code/client/citicore/ComponentLoader.h:241-272 | A component on no cycle with others comes after everything it leads to, directly or not. |
| `DependencySort.SortIsTransitiveExactly` | code/client/citicore/ComponentLoader.h:241-272 | Whatever list is sorted, a component comes after everything it leads to if and only if none of its other dependencies leads back to it. |
| `DependencySort.TransitiveOrderFailsOnCycles` | code/client/citicore/ComponentLoader.h:241-272 | The condition of SortOrdersDeeply is needed: when the direct dependency leads back, an indirect one that never leads back can come later than its dependent. |
| `DependencySort.DependencySorter.Visit` | code/client/citicore/ComponentLoader.h:248-261 | The recursive closure over the visited map and the output queue computes the walk of the specification; it terminates on every finite graph. |
| `DependencySort.DependencySorter.SortDependencyList` | code/client/citicore/ComponentLoader.h:241-272 | The method returns the sort of the specification for any list and graph. |
| `DependencyWalks.LoadDepsAgrees` | code/client/citicore/GameMode.Win32.cpp:85-109 | loadDeps, which marks a component after its dependencies, returns, with unique component names, exactly when no cycle is reachable, and has then processed the sequence SortDependencyList gives for that component. |
| `InitFailures.InitDepsAgrees` | code/client/citicore/ToolMode.Win32.cpp:106-132 | On any graph, cyclic or not, whenever initDeps, which walks shared dependencies again, returns, it has called Initialize in the sorted order up to and including the first failure, and it returns true exactly when nothing in the sorted order fails. |
| `InitFailures.InitDepsFails` | code/client/citicore/ToolMode.Win32.cpp:106-132 | On any graph initDeps returns false exactly when a path that takes at each component its first dependency that is cyclic or fails ends in a failing component whose dependencies are acyclic and all initialise, that is when the failure comes before a cycle is entered. |
| `DependencyWalks.InitDepsAcyclic` | code/client/citicore/ToolMode.Win32.cpp:106-132 | Without a reachable cycle initDeps returns, within a stack as deep as there are reachable components and one more. |
| `DependencyWalks.InitDepsSucceeds` | code/client/citicore/ToolMode.Win32.cpp:106-132 | initDeps returns true exactly when no cycle is reachable and every reachable component initialises. |
| `DependencyWalks.NoCycleInside` | code/client/citicore/GameMode.Win32.cpp:94-99 | A component in a sequence that lists every dependency before its dependent reaches no cycle. |
| `DependencyWalks.DepsLoader.LoadDeps` | code/client/citicore/GameMode.Win32.cpp:87-107 | The closure over the set of loaded names computes the walk of the specification whenever that walk returns. |
| `DependencyWalks.DepsInitializer.InitDeps` | code/client/citicore/ToolMode.Win32.cpp:109-130 | The closure over the set of initialised names computes the walk and the result of the specification whenever that walk returns. |
| `ComponentId.AtoiRoundTrip` | code/client/citicore/ComponentId.cpp:72-76 | atoi reads back every number the stream prints, negative ones included. |
| `ComponentId.GetString` | code/client/citicore/ComponentId.cpp:61-82 | The string the stream operations build is the printed form of the specification. |
| `ComponentId.Parse` | code/client/citicore/ComponentId.cpp:84-156 | The character loop over the 256-character scratch buffer computes the parse of the specification for every string; running past the buffer and numbers outside int are reported as errors. |
| `ComponentId.ReadCategories` | code/client/citicore/ComponentId.cpp:103-123 | From any state between two categories, reading printed categories and the bracket after them stores exactly those categories. |
| `ComponentId.ReadVersions` | code/client/citicore/ComponentId.cpp:125-144 | Reading four printed version numbers and the closing bracket stores exactly those numbers. |
| `ComponentId.ParsedIsPrintable` | code/client/citicore/ComponentId.cpp:84-156 | Whatever text is parsed, the identifier it gives can be printed and read back. |
| `ComponentId.PrintParse` | code/client/citicore/ComponentId.cpp:61-156 | Parse(GetString(id)) is id exactly when id has a category and every category is shorter than the buffer and free of separators and NUL. |
| `ComponentId.PrintedIsNormalForm` | code/client/citicore/ComponentId.cpp:61-156 | Printing what was parsed is a normal form: it parses to the same identifier. |
| `ComponentTexts.ParsedCategories` | code/client/citicore/ComponentId.cpp:103-123 | A text without a bracket parses to its stretches between colons, the last one included, with version 0.0.0.0. |
| `ComponentTexts.ParsedWithVersions` | code/client/citicore/ComponentId.cpp:84-156 | A text with a bracket parses to the categories before it and to what atoi makes of the first four stretches behind it that a dot or closing bracket ends; missing ones are 0, further ones and what follows are ignored; it fails exactly when one of the four is outside int. |
| `ComponentTexts.ParsedNumbers` | code/client/citicore/ComponentId.cpp:84-156 | Categories and one or more printed numbers in brackets parse to those categories and the first four numbers, filled up with zeros. |
| `ComponentTexts.AtoiReads` | code/client/citicore/ComponentId.cpp:125-144 | The number of a stretch as it is written: blanks, perhaps a sign, the decimal digits there are, none included, and anything behind them that is no digit. |
| `ComponentTexts.PrintedDecimal` | code/client/citicore/ComponentId.cpp:72-76 | A number is printed in decimal, with a minus exactly if it is negative and without zeros in front. |
| `ComponentTexts.EndsAtNul` | code/client/citicore/ComponentId.cpp:84-156 | What is behind the first NUL makes no difference. |
| `ComponentTexts.LongCategory` | code/client/citicore/ComponentId.cpp:84-123 | A category of 256 or more characters runs past the scratch buffer, whatever clean categories are before it and whatever follows. |
| `ComponentId.CompareVersion` | code/client/citicore/ComponentId.cpp:29-44 | The loop returns the sign of the lexicographic order of the four numbers. |
| `ComponentId.VersionOrderTotal` | code/client/citicore/ComponentId.cpp:29-44 | Of two versions exactly one is less or they are equal. |
| `ComponentId.VersionLessTransitive` | code/client/citicore/ComponentId.cpp:29-44 | The version order is transitive. |
| `ComponentId.IsMatchedBy` | code/client/citicore/ComponentId.cpp:46-59 | The method decides the matching relation: equal categories as far as the dependency names them and a version that is equal or higher. |
| `ComponentId.MatchesIsPrefix` | code/client/citicore/ComponentId.cpp:46-59 | Without empty categories a match means that the dependency's categories are a prefix of the provider's and its version is not higher. |
| `ComponentId.MatchesReflexive` | code/client/citicore/ComponentId.cpp:46-59 | Every identifier matches itself. |
| `ComponentId.MatchesComposes` | code/client/citicore/ComponentId.cpp:46-59 | Given that b matches a, composing with every further match of b works exactly when a has no more categories than b, which is always so without empty categories. |
| `ComponentLoader.ResolveFails` | code/client/citicore/ComponentLoader.cpp:252-290 | Resolving fails exactly when some non-vendor dependency has no provider among the known components. |
| `ComponentLoader.ResolveSingle` | code/client/citicore/ComponentLoader.cpp:255-283 | One dependency resolves to the first known component with a provided identifier that matches it; without one it is fatal unless its first category is vendor. |
| `ComponentLoader.ResolveAppend` | code/client/citicore/ComponentLoader.cpp:252-290 | Dependencies are resolved one after the other, and one failure fails all. |
| `ComponentLoader.ResolveProvides` | code/client/citicore/ComponentLoader.cpp:255-283 | Every dependency that resolves is met by a listed known component one of whose provided identifiers matches it. |
| `ComponentLoader.ResolvedClosed` | code/client/citicore/ComponentLoader.cpp:209-214 | After resolving, all dependencies are known components. |
| `ComponentLoader.LoadOrderComplete` | code/client/citicore/ComponentLoader.cpp:216-249 | The load order holds each known component exactly once. |
| `ComponentLoader.LoadOrder` | code/client/citicore/ComponentLoader.cpp:216-249 | A non-vendor dependency is provided by an earlier component or by one that depends back. |
| `ComponentLoader.LoadOrderAcyclic` | code/client/citicore/ComponentLoader.cpp:216-249 | Without cycles every non-vendor dependency is provided by a component loaded strictly earlier. |
| `ComponentLoader.Loader.AddDependency` | code/client/citicore/ComponentLoader.h:138-141 | Appends to the dependency list of one component and leaves the others alone. |
| `ComponentLoader.Loader.FindProvider` | code/client/citicore/ComponentLoader.cpp:260-283 | Returns the first known component in the given order that provides the dependency, if there is one. |
| `ComponentLoader.Loader.LoadDependencies` | code/client/citicore/ComponentLoader.cpp:252-290 | The nested loops fill the dependency list with the resolution of the specification, or stop with the fatal error exactly when that fails. |
| `ComponentLoader.Loader.LoadComponent` | code/client/citicore/ComponentLoader.cpp:324-346 | Finds a component by its name and marks it loaded; fatal exactly when no component has the name and it is not adhesive with sticky known, which then stands for it. |
| `ComponentLoader.Loader.InitializeWithString` | code/client/citicore/ComponentLoader.cpp:209-250 | On success the graph is resolved, the loaded components are its sort and all known components are loaded; on failure some component has an unresolvable dependency. |
| `DynFunc.RunSource` | code/client/clrcore-v2/DynFunc.cs:152-177 | Running the code of a source parameter binds it from the remote: as it is, as a test, or through a constructor. |
| `DynFunc.RunValueType` | code/client/clrcore-v2/DynFunc.cs:183-211 | Running the value-type code, both branches, unboxes an object of the same type, converts to a primitive, and defaults any other type. |
| `DynFunc.RunParam` | code/client/clrcore-v2/DynFunc.cs:144-217 | Running the code of one parameter pushes what the direct binding gives or throws what it throws. |
| `DynFunc.RunParams` | code/client/clrcore-v2/DynFunc.cs:144-217 | Running the code of all parameters pushes the direct bindings in order. |
| `DynFunc.RunEpilogue` | code/client/clrcore-v2/DynFunc.cs:219-231 | Call, box or load null, and return: one boxed result or the exception of the call. |
| `DynFunc.RunIsFinish` | code/client/clrcore-v2/DynFunc.cs:110-239 | For every parameter list the emitted code does what binding does at the indices the signed byte encodes. |
| `DynFunc.ConstructCorrect` | code/client/clrcore-v2/DynFunc.cs:110-239 | The emitted code equals the direct call for all runtimes, targets, remotes and argument arrays if and only if at most 128 parameters take an argument. |
| `DynFunc.ConstructBalanced` | code/client/clrcore-v2/DynFunc.cs:110-239 | Every instruction and label has one stack height on all paths, no instruction underflows, and one value remains to return. |
| `CommandFunc.RunFromSource` | code/client/clrcore-v2/DynFunc.cs:291-329 | Running the remapped source code converts the first argument to 16 bits and then to the wanted type. |
| `CommandFunc.CommandCorrect` | code/client/clrcore-v2/DynFunc.cs:252-373 | The remapped compiler's code equals its direct binding of source, arguments and raw text, for every parameter list it accepts. |
| `CommandFunc.CommandBalanced` | code/client/clrcore-v2/DynFunc.cs:260-365 | Every instruction of the remapped code has one stack height, none underflows, and one value remains to return. |
| `CompileErrors.ConstructFails` | code/client/clrcore-v2/DynFunc.cs:142-217 | Compiling throws if and only if some source parameter is neither Remote nor bool and has no constructor from a remote, or some other parameter is an IntPtr or UIntPtr; what is thrown is what the first such parameter calls for. |
| `CompileErrors.ConstructLocals` | code/client/clrcore-v2/DynFunc.cs:200-208 | The emitted code declares a local for each argument that is a value type but no primitive, in order, and no other. |
| `CompileErrors.CommandFails` | code/client/clrcore-v2/DynFunc.cs:283-345 | The remapped compiler throws if and only if some source parameter is none of int, uint, ushort, bool, Remote and has no constructor, or some other parameter is none of object[], string[] and string; the first such parameter decides what is thrown. |
| `FuncCache.EmitConstruct` | code/client/clrcore-v2/DynFunc.cs:119-231 | The loop that appends to the IL generator emits exactly the code of the specification, or fails with the same exception. |
| `FuncCache.EmitCommand` | code/client/clrcore-v2/DynFunc.cs:260-365 | The same for the remapped compiler. |
| `FuncCache.CacheOrigin` | code/client/clrcore-v2/DynFunc.cs:112-115 | A cache entry is what some earlier request for that method compiled. |
| `FuncCache.OneModePerMethod` | code/client/clrcore-v2/DynFunc.cs:112-115 | After any history in which a method was only asked for in one mode the answer is the code of that mode. |
| `FuncCache.CacheKeepsFirst` | code/client/clrcore-v2/DynFunc.cs:112-115 | After any history a method is cached exactly when some request compiled it, and what is cached is what the first such request compiled. |
| `FuncCache.ModesCollide` | code/client/clrcore-v2/DynFunc.cs:253-258 | A method cached in one mode is answered rightly in the other exactly when the modes are one or the method has no parameters. |
| `FuncCache.AnswerRightExactly` | code/client/clrcore-v2/DynFunc.cs:112-115 | The same after any history: the answer is right exactly when the first request that compiled the method, if there was one, was in the wanted mode, or the method has no parameters. |
| `FuncCache.WrongAnswerMisbinds` | code/client/clrcore-v2/DynFunc.cs:253-258 | Some target, remote and argument array tell the cached code from the code asked for, exactly unless the modes are one or the method has no parameters. |
| `FuncModes.ModesAgree` | code/client/clrcore-v2/DynFunc.cs:110-373 | The plain and the remapped code of a method are equal, and behave alike on all runtimes, targets, remotes and argument arrays, exactly when the method has no parameters. |
| `FuncModes.RemappedIsNotDirect` | code/client/clrcore-v2/DynFunc.cs:252-373 | The remapped code equals the direct call of the plain function exactly when the method has no parameters. |
| `FuncCache.Func.Create` | code/client/clrcore-v2/DynFunc.cs:106-115 | The cached creation returns and stores what the specification of the cache says. |
| `TaskScheduler.IdleScheduler` | code/client/clrcore/CitizenTaskScheduler.cs:78-178 | With nothing waiting and nothing executing, m_runningTasks is empty, everything queued has completed, and every started task ran exactly once. |
| `TaskScheduler.TickRunsClosure` | code/client/clrcore/CitizenTaskScheduler.cs:121-178 | An outermost tick completes exactly the tasks that the waiting tasks spawn, directly or not. |
| `TaskScheduler.CitizenTaskScheduler.QueueTask` | code/client/clrcore/CitizenTaskScheduler.cs:78-93 | Adds the task to the running tasks and, inside a tick, to the list of that tick. |
| `TaskScheduler.CitizenTaskScheduler.TryExecuteTaskInline` | code/client/clrcore/CitizenTaskScheduler.cs:96-107 | Runs a task that was never queued, once, and refuses one that was. |
| `TaskScheduler.CitizenTaskScheduler.Perform` | code/client/clrcore/CitizenTaskScheduler.cs:78-178 | One operation of a body: a start queues the task or, the second time, does nothing; running it synchronously completes it without queueing; a tick leaves nothing waiting and restores m_inTickTasks. |
| `TaskScheduler.CitizenTaskScheduler.RunBody` | code/client/clrcore/CitizenTaskScheduler.cs:148 | A body of any length performs its operations one after the other, re-entering Tick, keeps the scheduler valid and leaves the call stack as it was. |
| `TaskScheduler.CitizenTaskScheduler.TryExecuteTask` | code/client/clrcore/CitizenTaskScheduler.cs:148 | A body runs exactly when it has not begun, and is then complete. |
| `TaskScheduler.CitizenTaskScheduler.RunOne` | code/client/clrcore/CitizenTaskScheduler.cs:146-162 | One turn of the inner loop: the task no longer waits and leaves the running tasks when it is complete. |
| `TaskScheduler.CitizenTaskScheduler.Tick` | code/client/clrcore/CitizenTaskScheduler.cs:121-178 | From any depth: terminates, leaves nothing waiting, keeps m_runningTasks equal to what was queued and has not completed, and restores m_inTickTasks. |
| `TokenBucket.ExchangeMeans` | code/shared/TokenBucket.h:295-304 | Taking t tokens at time now moves zeroTime to max(zeroTime, now - burst/rate) + t/rate. |
| `TokenBucket.StepKeepsBalance` | code/shared/TokenBucket.h:289-307 | Every atomic step of any call keeps zeroTime ahead by what has been handed out in sum. |
| `TokenBucket.RateIsKept` | code/shared/TokenBucket.h:128-190 | In every interleaving of loads and compare-exchanges, spurious failures included, calls with times in [t0, t1] take at most burst + rate * (t1 - t0) in sum. |
| `TokenBucket.LateDrainGivesBack` | code/shared/TokenBucket.h:165-190 | A schedule in which the positive amounts alone exceed that bound because a late drain returned a negative amount. |
| `TokenDrains.NegativeExchange` | code/shared/TokenBucket.h:165-190 | For non-negative amounts a successful exchange takes a negative amount exactly when it is a consumeOrDrain that loaded a zeroTime later than its own time. |
| `TokenDrains.NegativeExactly` | code/shared/TokenBucket.h:128-190 | Some schedule and some initial zeroTime make some call return a negative amount exactly when one of the calls can overtake a consumeOrDrain: its time is later, and it can take a positive amount, or taking nothing it still moves zeroTime past the time of the drain because the bucket would be full. |
| `TokenDrains.GainsKeepRate` | code/shared/TokenBucket.h:128-190 | When no call can overtake a drain, then in every schedule no call returns a negative amount and the positive amounts alone stay within burst + rate * (t1 - t0). |
| `TokenDrains.LatestDrainsKeepRate` | code/shared/TokenBucket.h:128-190 | In particular the positive amounts alone stay within that bound when every consumeOrDrain is made at the latest time of the window. |
| `TokenPumps.UnpumpedKeepRate` | code/shared/TokenBucket.h:128-190 | When no call can take tokens after a drain has set zeroTime back to its own time, the positive amounts alone stay within burst + rate * (t1 - t0) in every schedule, also when calls return negative amounts. |
| `TokenPumps.PumpsExceedAll` | code/shared/TokenBucket.h:165-190 | A call that can, and that drain, each made often enough, hand out more than any bound. |
| `TokenPumps.GainsExactly` | code/shared/TokenBucket.h:128-190 | Calls of given kinds, made any number of times in a window, keep burst + rate * (t1 - t0) by their positive amounts alone if and only if none of them can take tokens that one of the drains has given back. |
| `TokenBucket.AloneIsConcurrent` | code/shared/TokenBucket.h:128-190 | A call that runs undisturbed does what the sequential specification says, whatever the other threads are at. |
| `TokenCalls.ConsumeReturns` | code/shared/TokenBucket.h:128-148 | In every interleaving a consume that returned took exactly its amount at a turn of its own when that much was there, or returned false because at some turn of its own its time was not after zeroTime or the zeroTime it had loaded left less than the amount. |
| `TokenCalls.DrainReturns` | code/shared/TokenBucket.h:165-190 | In every interleaving a consumeOrDrain that returned took the smaller of its amount and what the zeroTime it exchanged left it, or nothing because its check found its time not after zeroTime. |
| `TokenCalls.LoopTurn` | code/shared/TokenBucket.h:289-307 | A turn in the compare-exchange loop gives up exactly when a consume had loaded too little; else it takes if zeroTime is still what was loaded and the exchange does not fail spuriously; and else it leaves the call in the loop with the present zeroTime. |
| `TokenBucket.Bucket.Consume` | code/shared/TokenBucket.h:128-148 | Grants a positive amount exactly when that many tokens are available. |
| `TokenBucket.Bucket.ConsumeOrDrain` | code/shared/TokenBucket.h:165-190 | Takes the smaller of a positive amount and what is available. |
| `TokenBucket.Bucket.AvailableHere` | code/shared/TokenBucket.h:274-286 | What is available lies between 0 and the burst size. |
| `TokenBucket.Bucket.ConsumeWithBorrowNonBlocking` | code/shared/TokenBucket.h:225-249 | Ends within two rounds; refuses exactly above the burst size; otherwise moves zeroTime by the one-line rule and returns max(0, zeroTime - now). |
| `TokenBucket.ReadyInOrder` | code/shared/TokenBucket.h:205-249 | Reservations made at times that do not go back become usable in the order they were made. |
| `TokenBucket.ReadyWithinRate` | code/shared/TokenBucket.h:205-249 | The tokens that become usable between two reservations stay within burst + rate * the time between. |
| `TokenBorrow.AdvancePays` | code/shared/TokenBucket.h:225-249 | Every atomic step of consume, consumeOrDrain and consumeWithBorrowNonBlocking, its two compare-exchange loops apart, keeps zeroTime ahead by what has been given and lent in sum, while some caller is not ready before zeroTime. |
| `TokenBorrow.BorrowedKeepsRate` | code/shared/TokenBucket.h:225-249 | In every interleaving with borrowing calls, what all calls are given in sum, lent tokens included, stays within burst + rate * (t1 - t0), where t1 is the time by which every call may use what it got. |
| `TokenLoans.BorrowReturns` | code/shared/TokenBucket.h:225-249 | In every interleaving a borrower that returned had asked for more than the burst size, or has all it asked for: taken from the bucket without a wait, or with the rest lent in one turn that moved zeroTime forward by just that much, and then it waits until there; only its own drain, overtaken by another call, counts against it. |
| `TokenLoans.WholeReturns` | code/shared/TokenBucket.h:128-190 | Among borrowers, too, a consume or consumeOrDrain returns what the zeroTimes it met explain. |
| `TokenLoans.BorrowTurn` | code/shared/TokenBucket.h:225-249 | A turn of a borrower in either compare-exchange loop: with the zeroTime it loaded still there, and no spurious failure, it takes what there is and goes round again, goes on to lend if there was nothing, or is lent all that is left; else it stays in the loop with the present zeroTime. |
| `TokenLoans.BorrowsAlone` | code/shared/TokenBucket.h:225-249 | A borrower that is not disturbed moves zeroTime to max(zeroTime, now - burst/rate) + amount/rate and waits until then if that is later than its time, whatever the other callers are at. |
| `LittleEndian.ValueBytes` | code/client/launcher/ExecutableLoader.cpp:458 | The number of the little-endian bytes of v is v. |
| `LittleEndian.BytesValue` | code/client/launcher/ExecutableLoader.cpp:458 | The little-endian bytes of the number of a byte string are that string. |
| `Relocations.AddAtTwice` | code/client/launcher/ExecutableLoader.Snapshot.cpp:317-338 | Two additions to one field, each wrapping at its width, are one. |
| `Relocations.AddToUpperPart` | code/client/launcher/ExecutableLoader.Snapshot.cpp:317-338 | Adding to the upper part of a field is adding a multiple to the whole field. |
| `Relocations.AddAtCommutes` | code/client/launcher/ExecutableLoader.Snapshot.cpp:317-338 | Additions to fields that are disjoint or end at the same byte can be done in either order. |
| `Relocations.AddAllTwice` | code/client/launcher/ExecutableLoader.Snapshot.cpp:308-345 | Adding d and then e to a list of fields, in the same order, adds d + e, when any two of them are disjoint or end at the same byte. |
| `Relocations.AddAllValue` | code/client/launcher/ExecutableLoader.Snapshot.cpp:308-345 | Each of several disjoint fields ends up with its own value plus delta, wrapped at its width. |
| `Relocations.AddAllFrame` | code/client/launcher/ExecutableLoader.Snapshot.cpp:308-345 | Bytes outside all fields do not change. |
| `Relocations.RelocatedTable` | code/client/launcher/ExecutableLoader.Snapshot.cpp:290-349 | Relocating does not change the table, so a second walk finds the same fields and stops at the same place. |
| `Relocations.RelocateBack` | code/client/launcher/ExecutableLoader.Snapshot.cpp:282-349 | Relocating by d and then by e is relocating by d + e when any two fields of the table are disjoint or end at the same byte; relocating by 0 changes nothing. |
| `Relocations.OverlapTable` | code/client/launcher/ExecutableLoader.Snapshot.cpp:290-345 | The walk over a relocation table in the image lists two fields that overlap in part. |
| `Relocations.OverlapDoesNotComeBack` | code/client/launcher/ExecutableLoader.Snapshot.cpp:282-349 | On an image with that table, un-applying and applying again changes a byte, for the carry of one field runs into the other. |
| `Relocations.BackwardsUndoes` | code/client/launcher/ExecutableLoader.Snapshot.cpp:308-345 | Undoing the fields in the opposite order restores every image, however the fields overlap. |
| `RelocationFormat.TableListed` | code/client/launcher/ExecutableLoader.cpp:430-474 | Walking the bytes of any list of pages, wherever they lie in an image, lists in order, for each entry, the page address plus the offset in 32 bits with 4 bytes for type 3 and 8 for type 10, nothing for type 0, and stops after the first block with another type. |
| `RelocationFormat.TableEndsEarly` | code/client/launcher/ExecutableLoader.cpp:430-443 | Behind the last block a block of size 0 ends the table, wherever its end is said to be. |
| `RelocationOverlap.ClashBreaks` | code/client/launcher/ExecutableLoader.Snapshot.cpp:308-345 | For any list without repetition in which two fields overlap and end at different bytes, and any image, some content of the fields and some offset are not restored. |
| `RelocationOverlap.PairComesBackExactly` | code/client/launcher/ExecutableLoader.Snapshot.cpp:308-345 | Two different fields are restored in every image at every offset if and only if they are disjoint or end at the same byte. |
| `RelocationOverlap.ListComesBackExactly` | code/client/launcher/ExecutableLoader.Snapshot.cpp:308-345 | The same for lists of fields that repeat none, of any length and any widths above zero. |
| `RelocationOverlap.TableComesBackExactly` | code/client/launcher/ExecutableLoader.Snapshot.cpp:282-349 | A relocation table that lists no field twice restores every image it belongs to, at every offset, if and only if any two of its fields are disjoint or end at the same byte. |
| `Relocations.AddInPlace` | code/client/launcher/ExecutableLoader.cpp:458-462 | The in-place addition to a 4- or 8-byte field. |
| `Relocations.RelocateBlock` | code/client/launcher/ExecutableLoader.cpp:445-468 | The loop over the entries of one block applies exactly the fields of the block and says whether all types were known. |
| `Relocations.RelocateTable` | code/client/launcher/ExecutableLoader.cpp:430-474 | The loop over the blocks applies exactly the fields the table lists, up to its end, an empty block or an unknown type. |
| `Relocations.ApplyRelocations` | code/client/launcher/ExecutableLoader.cpp:423-475 | The image afterwards and the result, for every load offset. |
| `Relocations.UnapplyRelocations` | code/client/launcher/ExecutableLoader.Snapshot.cpp:282-349 | The image afterwards, in either direction. |
| `Relocations.UnapplyAndBack` | code/client/launcher/ExecutableLoader.Snapshot.cpp:282-349 | Un-applying and applying again restores the image byte for byte. |
| `Relocations.ApplyAndUnapply` | code/client/launcher/ExecutableLoader.cpp:423-475 | Un-applying undoes applying. |
| `MsgPackDecoder.StrReads` | code/client/clrcore/MsgPackDeserializer.cs:155-189 | Every form of a text header, its text and anything after it decode to that text. |
| `MsgPackDecoder.ScalarReads` | code/client/clrcore/MsgPackDeserializer.cs:64-153 | Every scalar encoding, of any width and sign, decodes to its value. |
| `MsgPackDecoder.ExtReads` | code/client/clrcore/MsgPackDeserializer.cs:312-384 | The six known extension types decode in every header form. |
| `MsgPackDecoder.UnpackItems` | code/client/clrcore/MsgPackDeserializer.cs:50-62 | The encoded items of a list decode to the list and leave the rest. |
| `MsgPackDecoder.UnpackPairs` | code/client/clrcore/MsgPackDeserializer.cs:35-48 | The encoded entries of a map with distinct keys decode to the map and leave the rest. |
| `MsgPackDecoder.UnpackEncoded` | code/client/clrcore/MsgPackDeserializer.cs:27-62 | For every legal encoding of every value and every suffix, decoding gives an object that stands for the value and leaves exactly the suffix. |
| `MsgPackTables.AnyDecodes` | code/client/clrcore/MsgPackDeserializer.cs:27-62 | Every encoding decodes to exactly one object and leaves exactly what follows, also with table keys of any type at any depth, the unused tag, extension types that are not handled, lengths that are no int and vectors with any length in their header in it; the decoder throws exactly when a part calls for it (a nil key among these), and what the first such part calls for. |
| `MsgPackTables.TableEntries` | code/client/clrcore/MsgPackDeserializer.cs:35-48 | A decoded table has each key text once, a string key as it is and any other by its ToString, in the place where it came first, with the value that came last; if all texts differ it has just the texts with their values in order. |
| `MsgPackInputs.EveryInput` | code/client/clrcore/MsgPackDeserializer.cs:27-449 | Every byte string is the bytes of such an encoding, in which the end of the data may cut off the last part, and something behind it; the decoder returns its object and leaves what is behind it, or throws what the first faulty part calls for, a part that is cut off included. |
| `MsgPackDecoder.HugeLengths` | code/client/clrcore/MsgPackDeserializer.cs:228-257 | Array and map counts of 2^31 and more decode as empty with the content left unread; such text and binary lengths are refused. |
| `MsgPackTruncated.TruncatedExactly` | code/client/clrcore/MsgPackDeserializer.cs:27-62 | A legal encoding cut off anywhere makes the decoder throw, if and only if more is missing than content of the last text, binary or function reference at its end; otherwise it returns the value with that content shortened by as many bytes. |
| `MsgPackReader.Deserializer.UnpackLeaf` | code/client/clrcore/MsgPackDeserializer.cs:386-449 | The dispatch on the tag and the width-specific unpackers, on a stream with a position. |
| `MsgPackReader.Deserializer.UnpackExt` | code/client/clrcore/MsgPackDeserializer.cs:351-384 | The extension payloads, read from the stream. |
| `MsgPackReader.Deserializer.UnpackAny` | code/client/clrcore/MsgPackDeserializer.cs:27-33 | The recursive reader returns what the specification of the decoder says, moves the position by what it consumed, and throws where it throws. |
| `MsgPackReader.Deserializer.UnpackArray` | code/client/clrcore/MsgPackDeserializer.cs:50-62 | The loop that fills a list does the same. |
| `MsgPackReader.Deserializer.UnpackMap` | code/client/clrcore/MsgPackDeserializer.cs:35-48 | The loop that fills a dictionary does the same, later keys replacing earlier ones. |
| `MsgPackReader.DeserializeEncoded` | code/client/clrcore/MsgPackDeserializer.cs:16-25 | Deserialize on any legal encoding, with anything after it, returns an object that stands for the value. |
| `MsgPackSerializer.WireValid` | code/client/clrcore/MsgPackSerializer.cs:62-177 | Every serialisable object is given a legal encoding. |
| `MsgPackShortest.WireShortest` | code/client/clrcore/MsgPackSerializer.cs:62-177 | No legal encoding of the value of an object is shorter than the one that is serialised. |
| `MsgPackSerializer.Serialize` | code/client/clrcore/MsgPackSerializer.cs:62-177 | The recursive walk appends exactly that encoding to the packer. |
| `MsgPackSerializer.SerializeItems` | code/client/clrcore/MsgPackSerializer.cs:112-122 | The list loop appends the encodings of the items in order. |
| `MsgPackSerializer.SerializeEntries` | code/client/clrcore/MsgPackSerializer.cs:100-111 | The dictionary loop appends keys and values in order. |
| `MsgPackSerializer.SerializedDecodes` | code/client/clrcore/MsgPackSerializer.cs:62-177 | What is serialised deserialises to an object that stands for the same value. |
| `FunctionErasure.ExactlyOneOwner` | code/shared/function2.hpp:817-906 | Under the ownership rules exactly one wrapper holds each live box. |
| `FunctionErasure.ConstructOwned` | code/shared/function2.hpp:890-906 | Constructing a box in a raw wrapper keeps the ownership rules and every other wrapper's content. |
| `FunctionErasure.WeakDestroyOwned` | code/shared/function2.hpp:862-877 | Destroying what a wrapper holds keeps the rules for the others. |
| `FunctionErasure.StealOwned` | code/shared/function2.hpp:822-841 | Handing over an allocated box by its pointer keeps the rules. |
| `FunctionErasure.MoveOwned` | code/shared/function2.hpp:822-849 | op_move, in place or allocated and between any capacities, gives the target the source's content and empties the source. |
| `FunctionErasure.CopyOwned` | code/shared/function2.hpp:850-861 | op_copy gives the target a box of its own with the same content. |
| `FunctionErasure.SelfAssignment` | code/shared/function2.hpp:1153-1166 | Assignment touches only live boxes if and only if the target is another wrapper or empty. |
| `FunctionErasure.AssignFromShows` | code/shared/function2.hpp:1153-1166 | Move and copy assignment, self-assignment of an empty wrapper included, act on the values as expected. |
| `FunctionErasure.ConvertShows` | code/shared/function2.hpp:1111-1176 | Converting construction and assignment between capacities, through the parameter taken by value, act like a move or a copy. |
| `FunctionErasure.SwapExchanges` | code/shared/function2.hpp:1593-1601 | swap exchanges the two contents whatever mix of in place, allocated and empty they hold. |
| `FunctionErasure.StepShows` | code/shared/function2.hpp:1092-1199 | Every operation a program may do is defined, keeps the ownership rules and does to the values what it promises. |
| `FunctionErasure.RunShows` | code/shared/function2.hpp:1092-1199 | So does every run. |
| `FunctionPlacement.PlacedExactly` | code/shared/function2.hpp:890-906 | Over every run with wrappers of one capacity, a wrapper holds its callable in place if it fits and by a pointer if it does not, however it got there. |
| `FunctionErasure.EveryBoxDestroyedOnce` | code/shared/function2.hpp:817-906 | Over every run from nothing each live box has exactly one owner, each box made is live or was destroyed once, and when the wrappers are gone no box is left. |
| `FunctionWrappers.Erasure.Construct` | code/shared/function2.hpp:890-906 | The fields after construction are those of the specification. |
| `FunctionWrappers.Erasure.MoveTo` | code/shared/function2.hpp:955-960 | The fields of both wrappers and the boxes after a move. |
| `FunctionWrappers.Erasure.CopyTo` | code/shared/function2.hpp:962-968 | The same for a copy. |
| `FunctionWrappers.Erasure.MoveFrom` | code/shared/function2.hpp:1100-1104 | The move constructor. |
| `FunctionWrappers.Erasure.CopyFrom` | code/shared/function2.hpp:1106-1109 | The copy constructor. |
| `FunctionWrappers.Erasure.Assign` | code/shared/function2.hpp:1178-1199 | Assigning a callable, or one that converts to false. |
| `FunctionWrappers.Erasure.MoveAssign` | code/shared/function2.hpp:1153-1159 | The move assignment, required to touch live boxes only. |
| `FunctionWrappers.Erasure.CopyAssign` | code/shared/function2.hpp:1161-1166 | The copy assignment. |
| `FunctionWrappers.Erasure.Destruct` | code/shared/function2.hpp:1143-1145 | The destructor. |
| `FunctionWrappers.Erasure.Swap` | code/shared/function2.hpp:1593-1601 | swap with its cache, and nothing for a wrapper with itself. |
| `Sigslot.PairAfter` | code/shared/sigslot.h:459-655 | Every operation, seen from one signal and one target: what the signal calls there, in order, and whether the target knows the signal. |
| `Sigslot.DropFirstHeard` | code/shared/sigslot.h:599-617 | disconnect takes only the first function of the target off and changes nothing for others. |
| `Sigslot.RedirectedHeard` | code/shared/sigslot.h:640-655 | The duplicates tell the new target what the old one is told, in order, and nobody else anything. |
| `Sigslot.BackedAlways` | code/shared/sigslot.h:459-655 | A registered sender has a connection, whatever is done. |
| `Sigslot.LinkedExactly` | code/shared/sigslot.h:599-617 | Agreement of the two sides survives an operation if and only if it is not a disconnect of a pair with several connections. |
| `Sigslot.NeverDangling` | code/shared/sigslot.h:459-655 | Over every run without such a disconnect no object is used after its destruction and a signal calls a target exactly when the target knows the signal and both are alive. |
| `Sigslot.DestroyedTargetDangles` | code/shared/sigslot.h:500-518 | Destroying a target leaves a signal pointing at it exactly when the signal calls it without being registered. |
| `Sigslot.DanglingSignalStuck` | code/shared/sigslot.h:564-578 | A signal that points at a destroyed target cannot be destroyed. |
| `Sigslot.DoubleConnectionDangles` | code/shared/sigslot.h:599-617 | Two connections, one disconnect and the end of the target bring that about. |
| `SigslotRuns.DanglesExactly` | code/shared/sigslot.h:459-655 | Over every run from nothing, multiple disconnects included, a signal is left pointing at a destroyed target if and only if the two were disconnected while they had several connections, nothing has settled the pair since, and the target is gone. |
| `SigslotRuns.StuckExactly` | code/shared/sigslot.h:535-578 | While every registered sender is connected, an operation uses a destroyed object if and only if it clears, copies or destroys a signal that points at a destroyed target. |
| `SigslotRuns.RunFailsExactly` | code/shared/sigslot.h:459-655 | Over every run from nothing an object is used after its destruction if and only if some operation clears, copies or destroys a signal that points at a destroyed target at that moment. |
| `SigslotRuns.AssignedTargetExactly` | code/shared/sigslot.h:459-524 | The compiler-generated assignment of targets leaves the two sides in agreement if and only if both targets have the same senders. |
| `Sigslot.CopyHears` | code/shared/sigslot.h:474-486 | The copy of a target hears from every signal what the original hears, in the same order. |
| `Sigslot.ClearedTargetSilent` | code/shared/sigslot.h:505-518 | disconnect_all on a target silences every signal towards it. |
| `SigslotObjects.Signal.SlotDuplicate` | code/shared/sigslot.h:640-655 | Terminates although it appends to the list it walks, and appends exactly the redirected connections. |
| `SigslotObjects.Signal.SlotDisconnect` | code/shared/sigslot.h:619-638 | Removes every connection to the target while walking the list. |
| `SigslotObjects.Signal.EraseFirst` | code/shared/sigslot.h:599-617 | Removes the first connection to the target and says whether there was one. |
| `SigslotObjects.Signal.Disconnect` | code/shared/sigslot.h:599-617 | The net after disconnect. |
| `SigslotObjects.Signal.DisconnectAll` | code/shared/sigslot.h:564-578 | The net after disconnect_all on a signal. |
| `SigslotObjects.Signal.Connect` | code/shared/sigslot.h:2244-2252 | The net after connect. |
| `SigslotObjects.Signal.Copy` | code/shared/sigslot.h:535-551 | The net after copying a signal. |
| `SigslotObjects.Target.Copy` | code/shared/sigslot.h:474-486 | The net after copying a target. |
| `SigslotObjects.Target.DisconnectAll` | code/shared/sigslot.h:505-518 | The net after disconnect_all on a target. |
| `SurfaceRing.GoodStep` | code/client/citicore/ReverseGameData.h:132-174 | Every step of either thread, the two halves of each method apart, keeps the counts, the indices and the submitted frames, whatever two surfaces the indices started with. |
| `SurfaceRing.SurfacesAreExclusive` | code/client/citicore/ReverseGameData.h:132-174 | In every interleaving, from any two indices, no release is lost and counts and held surfaces add up to the limit; when the indices start congruent the threads never hold one surface, and every look shows the frame of its fetch, in order of submission, but for the first fetch, which shows what was on its surface before unless the indices start equal. |
| `SurfaceRing.NeverStuck` | code/client/citicore/ReverseGameData.h:132-174 | From any two indices one of the two threads can always move on. |
| `SurfaceRing.ExclusiveExactly` | code/components/citizen-game-main/src/Game.cpp:195-205 | For every state the semaphores can be created in: no interleaving lets both sides hold one surface if and only if the two indices are congruent modulo the limit. |
| `SurfaceRing.SeenExactly` | code/components/citizen-game-main/src/Game.cpp:195-205 | For every such state: all looks of all runs show the frame of their fetch if and only if the two indices are equal. |
| `SurfaceRing.LauncherMissesFirstFrame` | code/components/citizen-game-main/src/Game.cpp:195-205 | In the state the launcher creates the first frame is drawn on surface 1 and not seen and the first look shows what was on surface 0; the two sides never hold one surface and every later fetch shows its frame. |
| `SurfaceRing.SharesExactly` | code/client/citicore/ReverseGameData.h:132-174 | From every state of the ring, at any point of a run, the game can come to draw on the surface that is being shown exactly when the indices did not start congruent. |
| `SurfaceRing.GoodNeverShares` | code/client/citicore/ReverseGameData.h:132-174 | From a state that keeps the counts, the indices having started congruent, no sequence of steps lets the game draw on the surface that is being shown. |
| `SurfaceRing.GapShares` | code/client/citicore/ReverseGameData.h:132-174 | From every state, for every number of surfaces, with no or one free surface too many, some sequence of steps makes the two sides share a surface when the indices start apart or a free surface is too many. |
| `SurfaceRing.StrayReleaseExactly` | code/components/citizen-game-main/src/GameWindow.Win32.cpp:409-469 | After giving back a surface that was not fetched some interleaving lets the game draw on the surface that is being shown, if and only if some surface was not free, so that the semaphore did not refuse, or the indices did not start congruent. |
| `SurfaceRing.StrayReleaseShares` | code/components/citizen-game-main/src/GameWindow.Win32.cpp:409-469 | With one surface, from any two indices, such a release while the game draws lets both sides hold it exactly when it is the one that is fetched first, as in the launcher. |
| `SurfaceRing.ReverseGameData.GetNextSurface` | code/client/citicore/ReverseGameData.h:132-140 | Takes a free surface, or times out and changes nothing. |
| `SurfaceRing.ReverseGameData.SubmitSurface` | code/client/citicore/ReverseGameData.h:142-151 | Advances the index and signals, reporting a full semaphore. |
| `SurfaceRing.ReverseGameData.FetchSurface` | code/client/citicore/ReverseGameData.h:153-169 | Takes a submitted surface and advances the index, or times out and changes nothing. |
| `SurfaceRing.ReverseGameData.ReleaseSurface` | code/client/citicore/ReverseGameData.h:171-174 | Signals that a surface is free, up to the limit. |
| `Download.NextGood` | code/client/launcher/Download.cpp:188-810 | Every step keeps the books, the size classes and the items in order. |
| `Download.LimitsAlways` | code/client/launcher/Download.cpp:241-272 | In every reachable state at most 6 run, at most 2 over HUGE_SIZE and 1 over MEGA_HUGE_SIZE; admission is first in, first out; numDownloads is completed plus queued plus running; no item has more than 11 attempts. |
| `Download.AdmitsExactly` | code/client/launcher/Download.cpp:241-272 | The head of the queue is let in exactly beside fewer than 6 running downloads, fewer than 2 if it is over 10 MiB and none if it is over 40 MiB; otherwise nothing changes. |
| `Download.WriteWholeExactly` | code/client/launcher/Download.cpp:301-381 | A received piece keeps the sink whole if and only if all of it is written. |
| `Download.SinksWholeExactly` | code/client/launcher/Download.cpp:301-391 | Over every run from nothing, all sinks hold exactly what was received if and only if every write was complete. |
| `Download.SinkIsPrefix` | code/client/launcher/Download.cpp:301-608 | However often a transfer breaks off and is resumed, the sink has been given the first progress bytes, and a completed download the whole object; the writes being complete. |
| `Download.ShortWriteCompletes` | code/client/launcher/Download.cpp:301-391 | A run in which a short write is resumed behind the gap and the download completes without the byte. |
| `Download.BoundedWork` | code/client/launcher/Download.cpp:656-810 | Without new downloads the number of steps that do anything is bounded by what is left to receive, retry and start. |
| `Download.NeverStuck` | code/client/launcher/Download.cpp:812-863 | Until an error ends it, while anything is left something can be done that is not a failure. |
| `Download.CanComplete` | code/client/launcher/Download.cpp:656-863 | From every state that keeps the books, has met no error and is marked as downloading, some steps without a failure complete all downloads, and if no byte was lost before, every sink then holds its whole object. |
| `Download.BytesAlwaysCounted` | code/client/launcher/Download.cpp:379-380 | completedSize is the sum of what all downloads have received. |
| `Download.MegaHugeNotAlone` | code/client/launcher/Download.cpp:263-270 | A mega-huge file need not stay the only one running. |
| `Download.MegaKeepsOut` | code/client/launcher/Download.cpp:241-272 | Beside a mega-huge file that runs alone an attempt to admit the head of the queue changes nothing exactly when the head is mega-huge too. |
| `Download.MegaAloneExactly` | code/client/launcher/Download.cpp:241-272 | In every run a mega-huge file stays alone until it ends exactly when every head of the queue that is tried meanwhile is mega-huge too. |
| `Download.ProcessDone` | code/client/launcher/Download.cpp:812-863 | While the queue is marked as downloading, DL_Process reports the end exactly when an error ended it or everything is complete. |
| `Download.QuietEndExactly` | code/client/launcher/Download.cpp:812-822 | The end is reported without an error and with downloads left exactly when the queue was no longer marked as downloading. |
| `Download.QuietEndAfterFailedOpen` | code/client/launcher/Download.cpp:529-544 | Over every run that has met no error, DL_Process reports the end with downloads left exactly when there are downloads left and a file could not be opened since the last one was queued. |
| `Download.UnopenedFileEndsQuietly` | code/client/launcher/Download.cpp:529-544 | One file that cannot be opened brings that about. |
| `DownloadCalls.CallsAreRuns` | code/client/launcher/Download.cpp:188-863 | Every series of calls of CL_QueueDownload and DL_Process is a run of steps, with the writes of the calls, and without failures if the calls have none. |
| `DownloadCalls.CallsKeepOrder` | code/client/launcher/Download.cpp:188-863 | After every series of calls the limits and the books are kept, completedSize is what was received, and if all writes were complete every sink holds exactly what was sent. |
| `DownloadCalls.CallsComplete` | code/client/launcher/Download.cpp:656-863 | From every state that keeps the books, has met no error and is marked as downloading, some calls of DL_Process in which nothing fails complete all downloads, and the last of them reports the end. |
| `DownloadCalls.ErrorEnds` | code/client/launcher/Download.cpp:812-863 | The call of DL_Process that meets an error reports the end, and until something new is queued every further call does so and changes nothing. |
| `Download.DownloadQueue.QueueDownload` | code/client/launcher/Download.cpp:188-215 | The state after queueing. |
| `Download.DownloadQueue.DequeueDownload` | code/client/launcher/Download.cpp:241-272 | The state after an attempt to admit the head of the queue. |
| `Download.DownloadQueue.WriteToFile` | code/client/launcher/Download.cpp:301-391 | The state after a received piece. |
| `Download.DownloadQueue.OnFailure` | code/client/launcher/Download.cpp:773-803 | A retry with one retry less, or the end. |
| `Download.DownloadQueue.ProcessDownload` | code/client/launcher/Download.cpp:476-810 | The loop over new handles and reported transfers. |
| `Download.DownloadQueue.Process` | code/client/launcher/Download.cpp:812-863 | One call of DL_Process and what it reports. |
| `Base64.LettersAreRfc4648` | code/shared/base64.cpp:5-12 | The encoding table is table 1 of RFC 4648. |
| `Base64.TripleBits` | code/shared/base64.cpp:31-35 | Three octets, most significant first, are the 24 bits of the triple. |
| `Base64.SextetBits` | code/shared/base64.cpp:37-40 | The four masked shifts of the triple are its bits in groups of six. |
| `Base64.EncodeIsRfc4648` | code/shared/base64.cpp:18-47 | For every octet sequence the encoder's text is the bit stream of section 4 of RFC 4648, completed with zero bits and = characters. |
| `Base64.DecodeEncode` | code/shared/base64.cpp:18-85 | Decoding what was encoded gives exactly the octets, for every non-empty sequence and whatever the unused table entries hold. |
| `Base64.DecodedOctets` | code/shared/base64.cpp:50-85 | Whatever the text and the table hold, the octets of four characters are the lowest 24 bits of the sum of their signed table entries in groups of six bits, with = counting as zero. |
| `Base64Canonical.EncodeDecodeExactly` | code/shared/base64.cpp:18-85 | Encoding what a text decodes to gives the text back if and only if it consists of whole quanta of letters with at most two = characters at the end and no unused bit set. |
| `Base64.Base64Encode` | code/shared/base64.cpp:18-47 | The loop over the buffers writes that text, of exactly that length. |
| `Base64.PutPadding` | code/shared/base64.cpp:43-44 | The loop that overwrites the last characters with =. |
| `Base64.Decoder.BuildDecodingTable` | code/shared/base64.cpp:92-100 | The table maps each letter to its place in the alphabet. |
| `Base64.Decoder.Base64Decode` | code/shared/base64.cpp:50-85 | The loop over the buffers computes the decoding of the specification, null for lengths that are not a multiple of four. |

## Left out

- Resolving a component list read from JSON, platform filters, dynamic libraries and component instances: foreign calls.
- LoadComponent: the null entry that the map's index operator leaves behind for an unknown name is not modelled, because the fatal error follows.
- AddDependency: the dependency vectors of all components are one map keyed by component, so that two components never share a vector.
- LoadDeps: the call to Initialize stands for its place in the order; what it does is not part of this model.
- Parse: reading past the 256-character buffer and atoi outside int are undefined in C and are reported as errors here.
- LoadDeps and InitDeps recurse to a ghost depth, because the source does not return on a reachable cycle; the theorems quantify over it.
- TransitiveOrderFailsOnCycles: where between a dependency that leads back and its dependent the other dependencies fall depends on where the sort enters the cycle and is not characterised.
- MatchesComposes: matching with empty categories is not transitive, because a missing category reads as the empty string; hence the condition.
- Construct: more than 255 locals, verification of the dynamic method by the runtime, delegates and security attributes.
- ConstructCorrect: convert functions, casts, boxing and the called method are uninterpreted functions of the runtime; IntPtr and UIntPtr parameters fail at compile time for want of a convert function, as in the source.
- CommandCorrect: the constant 1 or 2 that Ldc_I4_S takes there is emitted as an int; the index it denotes is modelled.
- Tick: exceptions and cancellation of tasks, execution context flow, profiler scopes and queueing from other threads.
- QueueTask: which errors the runtime raises for starting a task twice; such a start has no effect here.
- RateIsKept: floating-point rounding; times and amounts are real numbers. Every call passes the same rate and burst size.
- ConsumeWithBorrowNonBlocking: the method is the caller that runs alone, for which the one-line rule holds; calls that interleave are in TokenBorrow.
- BorrowedKeepsRate: a borrower whose late drain returns a negative amount is counted with what it is given in sum.
- GainsKeepRate: and UnpumpedKeepRate are sufficient for one list of calls; the exact condition is stated for calls that may be made any number of times (GainsExactly).
- consumeWithBorrowAndWait and the clock: sleeping.
- TableComesBackExactly: tables that list a field twice; such a table may come back although its fields overlap, when it reads the same backwards (BackwardsUndoes).
- ApplyRelocations: memory protection, section loading and the snapshot hash; the table lies in the image and addresses are offsets in it.
- UnpackEncoded: text is a byte string without UTF-8 decoding, floating-point numbers are their bits, and a function reference is its data.
- UnpackMap: ToString of keys that are not strings is an uninterpreted function.
- WireValid: the same objects as Serialize.
- SerializeEntries: keys that are not strings.
- SerializedDecodes: the same objects as Serialize.
- Serialize: dictionaries with keys that are not strings, properties by reflection, enumerations, decimal, DateTime and Guid; leaf encodings are those of the MessagePack specification, the shortest each, since the packer library is not part of this model.
- EveryBoxDestroyedOnce: throwing constructors, the non-owning view, and the choice of overloads and noexcept; self-assignment of a full wrapper is excluded by its exact condition.
- Erasure.constructor: an uninitialised wrapper is given the empty command before its first operation.
- AssignedTargetExactly: the compiler-generated assignment of signals, which shares connection objects that both signals then delete, is not modelled.
- NeverDangling: lock policies, arities 1 to 8 (the same code) and connections removed during an emission.
- Target.DisconnectAll and Target.Copy go through the sender set in any order; the source goes by address.
- SurfacesAreExclusive: the pixels are one value, handles shared between processes are the fields of one object, and a surface shown is shown until it is given back.
- SinkIsPrefix: what a decompressor makes of the bytes, curl, moving files and the message pump; the server honours ranges. A transfer is a script of events.
- ProcessDownload: the buffer of the one file kept in memory is the same sink, and failing to write it out counts as failing to move the file into place.
- Base64Decode: empty text, on which the source indexes before the start, and characters of 128 and more, which index before the table.
- Hooking, registry, windows, installation and crash dumps: foreign calls with nothing to prove.
