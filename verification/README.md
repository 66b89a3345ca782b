# Verification of the type registry, the text codecs and the hash records

This project models, and proves properties of, the parts of the repository that hold state or
encode data:

* the type registry runtime that is compiled into the Python extension: modules bring sorted tables
  of type descriptors and rows of cast records; loading splices a module into a ring, shares
  descriptors by name and merges cast records into doubly linked lists; lookups reorder those lists;
  queries search the ring and are cached; client data spreads over converter-less casts; wrapped
  pointers are converted and change hands;
* the hexadecimal pack and unpack pair, and the pointers kept in documentation strings;
* Base64 over the bit-regrouping iterators;
* salted hash records and their table.

Objects that the program updates in place are classes (`TypeInfo`, `CastInfo`, `ModuleInfo`,
`Interpreter`, `Wrapper`, `TransformWidth`, `HashTable`), buffers are arrays, and loops are loops. Each
method is tied to a function of its inputs or of the old state; the theorems are about those
functions and about whole runs.

| file | contents |
|---|---|
| `CStrings.dfy` | bytes, C strings, the two character orders |
| `TypeNames.dfy` | comparison of type names that ignores spaces, alias lists |
| `CastLists.dfy` | descriptors, cast records, move-to-front lookups |
| `Registry.dfy` | modules and what a load computes, on values |
| `Queries.dfy` | binary search, ring search, alias scan |
| `RegistryRuns.dfy` | the invariant of the registry and the theorems over runs |
| `Loader.dfy` | merging a module's table and cast rows in memory |
| `ClientData.dfy` | spreading client data over the cast graph |
| `Marks.dfy` | client data over whole runs of an interpreter |
| `Interpreters.dfy` | the ring in memory and one interpreter with its history |
| `Conversion.dfy` | converting wrapped pointers and their ownership |
| `LateCasts.dfy` | a program in which a cast is inserted without redirecting its type |
| `PackData.dfy` | hexadecimal text and framed values |
| `DocPointers.dfy` | pointers in documentation strings |
| `BitStreams.dfy` | bit streams and the regrouping iterator |
| `Base64.dfy` | Base64 |
| `HashRecords.dfy` | salted records and their table |

What is assumed of the program's data: one interpreter; the static structures of a module are its
own and untouched before its first load; each initial table is strictly sorted by `strcmp`; the
sources of a cast row are distinct and come from the module's own table. Randomness is a parameter
that delivers a non-zero byte for every place sooner or later, and the digest is an arbitrary
function of the bytes fed to it.

Two places where the code and its description differ; the model follows the code. The comment at
`HingeFramework/hinge_framework.cxx:7323-7334` says a cast between two types that are both loaded is
ignored; the code (lines 7457-7476) inserts it when it is missing, and leaves its type pointer as it
was. `HingeFramework/Hash.cpp:71` declares `SALT_LENGTH` bytes for a buffer in which line 29 writes
index `SALT_LENGTH`: `SaltToUse` reports that write, and what is proved of records with a fresh salt
takes the terminator to be found where it was written.

Nothing in the repository calls `SWIG_PropagateClientData`; what is stated about it, and about loads
followed by it, is what its comment (lines 7502-7505) says it is for.

## Model

| member | source | states |
|---|---|---|
| `CStrings.LexZeroIsEqual` | HingeFramework/hinge_framework.cxx:629-630 | a three-way comparison is 0 exactly on equal strings, in either character order |
| `CStrings.LexAntisymmetric` | HingeFramework/hinge_framework.cxx:437-446 | swapping the arguments of the order negates it |
| `CStrings.LexTransitive` | HingeFramework/hinge_framework.cxx:437-446 | the order is transitive, so with antisymmetry a total preorder on the space-erased names |
| `CStrings.LexByFirstDifference` | HingeFramework/hinge_framework.cxx:437-446 | the order is that of the first difference, by unsigned or by signed character values, a proper prefix first; the value is -1, 0 or 1 |
| `CStrings.StrCmpIsByteOrder` | HingeFramework/hinge_framework.cxx:629-630 | strcmp is negative exactly when the first string is a proper prefix or has the smaller byte at the first difference |
| `CStrings.UpToNulReads` | HingeFramework/hinge_framework.cxx:733-742 | a terminated string is read back from memory, whatever follows it |
| `TypeNames.TypeNameComp` | HingeFramework/hinge_framework.cxx:437-446 | the loop computes the comparison `NameComp`, whose meaning the next rows state, for all pointer positions and reads past a terminator included |
| `TypeNames.NameCompMeaning` | HingeFramework/hinge_framework.cxx:432-446 | 0 exactly for names equal up to spaces that do not end in one; otherwise, for names not ending in a space, the sign is the lexicographic order of the space-erased names |
| `TypeNames.EraseConcat` | HingeFramework/hinge_framework.cxx:441-442 | skipping spaces works piece by piece and leaves nothing of a space |
| `TypeNames.EraseKeeps` | HingeFramework/hinge_framework.cxx:441-442 | a name without spaces is compared as it is |
| `TypeNames.DifferenceValue` | HingeFramework/hinge_framework.cxx:440-444 | at the first difference of names without spaces the value is 1 or -1 by signed characters |
| `TypeNames.PrefixValue` | HingeFramework/hinge_framework.cxx:440-445 | where one name is used up the value is the difference of the lengths |
| `TypeNames.NameCompInBounds` | HingeFramework/hinge_framework.cxx:441-442 | no read leaves either string when the second name is whole and does not end in a space |
| `TypeNames.OverrunIff` | HingeFramework/hinge_framework.cxx:440-445 | a name, whole or in a list, against a whole query: both pointers pass their ends exactly when the name and the query have a space last and the query equals, up to spaces, everything from the name on, the rest of the list included |
| `TypeNames.WholeOverrunIff` | HingeFramework/hinge_framework.cxx:440-445 | for two whole names: exactly when the names agree up to spaces and both end in one |
| `TypeNames.TrailingSpaceOverruns` | HingeFramework/hinge_framework.cxx:441-445 | a concrete pair of names ending in a space for which both pointers pass their terminators |
| `TypeNames.PastEndNeverEqual` | HingeFramework/hinge_framework.cxx:440-445 | after a pointer has passed its end, equality is never reported |
| `TypeNames.TypeCmp` | HingeFramework/hinge_framework.cxx:452-465 | the walk over the names separated by bars returns what the recursive specification says |
| `TypeNames.TypeEquiv` | HingeFramework/hinge_framework.cxx:471-474 | 1 exactly when some alias, an empty last one not counted, equals the query up to spaces; a read past a terminator exactly when the walk overruns; otherwise 0 |
| `TypeNames.CmpFindsAlias` | HingeFramework/hinge_framework.cxx:453-465 | the walk ends in equality exactly when an alias matches, and reads past a terminator exactly when the query ends in a space and one of the comparisons overruns |
| `TypeNames.WalkOverrunsMeans` | HingeFramework/hinge_framework.cxx:453-465 | which comparisons overrun: those of a name with a space last such that everything from it on equals the query up to spaces |
| `TypeNames.AliasFromMeaning` | HingeFramework/hinge_framework.cxx:457-463 | the recursive alias test says that one of the names between bars is equivalent to the query |
| `TypeNames.AliasFromMeans` | HingeFramework/hinge_framework.cxx:457-463 | those names start at the beginning or behind a bar and go on to the next bar or the end |
| `TypeNames.CmpValue` | HingeFramework/hinge_framework.cxx:453-465 | without a match the walk returns what the comparison with the last name returned |
| `TypeNames.NoAliasForSpaceEnded` | HingeFramework/hinge_framework.cxx:453-465 | a query that ends in a space is equivalent to no name of any list |
| `CastLists.TypeCheck` | HingeFramework/hinge_framework.cxx:479-501 | the lookup by name returns the first node whose source has that name, a record declared with it, moves it to the head, keeps the order of the rest, the set of records and both link directions; null exactly when there is none |
| `CastLists.TypeCheckStruct` | HingeFramework/hinge_framework.cxx:506-528 | the same for the lookup by descriptor |
| `CastLists.Relink` | HingeFramework/hinge_framework.cxx:484-494 | the pointer writes leave the links of the list with the chosen node in front |
| `CastLists.Promote` | HingeFramework/hinge_framework.cxx:484-494 | unlinking and relinking one node is a move to front of a well-formed doubly linked list |
| `CastLists.InsertCast` | HingeFramework/hinge_framework.cxx:7471-7475 | a fresh record becomes the head of a well-formed list and the old list its tail |
| `CastLists.NodesDistinct` | HingeFramework/hinge_framework.cxx:410-416 | a list whose links are consistent has no node twice, so it is acyclic |
| `CastLists.MoveToFrontPermutes` | HingeFramework/hinge_framework.cxx:484-494 | a move to front only permutes: same multiset, the chosen node first, the others in order |
| `CastLists.PlainMoved` | HingeFramework/hinge_framework.cxx:484-494 | a move to front keeps which sources cast without a converter |
| `Queries.SearchTable` | HingeFramework/hinge_framework.cxx:621-645 | binary search over a sorted table equals a linear scan: every probe in bounds, no underflow at 0, terminates |
| `Queries.MangledTypeQueryModule` | HingeFramework/hinge_framework.cxx:615-649 | over a ring segment with sorted tables it returns the match of the first module that has one, whether or not start equals end |
| `Queries.ScanAliases` | HingeFramework/hinge_framework.cxx:673-677 | the first descriptor of one table with a matching alias, for every query; a comparison reads past a terminator exactly when some alias list overruns |
| `Queries.TypeQueryModule` | HingeFramework/hinge_framework.cxx:660-684 | refines the naive search for every query: mangled matches anywhere first, then the first alias match in ring and index order, null when neither exists; reads past a terminator exactly when there is no mangled match and some alias list overruns |
| `Queries.FindInFinds` | HingeFramework/hinge_framework.cxx:627-641 | the linear scan finds a name exactly when the table has it |
| `Queries.FindAliasInFinds` | HingeFramework/hinge_framework.cxx:674-677 | the first index with a matching alias determines the answer of the scan |
| `Queries.FindAliasIsFirst` | HingeFramework/hinge_framework.cxx:669-680 | over the ring, the answer is the first alias match in ring and then index order |
| `Queries.FindAliasAt` | HingeFramework/hinge_framework.cxx:669-680 | every answer of the alias scan is the first match of the ring |
| `Queries.FindAliasNone` | HingeFramework/hinge_framework.cxx:669-680 | the alias scan of the ring is null exactly when no descriptor in it has the alias |
| `Queries.FindMangledNone` | HingeFramework/hinge_framework.cxx:615-649 | the mangled search of the ring is null exactly when no descriptor in it has the name |
| `Queries.FindNone` | HingeFramework/hinge_framework.cxx:660-684 | the whole search is null exactly when no descriptor in the ring has the name or the alias |
| `Queries.OverrunAnswersNothing` | HingeFramework/hinge_framework.cxx:669-680 | a query that overruns in one table has no alias match in any, so the scan never passes over an overrun to a match |
| `Queries.NotRightOf` | HingeFramework/hinge_framework.cxx:632-637 | in a sorted table a smaller name is not to the right of the probe |
| `Queries.NotLeftOf` | HingeFramework/hinge_framework.cxx:638-640 | in a sorted table a greater name is not to the left of the probe |
| `Registry.NewLiveAll` | HingeFramework/hinge_framework.cxx:7408-7435 | which descriptor shares each name after a load: the one before, or the module's own initial entry |
| `Registry.NewLiveSlot` | HingeFramework/hinge_framework.cxx:7418-7435 | what slot i gets: the descriptor shared before, if there is one, else the initial entry |
| `Registry.LoadChainsAt` | HingeFramework/hinge_framework.cxx:7436-7478 | the list of the type in slot i after a load is its old list with that slot's row merged in |
| `Registry.LoadChainsOther` | HingeFramework/hinge_framework.cxx:7436-7478 | the lists of all other types stay as they were |
| `Registry.TouchKeepsNames` | HingeFramework/hinge_framework.cxx:7457-7476 | merging one record adds its source name, or none when present, and keeps sources distinct |
| `Registry.PromoteKeepsNames` | HingeFramework/hinge_framework.cxx:484-494 | a move to front keeps the castable names and their distinctness |
| `RegistryRuns.LoadKeepsInv` | HingeFramework/hinge_framework.cxx:7360-7482 | a load keeps the invariant of ring, shared descriptors, cast lists and cache together |
| `RegistryRuns.StepKeepsInv` | HingeFramework/hinge_framework.cxx:7360-7482 | every step, load, lookup by name or descriptor, or query, keeps it |
| `RegistryRuns.RunKeepsInv` | HingeFramework/hinge_framework.cxx:7360-7482 | it holds after every run, and the loaded modules are those the run loads |
| `RegistryRuns.CastableIffDeclared` | HingeFramework/hinge_framework.cxx:7408-7481 | after any run of loads, lookups and queries, looking up source c in the list of t succeeds exactly when some loaded module declared a cast from c to t |
| `RegistryRuns.CastableInAnyOrder` | HingeFramework/hinge_framework.cxx:7408-7481 | two runs that load the same modules, in any order and with any lookups between, know the same types and make the same casts found |
| `RegistryRuns.NoDuplicateCasts` | HingeFramework/hinge_framework.cxx:7436-7478 | no list holds two nodes with the same source name after any run |
| `RegistryRuns.RowOrder` | HingeFramework/hinge_framework.cxx:7436-7478 | the order of a merged list: the row's sources, the last one first, then the rest of the old list in its order |
| `RegistryRuns.RecordOfRun` | HingeFramework/hinge_framework.cxx:7438-7477 | the record that first declared a cast in a run is an entry of the type's row in a loaded module, and there is just one |
| `RegistryRuns.StructLookupIff` | HingeFramework/hinge_framework.cxx:7457-7476 | after any run the lookup by descriptor finds any given descriptor exactly when it is the source of a declared cast: the shared one, or, when the first declaring module found both types loaded, that module's own, because its record is inserted without redirecting its type |
| `RegistryRuns.RingAfterRun` | HingeFramework/hinge_framework.cxx:7366-7396 | after any run the ring holds each loaded module once, the first at the head and the others newest first behind it |
| `RegistryRuns.SearchFinds` | HingeFramework/hinge_framework.cxx:661-684 | a loaded mangled name is found at its shared descriptor; any answer is a shared descriptor with that name or alias |
| `RegistryRuns.FindMangledIsLive` | HingeFramework/hinge_framework.cxx:615-649 | scanning the tables of a ring finds the shared descriptor of every loaded name, and only those |
| `RegistryRuns.SlotsSorted` | HingeFramework/hinge_framework.cxx:7480-7482 | a filled table is as sorted as the initial one |
| `RegistryRuns.CachePersists` | HingeFramework/hinge_framework.cxx:2958-2974 | a cached answer is never changed or dropped |
| `RegistryRuns.CachedMangledStaysFresh` | HingeFramework/hinge_framework.cxx:2956-2977 | an answer cached for a mangled name equals a fresh search after any later steps |
| `RegistryRuns.MissIsNotCached` | HingeFramework/hinge_framework.cxx:2965-2973 | over any run whose queries for a name all missed, whatever else it did: once the name is loaded, the next query finds and caches its shared descriptor |
| `RegistryRuns.CachedIff` | HingeFramework/hinge_framework.cxx:2958-2974 | after any run an answer is cached exactly when some query of the run for it found one |
| `RegistryRuns.MissThenLoad` | HingeFramework/hinge_framework.cxx:2965-2973 | a miss, the load of a module with the type, the same query again: the module's own descriptor is found |
| `RegistryRuns.CachedIsFreshIff` | HingeFramework/hinge_framework.cxx:2956-2977 | after any run a cached answer equals a fresh search exactly when it has the query as its mangled name or, while no loaded type has that name, is the first alias match of the present ring |
| `RegistryRuns.AliasAnswerAfterLoad` | HingeFramework/hinge_framework.cxx:669-680 | an answer found by alias agrees with a fresh search after a load exactly when the new module lacks the mangled name and is not asked first with another answer |
| `RegistryRuns.TablesAfterLoad` | HingeFramework/hinge_framework.cxx:7391-7395 | a load puts the new table right behind the head's and leaves all others unchanged |
| `Loader.LookUpLoaded` | HingeFramework/hinge_framework.cxx:7417-7420 | the search of the rest of the ring finds exactly the descriptors shared before the load |
| `Loader.AddRecord` | HingeFramework/hinge_framework.cxx:7438-7476 | one record: redirected, skipped or inserted as the source has it, the list is the specified one, and the record is in it exactly when its cast was missing |
| `Loader.AddRow` | HingeFramework/hinge_framework.cxx:7436-7478 | one row of records, merged into a doubly linked list in memory: exactly the records whose sources were missing are added, each under the name it was declared with |
| `Loader.MissingAreFirst` | HingeFramework/hinge_framework.cxx:7438-7476 | the records that a load adds are the first declarations of their casts |
| `Loader.MergeRow` | HingeFramework/hinge_framework.cxx:7436-7478 | merging a row changes the list of its type alone |
| `Loader.ChooseType` | HingeFramework/hinge_framework.cxx:7409-7434 | slot i reuses a loaded descriptor and overwrites its client data if the initial entry has any, or takes the initial entry |
| `Loader.FillSlot` | HingeFramework/hinge_framework.cxx:7408-7481 | one slot: its type, its client data, its list and the table entry |
| `Loader.FillTable` | HingeFramework/hinge_framework.cxx:7404-7482 | all slots and the null at the end: table, lists and client data are the specified ones |
| `Loader.LoadDataAt` | HingeFramework/hinge_framework.cxx:7421-7431 | client data after a load: slot i's initial data overwrites the shared descriptor's unless it is null |
| `Loader.LoadDataElsewhere` | HingeFramework/hinge_framework.cxx:7421-7431 | client data of descriptors that are in no slot is kept |
| `Loader.LoadDataKeepsSet` | HingeFramework/hinge_framework.cxx:7421-7431 | a load never turns client data that is set into null |
| `Loader.CheckShared` | HingeFramework/hinge_framework.cxx:479-501 | a lookup on a shared descriptor reorders its list and leaves all other lists intact |
| `ClientData.TypeClientData` | HingeFramework/hinge_framework.cxx:585-600 | leaves exactly the specified marking, null included; with client data that is not null it terminates on every graph, with null wherever the recursion ends |
| `ClientData.EndsIff` | HingeFramework/hinge_framework.cxx:585-600 | with null client data the recursion ends exactly when no cycle of converter-less casts is reachable through unset types |
| `ClientData.SelfCastNeverEnds` | HingeFramework/hinge_framework.cxx:7244-7266 | so it never ends on a type with a converter-less cast from itself, which every generated row has |
| `ClientData.NullSpread` | HingeFramework/hinge_framework.cxx:585-600 | a call with null changes its start alone |
| `ClientData.SpreadMeaning` | HingeFramework/hinge_framework.cxx:585-600 | the marking sets the start type and every originally unset type reachable over converter-less casts along unset types, and no other |
| `ClientData.Visit` | HingeFramework/hinge_framework.cxx:592-597 | one cast: followed when it has no converter and its source is unset |
| `ClientData.VisitNth` | HingeFramework/hinge_framework.cxx:590-598 | one round of the loop: records up to the next are dealt with and the marking so far stays one, with null too |
| `ClientData.MarkingStep` | HingeFramework/hinge_framework.cxx:591-599 | marking from a child extends the set marked so far by what the child reaches |
| `ClientData.MarkingDone` | HingeFramework/hinge_framework.cxx:591-599 | when all children of marked types are marked, the marking is complete |
| `ClientData.PropagateClientData` | HingeFramework/hinge_framework.cxx:7506-7527 | runs once, sets only what marked slots reach, and completes the closure |
| `ClientData.PropagatedMeaning` | HingeFramework/hinge_framework.cxx:7515-7524 | a set type keeps its data, an unset one gets that of the first slot in table order that was set and reaches it, and stays unset when there is none |
| `ClientData.PropagatedIsClosed` | HingeFramework/hinge_framework.cxx:7515-7524 | afterwards marked types of the module are closed under converter-less casts |
| `ClientData.SpreadKeepsClosed` | HingeFramework/hinge_framework.cxx:585-600 | a call with client data that is not null keeps all marks closed under converter-less casts |
| `ClientData.UnsetKeepsClosedIff` | HingeFramework/hinge_framework.cxx:585-588 | unsetting one type keeps all marks closed exactly when no other marked type has a converter-less cast from it |
| `ClientData.PropagatedCloses` | HingeFramework/hinge_framework.cxx:7515-7524 | propagation closes the marks of the module's slots and so, when the others were closed, all marks |
| `Marks.NewInterpreter` | HingeFramework/hinge_framework.cxx:2888-2905 | a new interpreter has closed marks: every type that casts without a converter to a marked type is marked |
| `Marks.SharedMarks` | HingeFramework/hinge_framework.cxx:585-600 | what that means for shared descriptors: the source of a converter-less cast to a marked type is marked, and it is the shared descriptor exactly when the cast is not late |
| `Marks.TypeCheck` | HingeFramework/hinge_framework.cxx:479-501 | a lookup by name keeps the marks of the whole registry closed |
| `Marks.TypeCheckStruct` | HingeFramework/hinge_framework.cxx:506-528 | so does a lookup by descriptor |
| `Marks.TypeQuery` | HingeFramework/hinge_framework.cxx:2955-2977 | so does a query |
| `Marks.TypeClientData` | HingeFramework/hinge_framework.cxx:585-600 | so does setting client data, null included, unless null unmarks a type that casts without a converter to another marked type |
| `Marks.ClosedWithNew` | HingeFramework/hinge_framework.cxx:7194-7216 | the descriptors of a module about to be loaded have no casts yet, so the marks are closed with them |
| `Marks.OpenAtSlots` | HingeFramework/hinge_framework.cxx:7408-7481 | after a load only the marks at the new module's slots can be open |
| `Marks.Initialize` | HingeFramework/hinge_framework.cxx:7359-7482 | loading a module opens marks at its slots alone, loading it again opens none |
| `Marks.Propagate` | HingeFramework/hinge_framework.cxx:7506-7527 | propagation of a module closes the marks that are open at its slots |
| `Marks.Load` | HingeFramework/hinge_framework.cxx:7359-7527 | a load followed by the propagation of its module keeps all marks closed; with the rows above, so does every run of such loads, lookups, queries and settings |
| `Interpreters.Interpreter.constructor` | HingeFramework/hinge_framework.cxx:2888-2905 | an interpreter starts with no module and an empty cache |
| `Interpreters.LinkBehind` | HingeFramework/hinge_framework.cxx:7393-7395 | linking a module behind the head keeps one cycle, and the search path from the module is the rest of the ring |
| `Interpreters.LinkModule` | HingeFramework/hinge_framework.cxx:7366-7402 | the ring walk terminates; a module found in the ring changes nothing, another one is linked in behind the head |
| `Interpreters.Initialize` | HingeFramework/hinge_framework.cxx:7359-7482 | the memory reached from the head holds the registry after the load; a repeated load keeps the head |
| `Interpreters.CanonicalSlots` | HingeFramework/hinge_framework.cxx:7408-7435 | two slots anywhere in the ring hold the same object exactly when their initial entries have the same name; slots keep the name of their entry and tables stay sorted |
| `Interpreters.Interpreter.InitializeModule` | HingeFramework/hinge_framework.cxx:7359-7500 | a load takes the interpreter from one registry of a run to the next, every list holding the records that first declared its casts, and overwrites client data as specified |
| `Interpreters.Interpreter.TypeCheck` | HingeFramework/hinge_framework.cxx:479-501 | in an interpreter with any history, the lookup by name succeeds exactly when some loaded module declared the cast; the hit is at the head of the list and is the record, with its converter, of the first module that declared it |
| `Interpreters.Interpreter.TypeCheckStruct` | HingeFramework/hinge_framework.cxx:506-528 | the same for the lookup by descriptor, shared or not: it succeeds exactly on the source of a declared cast, and finds the record that declared it first |
| `Interpreters.Interpreter.TypeClientData` | HingeFramework/hinge_framework.cxx:585-600 | spreads client data over the whole registry and changes nothing else; null where no cycle lies ahead |
| `Interpreters.Interpreter.PropagateClientData` | HingeFramework/hinge_framework.cxx:7506-7527 | propagates once per module and changes nothing else |
| `Interpreters.Interpreter.TypeQuery` | HingeFramework/hinge_framework.cxx:2955-2977 | for every query the cached answer, or the answer of a full search, which is then cached unless it is a miss; reads past a terminator exactly when the query is not cached and the search overruns |
| `LateCasts.LateAfterLoads` | HingeFramework/hinge_framework.cxx:7457-7476 | a cast between known types that the second of two modules alone declares is late, and its source is that module's own descriptor |
| `LateCasts.LateCast` | HingeFramework/hinge_framework.cxx:506-528 | a program of two loads after which the lookup misses the shared descriptor of a cast's source, finds the second module's own one, and finds their common name |
| `Conversion.Wrapper.Append` | HingeFramework/hinge_framework.cxx:1940-1951 | appending to wrapper k of a chain a wrapper outside it gives the chain with that wrapper inserted behind wrapper k |
| `Conversion.Wrapper.Acquire` | HingeFramework/hinge_framework.cxx:1974-1980 | acquiring sets ownership |
| `Conversion.Wrapper.Disown` | HingeFramework/hinge_framework.cxx:1966-1972 | disowning clears ownership |
| `Conversion.WrappersDistinct` | HingeFramework/hinge_framework.cxx:2540-2566 | a chain of wrappers that ends is without repetition |
| `Conversion.InsertedLinks` | HingeFramework/hinge_framework.cxx:1948-1949 | the two links that an append writes make a chain of the old one and the inserted wrapper |
| `Conversion.FindWrapper` | HingeFramework/hinge_framework.cxx:2540-2570 | the loop stops at the first wrapper that has the target type or a declared cast to it, with its pointer, converted by the converter of that cast |
| `Conversion.CastsByName` | HingeFramework/hinge_framework.cxx:533-536 | a record with a converter gives its image of the pointer, one without the pointer itself |
| `Conversion.LookUpStruct` | HingeFramework/hinge_framework.cxx:506-528 | after any lookups a lookup by descriptor finds what it would have found before them |
| `Conversion.HandOverWrapper` | HingeFramework/hinge_framework.cxx:2570-2583 | a release, which is clear and disown, of a wrapper that is not owned fails and changes nothing; otherwise disown alone clears the ownership and clear alone the pointer |
| `Conversion.ConvertPtrAndOwn` | HingeFramework/hinge_framework.cxx:2521-2583 | the first convertible wrapper decides status, pointer and ownership, each stated by the flags; only its fields change, only its list is reordered, and all error returns are as in the source |
| `Conversion.ReleaseOnce` | HingeFramework/hinge_framework.cxx:2571-2580 | between two release conversions of a wrapper that succeed, it is acquired |
| `Conversion.DisownedNeedsAcquire` | HingeFramework/hinge_framework.cxx:2571-2580 | after a disown, or any successful conversion with that flag, a release succeeds only after an acquire |
| `Conversion.ReleaseNeedsOwnership` | HingeFramework/hinge_framework.cxx:2571-2580 | a release conversion succeeds only with ownership from the start or from an acquire before it |
| `Conversion.LookupsDeclareNothing` | HingeFramework/hinge_framework.cxx:479-501 | lookups and queries do not change which casts are declared |
| `PackData.PackData` | HingeFramework/hinge_framework.cxx:689-700 | writes two digits per byte at the offset and nothing else |
| `PackData.PackedDigits` | HingeFramework/hinge_framework.cxx:689-700 | byte i becomes the lower-case digits of its high and then its low half |
| `PackData.HexDigitIs` | HingeFramework/hinge_framework.cxx:689-700 | the sixteen digits, each at its value, and their values |
| `PackData.DigitValueIs` | HingeFramework/hinge_framework.cxx:709-725 | exactly the digits and the letters a to f have a value |
| `PackData.UnpackData` | HingeFramework/hinge_framework.cxx:705-728 | stops at the first character that is no lower-case digit, the terminator included; the bytes before it are written and no others |
| `PackData.AcceptedIffHex` | HingeFramework/hinge_framework.cxx:705-728 | a text is accepted exactly when its first 2 sz characters exist and each is a digit or a letter from a to f |
| `PackData.UnpackPacked` | HingeFramework/hinge_framework.cxx:689-728 | unpacking inverts packing for every byte string, whatever follows |
| `PackData.PackUnpacked` | HingeFramework/hinge_framework.cxx:689-728 | packing what was unpacked gives the digits back |
| `PackData.PackVoidPtr` | HingeFramework/hinge_framework.cxx:733-742 | succeeds exactly when text and terminator fit, writes them and nothing else, and never past the given size |
| `PackData.PackDataName` | HingeFramework/hinge_framework.cxx:757-770 | the same for data of any size with an optional name; on failure the buffer is untouched |
| `PackData.UnpackDataName` | HingeFramework/hinge_framework.cxx:744-783 | underscore, digits and the rest as name; the text NULL gives zero bytes and the caller's name; anything else is rejected and writes nothing |
| `PackData.FramedUnpacks` | HingeFramework/hinge_framework.cxx:733-783 | a framed text unpacks to the same bytes with the name as remainder |
| `DocPointers.FixMethods` | HingeFramework/hinge_framework.cxx:7575-7613 | exactly the documentation strings that name a non-null pointer constant are replaced by their patched form |
| `DocPointers.FixedKeeps` | HingeFramework/hinge_framework.cxx:7581-7595 | a string without a marker, or with no constant named behind the first one, stays as it is |
| `DocPointers.FixedPatches` | HingeFramework/hinge_framework.cxx:7581-7607 | the first constant named behind the first marker decides: for a pointer that is not null its digits and type name replace the text behind the marker, else nothing changes |
| `DocPointers.WriteDoc` | HingeFramework/hinge_framework.cxx:7598-7607 | the patched text and its terminator fill the allocation to the last byte |
| `DocPointers.LookUpConst` | HingeFramework/hinge_framework.cxx:7586-7592 | the first constant whose name is a prefix of the text behind the marker |
| `DocPointers.MarkerStays` | HingeFramework/hinge_framework.cxx:7581-7607 | the first marker of the patched text is at the original offset |
| `DocPointers.PatchedReadsBack` | HingeFramework/hinge_framework.cxx:2649-2651 | reading a patched text finds its marker at the old offset and recovers the same pointer bytes and type name |
| `DocPointers.ParseIs` | HingeFramework/hinge_framework.cxx:2649-2651 | what is read behind the first marker: an underscore, 2 size digits and a name, or the text NULL, and nothing else |
| `DocPointers.PointerDigit` | HingeFramework/hinge_framework.cxx:2646-2651 | byte i of a pointer is its digit to the base 256 at place i |
| `DocPointers.ReadPointer` | HingeFramework/hinge_framework.cxx:2649-2651 | the reading part, by search for the marker and unpacking through memory, is the specified parser |
| `DocPointers.ConvertFunctionPtr` | HingeFramework/hinge_framework.cxx:2637-2668 | a function object converts exactly when its text parses and a cast from the type named there is declared |
| `BitStreams.TransformWidth.constructor` | HingeFramework/internal_include/boost/archive/iterators/transform_width.hpp:108-120 | a new iterator has an empty buffer |
| `BitStreams.TransformWidth.Fill` | HingeFramework/internal_include/boost/archive/iterators/transform_width.hpp:133-171 | no bit is lost or reordered: what is put out and left over is what was left and read, filled up with zeros after the end; throws only where the base throws, with too few bits collected |
| `BitStreams.TransformWidth.Refill` | HingeFramework/internal_include/boost/archive/iterators/transform_width.hpp:143-152 | the next word is read only when no bits are left, and zeros are supplied after the end |
| `BitStreams.TransformWidth.Move` | HingeFramework/internal_include/boost/archive/iterators/transform_width.hpp:154-168 | shift, mask and or move the top bits left into the output |
| `BitStreams.MoveBits` | HingeFramework/internal_include/boost/archive/iterators/transform_width.hpp:156-164 | the shift and mask arithmetic moves exactly those bits and stays within the width |
| `BitStreams.TransformWidth.AtEnd` | HingeFramework/internal_include/boost/archive/iterators/transform_width.hpp:74-85 | the end test: left-over bits are discarded when narrowing the count, zero-filled otherwise |
| `BitStreams.TransformWidth.Next` | HingeFramework/internal_include/boost/archive/iterators/transform_width.hpp:68-94 | one more value keeps all bits accounted for |
| `BitStreams.Collect` | HingeFramework/internal_include/boost/archive/iterators/transform_width.hpp:66-171 | the whole range: its bits are the input's, less a rest too short for a value or plus zeros; terminates; fails exactly at a base that throws |
| `BitStreams.GroupsOfStream` | HingeFramework/internal_include/boost/archive/iterators/transform_width.hpp:137-171 | regrouping bits by their own width gives the words back |
| `BitStreams.StreamOfGroups` | HingeFramework/internal_include/boost/archive/iterators/transform_width.hpp:137-171 | complete groups keep every bit |
| `Base64.LettersOfSixes` | HingeFramework/internal_include/boost/archive/iterators/base64_from_binary.hpp:42-51 | writing a value inverts reading a letter of the alphabet |
| `Base64.BytesLength` | HingeFramework/internal_include/boost/archive/iterators/binary_from_base64.hpp:38-62 | n six-bit values give floor(6n/8) whole bytes |
| `Base64.CollectSixes` | HingeFramework/Base64.cpp:149-153 | the iterators yield the six-bit groups of the bytes, zero-filled |
| `Base64.EncodeBase64FromStr` | HingeFramework/Base64.cpp:146-161 | encoding, by way of the iterators, is the specified function |
| `Base64.CollectBytes` | HingeFramework/Base64.cpp:165-170 | the iterators yield whole bytes; they throw exactly on a character outside the alphabet and padding, or a length of 4k + 1, where the terminator is read |
| `Base64.DecodeBase64ToStr` | HingeFramework/Base64.cpp:163-184 | decoding with the padding rule is the specified function, index bounds included |
| `Base64.RoundTrip` | HingeFramework/Base64.cpp:146-184 | decoding inverts encoding for every byte string, zero bytes included |
| `Base64.UnpaddedRoundTrip` | HingeFramework/Base64.cpp:146-184 | decoding inverts encoding without the padding characters, too |
| `Base64.CStringRoundTrip` | HingeFramework/Base64.cpp:18-95 | for every C string the pair returning C strings gives it back |
| `Base64.EncodedBytes` | HingeFramework/Base64.cpp:170-182 | before stripping, an encoded text reads as its bytes and one zero byte per padding character |
| `Base64.EncodedShape` | HingeFramework/Base64.cpp:149-155 | 4 ceil(n/3) characters, (3 - n mod 3) mod 3 padding characters at the end, all others in the alphabet |
| `Base64.EncodedIsCanonical` | HingeFramework/Base64.cpp:149-155 | the bits that the padding leaves unused are zero |
| `Base64.CanonicalIsEncoded` | HingeFramework/Base64.cpp:146-161 | every canonical text is the encoding of some bytes |
| `Base64.EncodeInvertsDecode` | HingeFramework/Base64.cpp:146-184 | encoding after decoding gives a text back exactly when it is canonical |
| `Base64.EncodeIsBlockwise` | HingeFramework/Base64.cpp:32-72 | encoding equals the block arithmetic by three bytes that the iterators replaced |
| `Base64.EncodedCharacter` | HingeFramework/Base64.cpp:146-161 | character i is the RFC 4648 letter for six bits of its block of three bytes, in numbers, or padding behind the letters |
| `Base64.ValueOfLetter` | HingeFramework/internal_include/boost/archive/iterators/binary_from_base64.hpp:38-62 | exactly the RFC 4648 letters have their values, padding reads as zero, all else is rejected |
| `Base64.BytesAreBlocks` | HingeFramework/Base64.cpp:165-170 | four values give the three bytes of their 24 bits, in numbers; of the last block the whole bytes |
| `Base64.DecodesIff` | HingeFramework/Base64.cpp:163-170 | a text decodes exactly when its length is not 4k + 1 and all its characters are letters or padding |
| `Base64.DecodedBytes` | HingeFramework/Base64.cpp:170-182 | a decoded text is the bytes of its blocks, less two for two padding characters at the end and one for one |
| `HashRecords.GenerateRandomSalt` | HingeFramework/Hash.cpp:17-30 | sixteen bytes, each the first non-zero one drawn for its place, and a terminator at index SALT_LENGTH, which is in bounds exactly when the buffer is longer than SALT_LENGTH |
| `HashRecords.SaltToUse` | HingeFramework/Hash.cpp:57-84 | which sixteen bytes are digested and which salt is recorded, the failures in the order they occur, and that a fresh salt is terminated outside its buffer |
| `HashRecords.WriteHex` | HingeFramework/Hash.cpp:102-105 | two lower-case digits per digest byte, read back up to the terminator |
| `HashRecords.PrintHex` | HingeFramework/Hash.cpp:102-105 | the loop that overwrites each terminator by the next digits leaves the digits and one terminator, within the buffer |
| `HashRecords.Sha3_256` | HingeFramework/Hash.cpp:32-108 | the record for a text and a salt, or a fresh one, or the failure; a write out of bounds exactly with a fresh salt |
| `HashRecords.CompareHashes` | HingeFramework/Hash.cpp:110-113 | equality of the recomputed digest with the recorded one |
| `HashRecords.FreshRecordAccepts` | HingeFramework/Hash.cpp:57-113 | a record made with a fresh salt accepts a text exactly when the digests of salt and text agree, hence the text it was made from |
| `HashRecords.FreshRecordText` | HingeFramework/Hash.cpp:57-108 | the text of a fresh record is the lower-case digits of the digest of salt and text, high half first |
| `HashRecords.GivenSalt` | HingeFramework/Hash.cpp:57-70 | a given salt counts with its first sixteen bytes, the terminator included; one of less than fifteen is too short |
| `HashRecords.PackedInjective` | HingeFramework/Hash.cpp:102-113 | digest texts are equal exactly when the digests are |
| `HashRecords.HashTable.constructor` | HingeFramework/Hash.cpp:122-122 | a new table is empty |
| `HashRecords.HashTable.Store` | HingeFramework/Hash.cpp:115-150 | storing under a key that is there succeeds and changes nothing; otherwise the row is added |
| `HashRecords.HashTable.Retrieve` | HingeFramework/Hash.cpp:152-182 | the row under the key, or nothing |
| `HashRecords.HashTable.Delete` | HingeFramework/Hash.cpp:184-213 | the row goes, and the answer says whether there was one |
| `HashRecords.StaysStored` | HingeFramework/Hash.cpp:115-213 | a row is unchanged by any steps that do not delete its key |
| `HashRecords.StoredIff` | HingeFramework/Hash.cpp:115-213 | a key is in the table exactly when it was stored after its last delete, or was there and never deleted |
| `HashRecords.StoredIs` | HingeFramework/Hash.cpp:115-213 | and it holds the salt of the first record stored since it was last free, or the one it had at the start |
| `HashRecords.StoredRecordAccepts` | HingeFramework/Hash.cpp:110-213 | a fresh record stored under a free key is retrieved and accepts its text after any steps that do not delete its key |

## Left out

- Several interpreters sharing one static module, where `next` is set before the module is in this interpreter's ring (`HingeFramework/hinge_framework.cxx:7398-7402`).
- Argument wrappers, method tables, type objects, reference counts, Python exceptions and threads.
- Implicit conversion through Python constructors (`HingeFramework/hinge_framework.cxx:2585-2626`); conversion is modelled without that flag, and with both out-pointers given.
- `SwigPyObject_append` on an object already in a chain: conversion is stated for chains that end.
- Packed objects, dynamic casts, pretty names and the floating-point checks of integer conversion.
- Allocation failure in `SWIG_Python_FixMethods`, and the assertion that no converter allocates in `SWIG_Python_ConvertFunctionPtr`; the model returns the flag instead.
- Type names that are null: every descriptor has a name, so the branch marked as never happening has no counterpart.
- Machine widths of `size_t` and `int`: indices, lengths and pointer differences are unbounded.
- The `types` array of a module is a sequence field that is updated slot by slot.
- The digest library's failures, its internals, and termination of the retry loop when only zero bytes are drawn.
- SQLite: opening, keys, missing files or tables and failing statements; the table is a map.
- Spreadsheet and SQL handling, UUIDs and the cipher wrappers: plumbing over libraries, or easy fixed formats.
- What the program does after a read past a terminator: the model reports the read and stops there.
- ClientData.TypeClientData: requires that the recursion ends when the data is null; `EndsIff` says when it does, and otherwise the source recurses without end.
- What the write behind the buffer of a fresh salt overwrites.
- PackData.UnpackDataName: one method for the two unpackers, whose bodies differ in the size alone.
