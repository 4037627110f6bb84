# vmnet: resolution, collections, streams and time

vmnet runs compiled .NET assemblies inside a Go program. This project models the parts of it that
carry the most state and proves what they promise, in Dafny 4.11:

- **Resolving types and methods.** The interning protocol by which any number of threads share one
  Type object per name (`TypeInterning`), which questions it ever answers (`TypeAnswers`), whom it asks and
  in which order (`ResolutionOrder`) and what fields types inherit across assemblies and threads
  (`SharedLayout`), building a type with its slots and default values (`TypeBuilder`, `TypeLayout`,
  `AssemblyTypes`), when those defaults depend on the order of resolutions (`TypeDefaults`, `TypeNesting`),
  choosing an overload (`OverloadResolution`) and what the choice prefers (`OverloadPreferences`), finding an
  explicit interface implementation (`ExplicitImpl`), and loading a package with everything it depends on
  (`PackageGraph`, `PackageLoader`).
- **Collections.** Value equality and order (`Values`), HashSet and SortedSet (`HashSets`), dictionary
  keys as strings (`KeyEncoding`), Dictionary and SortedDictionary with their enumerator
  (`Dictionaries`, `DictEnumerators`), LinkedList on the heap (`LinkedLists`).
- **Shared objects.** Objects whose operations each run under the object's mutex (`LockedObjects`), with Lazy and
  ConcurrentDictionary as instances (`Lazies`, `ConcurrentDicts`), and linked cancellation sources
  (`Cancellation`).
- **Streams, text, time, delegates.** `MemoryStreams`, `StringReaders`, `Ticks`, `Delegates`.

`dafny verify dfyconfig.toml` checks all of it.

## How it is modelled

Code that changes fields is a class with those fields, and each method is proved to compute a function
of the old state; what the program promises is then proved about those functions, mostly over whole runs.
Code that many threads execute is a step machine in which one step is one critical section or one stretch
between two, and the theorems hold for every schedule. Recursion that the source bounds only by its data
carries a fuel, and the theorems say which fuel always suffices, and exactly when none does.

A function that several results share, such as the dependencies of an assembly, the row a package id stands
for, the score of a parameter or the order of keys, has laws of its own over the data it reads.

Metadata lookups are fixed maps. Go's 64-bit arithmetic wraps where it can overflow. A Go run-time panic
is an outcome of its own.

## What the proofs found

Some statements one would expect, some of them made in the source's comments, do not hold of the code. Each
is kept as it is and shown on an input; where a condition is called exact below, it is proved in both directions.

- The comment at `assembly.go:654-656` says nothing can beat the bonus for an exact call-site type name. That
  is so for methods of at most 17 parameters, and for every larger number two rival overloads show the
  opposite (`DominanceIffAtMost17`).
- Loading packages survives cycles, resolving names does not. A name is never answered, not even with a miss,
  exactly when the question belongs to a circle of questions that lead to one another: a declared type to its
  base, an undeclared name to the first dependency that does not miss, or to the base of what the index names
  (`NeverAnsweredIffInCircle`). Acyclic dependencies and inheritance settle everything (`AcyclicSettles`). What
  fields of value types resolve inside a build is taken to come back in this; the next point is about that.
- With well-formed signatures resolution in one assembly halts, fields included, exactly when the chain of bases
  leaves the assembly's own classes (`HaltsIffBaseChainEnds`). Without them the depth limit of 24 may not help: a
  field of a class whose signature calls a derived class a value type restarts the depth at every base
  (`MisKindedSignatureNeverHalts`). A rank over bases and fields is enough (`RankedHalts`); it is not shown to be
  necessary.
- The default values of structs that contain each other depend on which is resolved first
  (`DefaultsDependOnOrder`); field slots never do (`LayoutIgnoresOrder`). Nothing depends on order where value
  types nest no deeper than the limit (`ShallowTypesIgnoreOrder`): every entry is then what the metadata alone
  says. One level deeper something can (`TowerDependsOnOrder`). A cycle of value types always leaves a member with
  null in place of a value, and in a struct with a static field of its own type every field of a value type ends
  up so (`CycleIsCutOff`, `CutOffIsNull`).
- A struct key of two strings shares its encoded key with another exactly if one of the strings holds the text
  `,s:` (`PairKeyIsOwnIff`), and structs of different nesting can share theirs (`ShapesCollide`).
- A NaN, or a struct or delegate receiver holding one, equals nothing, itself included: a set stores it again on
  every Add (`AddedIsFoundIffComparable`), and a handler bound to one is never removed from a delegate
  (`RemoveUndoesCombineIff`).
- A SortedSet of structs, or of strings with a null among them, does not ascend (`AddKeepsAscendingIffOrdered`
  is the exact condition).
- A LinkedList node kept across Clear still names its list. Removing it makes the count wrong
  (`StaleNodeAfterClear`) and can bring cleared nodes back in place of the members (`StaleNodeLosesMembers`);
  `LinkedList.Unlink` says exactly when the members survive.
- A negative stream position is accepted and makes the next write panic, and the next read exactly if it asks for
  bytes and the distance to the end fits 64 bits (`NegativePositionPanics`).
- A factory runs under its object's mutex, so calls can wait for each other: a thread's calls can return exactly
  when the chain of who waits for whom does not run into a cycle (`CanReturnIffNoCycle`). A factory that calls back
  into its own Lazy or ConcurrentDictionary is the shortest cycle (`ReentryBlocksForever`), two objects whose
  factories call each other on two threads the next (`CrossedCallsBlockForever`).
- DateTime.CompareTo is tick order exactly when both tick counts, or neither, are too far before 1970 for their
  distance to fit 64 bits (`ComparesLikeTicksIff`); every date of the calendar is on the same side.

## Model

| member | source | states |
|---|---|---|
| `TypeInterning.StepKeepsInv` | assembly.go:2108-2176 | Each critical section of each thread, nested resolutions included, keeps the invariant of tables, objects, stacks and answers, and only adds to tables, objects and answers; a build resolves its base to the end first. |
| `TypeInterning.RunKeepsInv` | assembly.go:2108-2176 | So does every interleaving of any number of threads, from any state that satisfies the invariant. |
| `TypeInterning.EntriesWrittenOnce` | assembly.go:2150-2168 | In every interleaving each (assembly, name) entry is written at most once, and never changes afterwards. |
| `TypeInterning.SameQuestionSameAnswer` | assembly.go:2092-2168 | Two finished resolutions of one name from one assembly gave the same answer, whichever threads ran them and however they were nested. |
| `TypeInterning.OneObjectPerOwnedType` | assembly.go:2085-2096 | Two answers are one Type object exactly when they name the same type of the same serving assembly, even when asked through different assemblies. |
| `TypeInterning.AnswersFollowTheGraph` | assembly.go:2109-2161 | Which assembly serves an answer is fixed by the metadata, the dependency graph and the index: the library, the asked assembly, the first dependency that can serve, the index. `ResolutionOrder` says the same of the answers in the log, over the lists of dependencies themselves. |
| `TypeInterning.FuelSettles` | assembly.go:2132-2161 | Whom a question leads to has one result, bases of what is built included: looking deeper never changes it. |
| `TypeAnswers.CircleNeverSettles` | assembly.go:2132-2149 | Questions that each lead to another of them before anything else can answer are settled at no depth: through the base of a declared type, the first dependency that does not miss, or the base of what the index names. |
| `TypeAnswers.UnsettledIsEncircled` | assembly.go:2132-2161 | A question never settled leads in one of these ways to another such question. |
| `TypeAnswers.NeverSettledIffInCircle` | assembly.go:2132-2161 | A question is settled at no depth exactly when it belongs to such a circle. |
| `TypeAnswers.RankedSettles` | assembly.go:2132-2161 | A rank that falls along everything a question can lead to settles it, no deeper than the rank. |
| `TypeAnswers.AcyclicSettles` | assembly.go:2132-2161 | So acyclic dependencies and acyclic inheritance settle every question. |
| `TypeAnswers.Completes` | assembly.go:2108-2168 | From every reachable state one thread alone brings the activation on top of its stack to an answer, bases of builds included, if its question is settled; what fields resolve is taken to come back. |
| `TypeAnswers.SettledIsAnswered` | assembly.go:2097-2168 | From every reachable state an idle thread can ask a settled question and get its answer, under the same proviso. |
| `TypeAnswers.AnswerableIffSettled` | assembly.go:2108-2168 | Some run answers a question exactly when following bases and dependencies settles it. |
| `TypeAnswers.NeverAnsweredIffInCircle` | assembly.go:2108-2168 | No run ever finishes a resolution, not even with a miss, exactly when its question belongs to a circle of questions that lead to one another: mutual bases in one assembly, dependency circles, or both mixed. |
| `SharedLayout.EntryOverBase` | assembly.go:2230-2237 | In every reachable state the fields of a type are those of the type that serves its base, whichever assembly that is, then its own; the base is in its server's table by then and was built before. |
| `SharedLayout.EntryElsewhere` | assembly.go:2230-2237 | A base the library serves gives the library's fields, one nobody serves and no base at all give none. |
| `SharedLayout.AncestorFieldsArePrefix` | assembly.go:2226-2236 | In every interleaving, all ancestors of a type in a table are in the tables of the assemblies that serve them, and their fields are prefixes of its own. |
| `SharedLayout.LayoutIgnoresInterleaving` | assembly.go:2226-2236 | A type has the same fields in every run. |
| `ResolutionOrder.AnswersAreExplained` | assembly.go:2108-2168 | In every interleaving each finished resolution follows from those finished before it: the library's type; else the assembly's own; else the hit of one listed dependency, after every one before it on the list had missed; else, all having missed, a type of the assembly the index names, or a miss. |
| `ResolutionOrder.DependencyAnswers` | assembly.go:2138-2142 | If the i-th listed dependency hit and all before it missed, every finished resolution of that name from that assembly got this hit. |
| `ResolutionOrder.IndexAnswers` | assembly.go:2143-2149 | If all listed dependencies missed, every finished resolution got a type of the assembly the index names, or a miss if it names none that declares it. |
| `ResolutionOrder.EntryFollowsBase` | assembly.go:2230-2237 | The fields of a type in a table are those of whatever the finished resolutions of its base from its own assembly answered, then the ones it declares; after a miss only these. |
| `ResolutionOrder.EntryIsDeclared` | assembly.go:2108-2168 | A type in a table is declared by that assembly; without a base it has the fields it declares, with one that base was resolved from this assembly. |
| `TypeBuilder.ValueTypeHalts` | assembly.go:2671-2702 | Resolving a value type nests at most 25 builds minus its depth, through self-referential and mutually nested fields alike. |
| `TypeBuilder.FieldsHalt` | assembly.go:2259-2331 | The defaults of all field rows of a type are computed within the remaining depth. |
| `TypeBuilder.DefaultHalts` | assembly.go:2619-2745 | The default of one signature is computed within the remaining depth; a nullable argument of any nesting is paid for by the size of the signature. |
| `TypeBuilder.ResolveHalts` | assembly.go:2201-2363 | For a chain of k bases no more than k + 25 builds are ever nested. |
| `TypeBuilder.EndlessNeverHalts` | assembly.go:2230-2237 | A cyclic chain of bases is never resolved, whatever the bound on nesting. |
| `TypeBuilder.HaltsIffBaseChainEnds` | assembly.go:2201-2363 | With well-formed signatures, resolution halts exactly when the chain of bases ends. |
| `TypeBuilder.MisKindedSignatureNeverHalts` | assembly.go:2230-2237 | Without them the depth limit may not help: in this assembly a class field typed as a derived class restarts the depth and recursion is endless. |
| `TypeNesting.RankedHalts` | assembly.go:2201-2363 | It is enough that a rank falls from class to base and never rises from a type to what its fields name: then at most 25 builds per rank are nested, whatever the signatures call a value type. |
| `TypeLayout.ResolveKeeps` | assembly.go:2108-2168 | Every resolution keeps the table laid out: inherited slots first, then own fields, each slot with the default that its field has at a depth its type was asked for at; entries are never replaced; it answers what the table then holds and misses only undeclared names. |
| `TypeLayout.BuildKeeps` | assembly.go:2201-2336 | A built type is laid out by its definition over its base, from its own table, the library or another assembly, with the defaults of the depth it was asked for at. |
| `TypeLayout.FieldsKeep` | assembly.go:2253-2331 | The field loop appends to the instance or the static slots each row whose kind it is, in row order, and each default to the slot of its field. |
| `TypeLayout.DefaultKeeps` | assembly.go:2273-2318 | A field default is its embedded data, else its constant, else the zero value of its signature. |
| `TypeLayout.SigDefaultKeeps` | assembly.go:2619-2745 | The zero value of a signature at a depth: typed numeric zero, underlying integer for an enum, library struct, struct of that type whose fields in turn hold the defaults of a depth that type was asked for at, empty nullable over the default of its argument, null for references; null in place of a value type exactly from the depth limit on or when the name is no value type. |
| `TypeLayout.AncestorLayoutIsPrefix` | assembly.go:2230-2237 | The fields and defaults of every ancestor, one served by another assembly included, are a prefix of those of the class, and names and defaults are equally many. |
| `TypeLayout.AncestorsAreKnown` | assembly.go:2230-2237 | Every declared ancestor of a type in the table is in the table. |
| `TypeLayout.EntryFollowsParent` | assembly.go:2230-2237 | A table entry is an enum, a value type, or a class with the base its definition names, exactly as that parent says; System.Object and the two value-type roots are no bases. |
| `TypeLayout.EntryFollowsRows` | assembly.go:2253-2331 | Each row of a definition stands at its rank among the rows of its kind, after the inherited fields if it is an instance row; static rows and rows with embedded data go to the statics. |
| `TypeLayout.ResolveAllKeeps` | assembly.go:2097-2168 | Any sequence of resolutions keeps all of this, for any set of questions closed under what a build asks for. |
| `TypeLayout.ChainEndsOnReturn` | assembly.go:2230-2237 | What a build returned for has a chain of bases that ends. |
| `TypeLayout.LayoutIgnoresOrder` | assembly.go:2230-2333 | Two tables filled in any two orders agree on field and static names of every type they share. |
| `TypeLayout.MutualBuild` | assembly.go:2671-2702 | What resolving two mutually nested structs leaves in the table, at every depth up to the limit. |
| `TypeLayout.DefaultsDependOnOrder` | assembly.go:2671-2702 | Their defaults differ with the order in which the two are resolved. |
| `TypeDefaults.OwnSettled` | assembly.go:2671-2702 | Full defaults, computed from metadata alone, do not change once enough levels are allowed. |
| `TypeDefaults.ZeroIsFull` | assembly.go:2619-2745 | Where value types nest no deeper than the levels left, a zero value that refers to the table is the full one. |
| `TypeDefaults.EntryIsFull` | assembly.go:2201-2336 | Then a table entry, inherited slots included, is the type computed from metadata alone. |
| `TypeDefaults.ShallowIsClosed` | assembly.go:2201-2336 | Resolving types whose height, and that of their bases, is within the limit asks only for types within what is left of it. |
| `TypeDefaults.ShallowTypesAreFull` | assembly.go:2097-2168 | So after any resolutions of such types every table entry is the type computed from metadata alone. |
| `TypeDefaults.ShallowTypesIgnoreOrder` | assembly.go:2097-2168 | And two tables filled in any two orders agree on every type they share, defaults included. |
| `TypeNesting.TangleNeverFull` | assembly.go:2671-2702 | Types that each lead to another of them, or to a class called a value type, have no full defaults with any number of levels. |
| `TypeNesting.NeverFullLeads` | assembly.go:2671-2702 | A type without full defaults leads to another one, or to such a class. |
| `TypeNesting.NeverFullIffTangled` | assembly.go:2671-2702 | A type has full defaults, given enough levels, exactly if it is in no such tangle. |
| `TypeNesting.ResolveCuts` | assembly.go:2108-2168 | The first member of a cycle of value types to get into the table was laid out past the depth limit. |
| `TypeNesting.SigCuts` | assembly.go:2671-2702 | A default taken from the cycle leaves the table without its members only past the limit. |
| `TypeNesting.CycleIsCutOff` | assembly.go:2108-2168 | Every resolution of a member of a cycle, a struct with a static field of its own type for one, leaves a member in the table that is cut off. |
| `TypeNesting.CutOffLacks` | assembly.go:2672-2673 | A type cut off has a field that holds null in place of a value type of the cycle. |
| `TypeNesting.CutOffIsNull` | assembly.go:2672-2673 | If it leads into the cycle other than through nullables, all its fields of value types hold null, those outside the cycle included. |
| `TypeNesting.TowerHeight` | assembly.go:2671-2702 | Of 26 structs nested one in another, each has full defaults exactly with as many levels as there are structs inside it. |
| `TypeNesting.TowerDependsOnOrder` | assembly.go:2659-2673 | At one level more than the limit, without any cycle, a default depends on whether the outer or the inner struct is resolved first. |
| `AssemblyTypes.Assembly.ResolveTypeByFullName` | assembly.go:2097-2099 | Entry point: halts whenever the chain of bases ends, answers what the table then holds, succeeds exactly for declared, library and cached names, keeps the layout laws. |
| `AssemblyTypes.Assembly.ResolveTypeByFullNameAt` | assembly.go:2108-2168 | The check-build-check-store code computes the functional resolution and table. |
| `AssemblyTypes.Assembly.Build` | assembly.go:2201-2336 | buildType with its accumulating loop computes the functional build and table. |
| `AssemblyTypes.Assembly.DefaultOf` | assembly.go:2619-2644 | fieldOrLocalDefault with the nullable case computes the functional default and table. |
| `AssemblyTypes.Assembly.DefaultOfValueType` | assembly.go:2671-2702 | valueTypeDefault computes the functional default and table. |
| `OverloadResolution.HasHardShapeMismatch` | assembly.go:352-549 | True exactly when some pair of parameter and argument cannot be a real call, or one open type parameter meets arguments of two kinds. |
| `OverloadResolution.ScoreOf` | assembly.go:629-774 | The score is the sum over positions and never as low as the initial best score, so any eligible candidate beats none; what it prefers is said without numbers by `OverloadPreferences`. |
| `OverloadResolution.Rate` | assembly.go:606-774 | One turn of the loop scores exactly the candidates that parse and pass generic arity, arity and shape, and reports exactly the shape rejections. |
| `OverloadResolution.BestOf` | assembly.go:603-779 | The loop ends with the first of the highest-scoring eligible candidates, and remembers whether any was rejected for its shape. |
| `OverloadResolution.PickMethodOverload` | assembly.go:571-810 | All outcomes: a lone candidate checked for arity and shape; the first best eligible one; an error if none is eligible but some reached the shape check; otherwise the first row. Between candidates that differ at one position `PickTakesOwnKind` and `PickTakesOwnType` say which is taken. |
| `OverloadResolution.PositionRange` | assembly.go:1017-1139 | A position named exactly at the call site scores 1000 to 1008, any other -3 to 55. |
| `OverloadResolution.ScoreRange` | assembly.go:629-774 | The score of a list with e exact names lies between 1000e - 3(k - e) and 1008e + 55(k - e). |
| `OverloadResolution.ExactNamesDominate` | assembly.go:654-694 | With up to 17 parameters, more exact names always score strictly higher, whatever the arguments. |
| `OverloadResolution.PickHasMostExactNames` | assembly.go:654-810 | So the chosen overload never has fewer exact names than another eligible one. |
| `OverloadResolution.RivalScores` | assembly.go:688-731 | The scores of two rival overloads of any arity, one with a single exact name, one matching by run-time types. |
| `OverloadResolution.DominanceIffAtMost17` | assembly.go:654-656 | The bonus cannot be beaten exactly for arities up to 17. |
| `OverloadPreferences.CloserScoresHigher` | assembly.go:1017-1139 | The score of a kind is strictly higher exactly where the parameter is closer: its own kind first, then what it widens to, then object, then the unrelated. |
| `OverloadPreferences.NamesScore` | assembly.go:688-731 | The type the call site names beats the own type of the argument, which beats a base or interface of it, which beats an unrelated type, whatever the kinds. |
| `OverloadPreferences.NameBonus` | assembly.go:688-774 | What a resolved name adds to the score of the kinds in every case, and what its absence at the call site adds. |
| `OverloadPreferences.NullPrefersUnnamed` | assembly.go:732-770 | Where the call site has no name, a null goes to object before a class, against the order of the kinds. |
| `OverloadPreferences.NamedParameters` | assembly.go:902-938 | Which parameters have a name to compare, and which one. |
| `OverloadPreferences.NamedArguments` | assembly.go:948-998 | Which arguments have a run-time type name, which one, and what they are assignable to; a pointer is named by its target. |
| `OverloadPreferences.RefusedPairs` | assembly.go:352-549 | Exactly which parameter kinds each kind of argument is refused by. |
| `OverloadPreferences.RefusedForOneTypeParameter` | assembly.go:352-549 | Arguments of two kinds are refused together exactly for one and the same type parameter of the same owner. |
| `OverloadPreferences.EligibleIff` | assembly.go:606-629 | A candidate among several is eligible exactly if it parses, fits the type arguments and the arguments without the receiver, and is not refused. |
| `OverloadPreferences.ScoresDiffer` | assembly.go:629-774 | Lists of parameters that differ at one position differ in score by what they differ there. |
| `OverloadPreferences.PickIsBestWhereTheyDiffer` | assembly.go:775-780 | Of two eligible candidates that differ at one position, the one that scores lower there is never chosen. |
| `OverloadPreferences.PickTakesOwnKind` | assembly.go:1017-1139 | Where neither is named there, the choice takes the argument at its own kind if the other candidate does. |
| `OverloadPreferences.PickTakesOwnType` | assembly.go:688-696 | Where both are named there, but not as the call site says, the choice takes the own type of the argument if the other does. |
| `OverloadPreferences.FloatOverDouble` | assembly.go:1049-1057 | Called with a float, the overload with a float parameter is taken over an earlier one with a double. |
| `ExplicitImpl.Assembly.Resolve` | assembly.go:1174-1189 | Hit or miss, the answer is that of the walk, and the cache then holds it and stays right for every NUL-free question; a match among the rows of an ancestor the assembly declares itself is the first row with that interface and method. |
| `ExplicitImpl.Assembly.Uncached` | assembly.go:1195-1209 | The walk halts on any chain of bases, a cyclic one included, and finds the nearest ancestor with a matching row, qualified by that ancestor, or nothing when no ancestor however far has one; which rows match is said by `ExactIsFirstRow` and `ExactElsewhere`. |
| `ExplicitImpl.ExactIsFirstRow` | assembly.go:1239-1256 | A type the assembly declares answers m exactly if its rows decode and the first of them that declares that interface and method and has a body that decodes has body m. |
| `ExplicitImpl.ExactElsewhere` | assembly.go:1213-1238 | A type it does not declare is answered for by the first listed dependency with an answer, else by the assembly the index names, else by nobody. |
| `ExplicitImpl.NearestIsUnique` | assembly.go:1195-1209 | There is one nearest matching ancestor. |
| `ExplicitImpl.AncestorsEnd` | assembly.go:1195-1209 | Past the end of a chain there are no ancestors. |
| `ExplicitImpl.AncestorsRepeat` | assembly.go:1196-1198 | A chain that returns to a type already met stays among those met before. |
| `ExplicitImpl.MatchFound` | assembly.go:1199-1201 | The answer is the row of the nearest match. |
| `ExplicitImpl.NoMatchAfterEnd` | assembly.go:1202-1208 | Stopping at the end of the chain misses nothing. |
| `ExplicitImpl.NoMatchOnCycle` | assembly.go:1196-1198 | Stopping at a type already seen misses nothing. |
| `ExplicitImpl.KeyInjective` | assembly.go:1175 | NUL-joined cache keys of NUL-free names are equal only for equal questions. |
| `ExplicitImpl.KeyIsOwnIffNulFree` | assembly.go:1175 | A question shares its cache key with no other exactly when none of its three names holds a NUL. |
| `ExplicitImpl.StoreKeepsCache` | assembly.go:1183-1188 | Storing an answer disturbs the answer to no other question. |
| `ExplicitImpl.EveryCallGetsTheWalk` | assembly.go:1174-1189 | In every interleaving of any threads, every finished call got what the uncached walk returns. |
| `PackageGraph.ReachesThrough` | nuget.go:199-207 | What a dependency reaches, its dependent reaches. |
| `PackageGraph.ClosedSetHoldsPath` | nuget.go:199-207 | A set of ids closed under dependencies holds every path that starts in it. |
| `PackageGraph.ClosedSetHoldsReachable` | nuget.go:154-160 | So it holds everything reachable from its members, on cyclic graphs too. |
| `PackageGraph.FindIsLocked` | nuget.go:165-174 | The lookup succeeds exactly for ids the lockfile lists. |
| `PackageGraph.FindIsRow` | nuget.go:165-174 | What it finds is exactly the first row with that id. |
| `PackageGraph.DependenciesAreListed` | nuget.go:175-207 | What loading an id goes on to is the list of dependencies of that row, whole and in order, or nothing if the row has no asset. |
| `PackageGraph.FollowsIff` | nuget.go:199-207 | One id follows another exactly if that row lists it and has an asset. |
| `PackageGraph.UsableIffNotBad` | nuget.go:165-198 | An id can be loaded exactly if it has a row, and that row no asset or one that loads. |
| `PackageLoader.Assembly.IndexOwnTypesInto` | assembly.go:2184-2199 | Adds exactly the own names, and leaves names already claimed with their owner. |
| `PackageLoader.Assembly.WithDependencies` | assembly.go:136-152 | Appends the dependencies in order and joins the index of the assembly, or else the first one a dependency has, adding its own types there. |
| `PackageLoader.LinksStable` | nuget.go:199-207 | Growth of the memo does not change the links of an assembly whose dependencies are all memoised. |
| `PackageLoader.LinkedStep` | nuget.go:199-207 | One more dependency handled extends the links by its assembly, if it has one. |
| `PackageLoader.LinksInOrder` | nuget.go:199-207 | The links for a list of ids hold the assembly of each id that has one, at its rank among those, and nothing else. |
| `PackageLoader.WalkedLoads` | nuget.go:161-210 | A finished id with row p has an assembly exactly if p has an asset; its types are those of the asset and its links the assemblies of the dependencies p lists, in order. |
| `PackageLoader.Loader.LoadLockedPackage` | nuget.go:161-210 | Terminates on any graph; on success every newly memoised id is reachable, finished, linked in order and has an assembly of its own; fails only if something unloadable is reachable; no asset is loaded twice. |
| `PackageLoader.Loader.LoadDependencies` | nuget.go:199-207 | The loop memoises every listed dependency and links the assembly to exactly those that have an assembly, in order; the list is that of the row (`DependenciesAreListed`). |
| `PackageLoader.Loader.LoadDependency` | nuget.go:200-206 | One turn: the dependency is memoised, and its assembly, if any, appended. |
| `PackageLoader.Loader.FillIndex` | nuget.go:139-144 | In whatever order the map is traversed, the index has exactly the names loaded assemblies declare, each owned by a loaded assembly that declares it. |
| `PackageLoader.Loader.ShareIndex` | nuget.go:145-149 | All loaded assemblies then share one index object. |
| `PackageLoader.Loader.LoadPackage` | nuget.go:119-152 | Succeeds exactly when the root has an asset and everything reachable can be loaded; then exactly the reachable ids were visited, each asset loaded once, every assembly linked to those of the dependencies its row lists, in order, all sharing one correct index. |
| `Values.EqualIffSameComparable` | internal/bcl/system_object.go:466-503 | Equality is identity of comparable values; NaN, delegates, byte buffers and pointers, and structs holding one, equal nothing. |
| `Values.EqualIsSymmetric` | internal/bcl/system_object.go:466-503 | Equality is symmetric. |
| `Values.CompareIsTotalOrder` | internal/bcl/system_sorted_compare.go:23-66 | On integers, strings and non-NaN floats of one kind comparison is antisymmetric and transitive, and zero exactly on equal values. |
| `Values.CompareSelf` | internal/bcl/system_sorted_compare.go:23-66 | Every value compares as zero with itself. |
| `Values.DistinguishesIffOrdered` | internal/bcl/system_sorted_compare.go:23-66 | Two unequal values of one kind compare apart exactly when both are ordered. |
| `Values.CompareDirection` | internal/bcl/system_sorted_compare.go:23-66 | The sign: integers and floats compare as numbers, infinities beyond them, strings lexicographically. |
| `Values.OtherKindsCountAsZero` | internal/bcl/system_sorted_compare.go:23-66 | Beside a value of another kind the first one is compared with zero or the empty string; what is not a number or string compares as zero with everything. |
| `Values.StringLessIsLexicographic` | internal/bcl/system_sorted_compare.go:61-62 | A string is less exactly if it is a proper prefix, or smaller at the first character where the two differ. |
| `Values.WhatEqualsItself` | internal/bcl/system_object.go:466-503 | Exactly which values equal themselves, struct fields included. |
| `Values.StringOrder` | internal/bcl/system_sorted_compare.go:61-62 | String order is total and irreflexive. |
| `Values.StringLessTransitive` | internal/bcl/system_sorted_compare.go:61-62 | String order is transitive. |
| `HashSets.NativeHashSet.Add` | internal/bcl/system_hashset.go:152-179 | False exactly for members; otherwise the value goes last, or in a sorted set before the first greater element. |
| `HashSets.NativeHashSet.Contains` | internal/bcl/system_hashset.go:181-195 | Finds exactly the members. |
| `HashSets.NativeHashSet.Remove` | internal/bcl/system_hashset.go:197-212 | Takes out the first equal element and keeps the others in order; true exactly for members. |
| `HashSets.NativeHashSet.Clear` | internal/bcl/system_hashset.go:214-221 | Empties the set. |
| `HashSets.NativeHashSet.Min` | internal/bcl/system_hashset.go:235-244 | The first element, the least if the set ascends; null for an empty one. |
| `HashSets.NativeHashSet.Max` | internal/bcl/system_hashset.go:246-255 | The last element, the greatest if the set ascends; null for an empty one. |
| `HashSets.AddKeepsDistinct` | internal/bcl/system_hashset.go:152-179 | Adding keeps elements pairwise unequal. |
| `HashSets.AddedElements` | internal/bcl/system_hashset.go:152-179 | Adding adds exactly that element. |
| `HashSets.RemovedElements` | internal/bcl/system_hashset.go:197-212 | Removing removes exactly that element if it is comparable, else nothing. |
| `HashSets.RunRefinesSet` | internal/bcl/system_hashset.go:152-221 | After any run the list holds exactly the elements of the mathematical set, pairwise unequal, and once each if all are comparable. |
| `HashSets.AddedIsFoundIffComparable` | internal/bcl/system_hashset.go:152-195 | An element just added is found exactly when it is comparable; any other is stored once more. |
| `HashSets.AddKeepsAscendingIffOrdered` | internal/bcl/system_hashset.go:161-176 | Adding keeps a sorted set, of one kind or with null beside anything but numbers, ascending exactly when it is the first element, a member, or all elements are ordered; a null among strings is not. |
| `HashSets.RemoveKeepsAscending` | internal/bcl/system_hashset.go:197-212 | Removing keeps a sorted set ascending. |
| `HashSets.SortedRunAscends` | internal/bcl/system_hashset.go:152-212 | In any run over one ordered kind a sorted set stays strictly ascending. |
| `HashSets.SortedListsUpwards` | internal/bcl/system_hashset.go:152-212 | A list ascending in this sense goes upwards in number over integers, upwards in `StringLess` over strings. |
| `HashSets.HashSetKeepsOrder` | internal/bcl/system_hashset.go:152-212 | Adding to an unsorted set leaves all before it in place, removing takes out one equal element and closes the gap. |
| `HashSets.AscendingIsCanonical` | internal/bcl/system_hashset.go:152-179 | A strictly ascending list is determined by its set of elements, so a sorted set does not depend on the order of its operations. |
| `Delegates.Remove` | internal/bcl/system_delegate.go:62-78 | The search loop computes the invocation list with the last matching run cut out. |
| `Delegates.CombineConcatenates` | internal/bcl/system_delegate.go:44-56 | Combining concatenates invocation lists. |
| `Delegates.CombineIsMonoid` | internal/bcl/system_delegate.go:44-56 | Combine is associative with null as identity. |
| `Delegates.HeadIsFirst` | internal/bcl/system_delegate.go:18-37 | The delegate itself is first in its list, then its chain in order; null has an empty list. |
| `Delegates.LastRunIs` | internal/bcl/system_delegate.go:70-76 | The search from the right finds the greatest start of a matching run. |
| `Delegates.RemoveWithoutMatch` | internal/bcl/system_delegate.go:62-78 | Where nothing matches, Remove changes nothing. |
| `Delegates.RemoveCutsRightmostRun` | internal/bcl/system_delegate.go:62-78 | Otherwise it cuts out exactly the rightmost matching run: what was before it and what was after it is left. |
| `Delegates.RemoveStaysFlat` | internal/bcl/system_delegate.go:30-37 | What is left is again a delegate of that invocation list. |
| `Delegates.UnrecognisableNeverMatches` | internal/bcl/system_delegate.go:103-116 | A run with a receiver that equals nothing matches nowhere. |
| `Delegates.RemoveUndoesCombineIff` | internal/bcl/system_delegate.go:44-78 | Removing what was just combined gives back the original exactly when every receiver removed is comparable. |
| `Delegates.EqualIffSameTargets` | internal/bcl/system_delegate.go:84-116 | Delegates are equal exactly when their lists have the same names and receivers in order, all receivers comparable. |
| `KeyEncoding.DigitsInjective` | internal/bcl/system_collections.go:890-995 | Digits in either base determine the number. |
| `KeyEncoding.DecimalInjective` | internal/bcl/system_collections.go:890-995 | Signed decimal text determines the number. |
| `KeyEncoding.ScalarKeysInjective` | internal/bcl/system_collections.go:890-995 | Strings, integers of either width, null and objects by identity encode alike only if equal. |
| `KeyEncoding.KeyPrefix` | internal/bcl/system_collections.go:890-995 | The encoding of a key of known shape can be read off the front of a text in one way. |
| `KeyEncoding.FieldsPrefix` | internal/bcl/system_collections.go:890-995 | So can the joined encodings of struct fields. |
| `KeyEncoding.PlainKeysInjective` | internal/bcl/system_collections.go:890-995 | Two keys of one shape, scalars or structs of any nesting with comma-free strings, encode alike only if equal. |
| `KeyEncoding.PlainKeysEncode` | internal/bcl/system_collections.go:890-995 | Every such key has an encoding. |
| `KeyEncoding.KindsEncodeApart` | internal/bcl/system_collections.go:890-995 | Keys of two kinds never encode alike, those with texts from libraries included. |
| `KeyEncoding.LibraryTextsDecide` | internal/bcl/system_collections.go:890-995 | Floats, URIs and arrays encode alike exactly if the library gives them the same text. |
| `KeyEncoding.EncodesIff` | internal/bcl/system_collections.go:890-995 | Exactly which keys have an encoding, structs by their fields. |
| `KeyEncoding.PairKeyIsOwnIff` | internal/bcl/system_collections.go:890-995 | A struct of two strings shares its key with no other exactly when neither contains the joining text. |
| `KeyEncoding.ShapesCollide` | internal/bcl/system_collections.go:890-995 | Structs of different nesting can share a key. |
| `Dictionaries.NativeDict.PutEntry` | internal/bcl/system_collections.go:85-102 | Overwrites in place; a new key goes last, or in a sorted dictionary before the first greater key; map and order stay in step. |
| `Dictionaries.NativeDict.DeleteKey` | internal/bcl/system_collections.go:106-118 | Takes a key out of map and order, true exactly if it was there; map and order stay in step. |
| `Dictionaries.NativeDict.Add` | internal/bcl/system_collections.go:1062-1080 | Refuses exactly keys that are there or cannot be encoded, changing nothing then. |
| `Dictionaries.NativeDict.SetItem` | internal/bcl/system_collections.go:1117-1132 | Puts the entry unless the key cannot be encoded. |
| `Dictionaries.NativeDict.GetItem` | internal/bcl/system_collections.go:1082-1096 | Reads the value that stands in the key's place in the order; nothing if the key has no place or no encoding. |
| `Dictionaries.LookupReadsMap` | internal/bcl/system_collections.go:1082-1096 | That is what the mathematical map the dictionary stands for binds the key to, and nothing exactly for keys it does not bind. |
| `Dictionaries.LookupAfterPut` | internal/bcl/system_collections.go:1082-1132 | A write is read back under every key of the same encoding, and changes what is read under no other. |
| `Dictionaries.LookupAfterDelete` | internal/bcl/system_collections.go:1082-1209 | A removed key is not found, and every other key reads as before. |
| `Dictionaries.NativeDict.Remove` | internal/bcl/system_collections.go:1198-1209 | Takes the key out and tells whether it was there. |
| `Dictionaries.NativeDict.Clear` | internal/bcl/system_collections.go:1235-1245 | Empties map and order. |
| `Dictionaries.NativeDict.Count` | internal/bcl/system_collections.go:1190-1196 | The number of entries of the map and of the order list alike. |
| `Dictionaries.NativeDict.GetKeys` | internal/bcl/system_collections.go:1223-1233 | The keys in order; `KeysAndValuesAlign` says what that order means. |
| `Dictionaries.NativeDict.GetValues` | internal/bcl/system_collections.go:1211-1221 | The values in the same order: at each place the value of the key that `GetKeys` lists there. |
| `Dictionaries.KeysAndValuesAlign` | internal/bcl/system_collections.go:1211-1233 | The i-th key listed is filed at the i-th place of the order, looking it up gives the i-th value listed, and the two are the i-th pair. |
| `Dictionaries.NewKeyGoesLast` | internal/bcl/system_collections.go:85-102 | A new key of an unsorted dictionary is listed last, its value beside it, and all others stay where they were. |
| `Dictionaries.OverwriteKeepsPlace` | internal/bcl/system_collections.go:85-102 | Writing to a present key leaves every key at its place and changes the value of that one. |
| `Dictionaries.RemovalLeavesNoGap` | internal/bcl/system_collections.go:106-118 | Removing a key moves those after it up by one and leaves the others, values beside keys. |
| `Dictionaries.AddedInOrder` | internal/bcl/system_collections.go:1062-1233 | Keys encoded apart, added one after another, are listed in that order with their values beside them. |
| `Dictionaries.PutKeepsStep` | internal/bcl/system_collections.go:79-102 | Put keeps the order list a duplicate-free list of exactly the keys of the map. |
| `Dictionaries.DeleteKeepsStep` | internal/bcl/system_collections.go:104-118 | So does delete. |
| `Dictionaries.CountsAgree` | internal/bcl/system_collections.go:1190-1196 | Map and order list are equally long. |
| `Dictionaries.SlotIsFirst` | internal/bcl/system_collections.go:88-93 | The insertion loop stops at the slot of the key. |
| `Dictionaries.IndexOfIsFirst` | internal/bcl/system_collections.go:111-116 | The deletion loop stops at the place of the key. |
| `Dictionaries.PutRefinesPairs` | internal/bcl/system_collections.go:85-102 | Both fields together are one insertion-ordered list of pairs, in which put replaces a pair in place or appends it. |
| `Dictionaries.DeleteRefinesPairs` | internal/bcl/system_collections.go:106-118 | And delete closes the gap of one pair. |
| `Dictionaries.RunKeepsFiled` | internal/bcl/system_collections.go:1062-1245 | After any run every entry is filed under the encoding of the key it carries. |
| `Dictionaries.TypedKeysInjective` | internal/bcl/system_collections.go:890-995 | Keys of one dictionary type, any strings or other scalars among them, have encodings, equal only for equal keys. |
| `Dictionaries.RunRefinesMap` | internal/bcl/system_collections.go:1062-1245 | Any run over keys of one type holds exactly the bindings of the same run over a mathematical map. |
| `Dictionaries.NewKeyAscends` | internal/bcl/system_collections.go:87-97 | A new key goes where it keeps a sorted dictionary strictly ascending. |
| `Dictionaries.OverwriteAscends` | internal/bcl/system_collections.go:100-101 | Overwriting keeps it ascending. |
| `Dictionaries.DeleteKeepsAscending` | internal/bcl/system_collections.go:106-118 | Removing keeps it ascending. |
| `Dictionaries.SortedRunAscends` | internal/bcl/system_collections.go:85-118 | After any run over integer or string keys of one kind the keys of a sorted dictionary are strictly ascending. |
| `Dictionaries.SortedKeysGoUpwards` | internal/bcl/system_collections.go:85-102 | Over integers a sorted run lists its keys upwards in number, over strings upwards in `StringLess`. |
| `DictEnumerators.DictEnumerator.constructor` | internal/bcl/system_collections.go:509-526 | An enumerator starts before the first of a snapshot of the keys in order. |
| `DictEnumerators.DictEnumerator.MoveNext` | internal/bcl/system_collections.go:528-536 | Advances by one and tells whether a key is there. |
| `DictEnumerators.DictEnumerator.Current` | internal/bcl/system_collections.go:538-567 | Off the ends a default pair, an error for a key removed meanwhile, else the current entry. |
| `DictEnumerators.UntouchedKeyStays` | internal/bcl/system_collections.go:1062-1245 | A key that no operation of a run takes out is there after it. |
| `DictEnumerators.ReadsFollowSnapshot` | internal/bcl/system_collections.go:509-567 | A snapshot key that nothing removes is read at its position, whatever else is inserted, overwritten or removed before. |
| `DictEnumerators.EnumerationIsSnapshot` | internal/bcl/system_collections.go:509-567 | An enumeration reads exactly the keys present at its start, once each and in order, as long as none of them is removed. |
| `DictEnumerators.ReadsAnswerPresent` | internal/bcl/system_collections.go:509-567 | Every read answers the entry filed under the snapshot's key at that moment, its present value included, and an error exactly for a key that is gone. |
| `LinkedLists.LinkedList.AddLast` | internal/bcl/system_linkedlist.go:76-93 | Appends a fresh node; all others keep identity and order; the heap stays one chain whose length is the count. |
| `LinkedLists.LinkedList.AddFirst` | internal/bcl/system_linkedlist.go:95-112 | Prepends a fresh node likewise. |
| `LinkedLists.LinkedList.Splice` | internal/bcl/system_linkedlist.go:114-127 | The pointer writes alone: what stood beside the node, or else head and tail, passes it by, every other node is as it was, and the node names nothing. |
| `LinkedLists.LinkedList.Unlink` | internal/bcl/system_linkedlist.go:114-127 | Taking out a member keeps the chain. On a node dropped by Clear the count goes wrong, head or tail become dropped nodes where the node had no neighbour, and the chain of members survives exactly if the node has two neighbours, or none and the list is empty. |
| `LinkedLists.Relinked` | internal/bcl/system_linkedlist.go:114-127 | Links past a position are the links of the list without it. |
| `LinkedLists.LinkedList.Remove` | internal/bcl/system_linkedlist.go:133-152 | Removes the given member, or else the first node with an equal value; the list stays in order exactly unless a node dropped by Clear is given, and then head, tail and chain are as for Unlink. |
| `LinkedLists.LinkedList.FindNode` | internal/bcl/system_linkedlist.go:145-150 | The walk finds the first node with an equal value. |
| `LinkedLists.LinkedList.RemoveValue` | internal/bcl/system_linkedlist.go:145-150 | Removes exactly that node, if there is one. |
| `LinkedLists.LinkedList.RemoveFirst` | internal/bcl/system_linkedlist.go:154-163 | Drops the first node of a non-empty list. |
| `LinkedLists.LinkedList.RemoveLast` | internal/bcl/system_linkedlist.go:165-174 | Drops the last node of a non-empty list. |
| `LinkedLists.LinkedList.Clear` | internal/bcl/system_linkedlist.go:176-183 | Empties the list; the dropped nodes go on naming it and each other. |
| `LinkedLists.LinkedList.Contains` | internal/bcl/system_linkedlist.go:185-199 | True exactly when some node has an equal value. |
| `LinkedLists.LinkedList.Enumerate` | internal/bcl/system_linkedlist.go:235-246 | An enumeration runs over the values of whatever chain leads on from the head. |
| `LinkedLists.LinkedList.Snapshot` | internal/bcl/system_linkedlist.go:235-246 | On a list in order, over the values of its members in order. |
| `LinkedLists.LinkedList.WalkForward` | internal/bcl/system_linkedlist.go:209-265 | Following Next from First meets the nodes in order, as many as the count. |
| `LinkedLists.LinkedList.WalkBackward` | internal/bcl/system_linkedlist.go:220-276 | Following Previous from Last meets them in reverse. |
| `LinkedLists.FirstWithIs` | internal/bcl/system_linkedlist.go:145-150 | The walk by value stops at the first equal node. |
| `LinkedLists.StaleNodeAfterClear` | internal/bcl/system_linkedlist.go:141-183 | A node kept across Clear and then removed from the empty list leaves a count of minus one. |
| `LinkedLists.StaleNodeLosesMembers` | internal/bcl/system_linkedlist.go:114-183 | With two nodes cleared and another added since, removing the first cleared node makes the list enumerate the second cleared one and lose the member it has. |
| `Cancellation.CancelState.constructor` | internal/bcl/system_cancellationtoken.go:49-57 | A state links only to states made before it. |
| `Cancellation.CancelState.Cancel` | internal/bcl/system_cancellationtoken.go:181-186 | Cancelling turns on exactly the states that lead to this one over links, and none is ever turned off. |
| `Cancellation.TokenIsRequested` | internal/bcl/system_cancellationtoken.go:162-179 | A token is requested exactly when the state behind it is; one without a state never is. |
| `Cancellation.CreateLinkedTokenSource` | internal/bcl/system_cancellationtoken.go:196-215 | A linked source holds the states behind the tokens in order, and is requested from the start exactly when a token is. |
| `Cancellation.BehindKeepsStates` | internal/bcl/system_cancellationtoken.go:197-215 | Exactly the states behind tokens are linked. |
| `Cancellation.RequestedIffSourceCancelled` | internal/bcl/system_cancellationtoken.go:59-72 | The walk halts and is true exactly when some state reachable over links was cancelled. |
| `Cancellation.PathStaysInSources` | internal/bcl/system_cancellationtoken.go:59-72 | Whatever a path of links leads to is among the sources. |
| `Cancellation.SourceHasPath` | internal/bcl/system_cancellationtoken.go:59-72 | And every source is led to by a path of links. |
| `Cancellation.SourcesAreEarlier` | internal/bcl/system_cancellationtoken.go:49-57 | Sources are earlier and never derived from what they feed, so cancelling does not reach upstream. |
| `LockedObjects.StepKeepsInv` | internal/bcl/system_lazy.go:93-110 | Each step of each thread keeps every object equal to a replay of its finished calls, whose results are those of the replay, and every held mutex with the thread that holds it. |
| `LockedObjects.EveryRunIsSequential` | internal/bcl/system_concurrentdictionary.go:80-174 | In every interleaving over any number of objects, the calls of each are a sequential history: each got the result, and all left the object, as if run one after another. |
| `LockedObjects.OneInside` | internal/bcl/system_lazy.go:93-98 | In every reachable state at most one activation is inside an object. |
| `LockedObjects.DeadlockForever` | internal/bcl/system_lazy.go:83-98 | Where threads each wait for a mutex one of them holds, no call of theirs is entered or ended in any run, and no call returns from an object they hold. |
| `LockedObjects.Frees` | internal/bcl/system_lazy.go:93-98 | Where the chain of who waits for whom ends, there is a run in which all calls of its first thread return. |
| `LockedObjects.CanReturnIffNoCycle` | internal/bcl/system_lazy.go:83-98 | A thread's calls can return exactly when the chain of who waits for whom, from that thread, does not run into a cycle. |
| `LockedObjects.ReentryBlocksForever` | internal/bcl/system_lazy.go:83-98 | The cycle of length one: once a factory has called back into an object its thread holds, no call of that thread or of that object returns. |
| `LockedObjects.CrossedCallsBlockForever` | internal/bcl/system_lazy.go:83-98 | The cycle of length two: two objects whose factories call each other, entered by two threads, block both though neither is re-entered. |
| `LockedObjects.ReentersIffCallsOut` | internal/bcl/system_concurrentdictionary.go:72-100 | A call comes to wait for its own mutex exactly where the operation runs a factory. |
| `Lazies.NativeLazy.GetOrCompute` | internal/bcl/system_lazy.go:93-110 | A stored value is returned, a successful compute stored, a failed one leaves the instance as it was. |
| `Lazies.NativeLazy.IsValueCreated` | internal/bcl/system_lazy.go:60-68 | Whether a value is stored. |
| `Lazies.HoldsAfter` | internal/bcl/system_lazy.go:93-110 | The instance remembers exactly whether some access has computed, and what all have returned. |
| `Lazies.ComputedOnce` | internal/bcl/system_lazy.go:83-110 | In every interleaving at most one access computes, no access fails after it, and all return its value. |
| `Lazies.IsValueCreatedTellsWhetherComputed` | internal/bcl/system_lazy.go:60-68 | IsValueCreated answers whether an access has computed by then. |
| `Lazies.RetryableUntilComputed` | internal/bcl/system_lazy.go:93-110 | An access succeeds exactly when an earlier one did or its own factory does: failures leave it retryable. |
| `Lazies.ComputedIsTheFactorys` | internal/bcl/system_lazy.go:93-110 | A computed answer is what that access passed as its factory result; an access fails only if its own factory did. |
| `Lazies.FactoryRunsForNewAnswers` | internal/bcl/system_lazy.go:93-110 | The factory runs exactly for the accesses that compute or fail. |
| `ConcurrentDicts.NativeConcurrentDict.DoGetOrAdd` | internal/bcl/system_concurrentdictionary.go:80-100 | Under the lock: the stored value, else the computed one, which is stored; a failure stores nothing. |
| `ConcurrentDicts.NativeConcurrentDict.DoTryAdd` | internal/bcl/system_concurrentdictionary.go:102-121 | Adds exactly absent keys. |
| `ConcurrentDicts.NativeConcurrentDict.DoTryRemove` | internal/bcl/system_concurrentdictionary.go:144-166 | Takes a present key out with its value. |
| `ConcurrentDicts.NativeConcurrentDict.DoSetItem` | internal/bcl/system_concurrentdictionary.go:207-223 | Stores the value whatever was there. |
| `ConcurrentDicts.NativeConcurrentDict.DoClear` | internal/bcl/system_concurrentdictionary.go:226-235 | Empties the map. |
| `ConcurrentDicts.KeptUntilTouched` | internal/bcl/system_concurrentdictionary.go:80-235 | A key stays until a call takes it out, and keeps its value until a call touches it. |
| `ConcurrentDicts.OneFactoryRunPerPresence` | internal/bcl/system_concurrentdictionary.go:72-100 | In every interleaving, between two successes of a factory for one key some call took the key out. |
| `ConcurrentDicts.GetOrAddReturnsStored` | internal/bcl/system_concurrentdictionary.go:80-142 | GetOrAdd returns the value stored at that moment, and so does every later read until a call touches the key. |
| `ConcurrentDicts.HoldsLastStored` | internal/bcl/system_concurrentdictionary.go:80-235 | After any history of calls a key is bound exactly if the last call to touch it stored a value, and to that value. |
| `ConcurrentDicts.AnswersFollowCalls` | internal/bcl/system_concurrentdictionary.go:80-235 | So in every interleaving each answer is fixed by the calls before it: a read or removal gives that value, TryAdd succeeds exactly for an unbound key, GetOrAdd computes exactly then. |
| `ConcurrentDicts.FactoryRunsForNewAnswers` | internal/bcl/system_concurrentdictionary.go:80-100 | A factory runs exactly for a call with one whose answer is not the stored value. |
| `MemoryStreams.MemoryStream.WriteAt` | internal/bcl/system_io.go:48-57 | Lays the bytes over the buffer from the position on, lengthened with zeros; panics exactly from a negative position or past the largest length. |
| `MemoryStreams.MemoryStream.Write` | internal/bcl/system_io.go:184-203 | Writes exactly the asked part of the array; refuses a part outside it. |
| `MemoryStreams.MemoryStream.Read` | internal/bcl/system_io.go:217-243 | Copies the available bytes into exactly their range of the destination; panics exactly when there are some and that range or the position is outside. So far before the start that the distance wraps, none are available. |
| `MemoryStreams.MemoryStream.ReadByte` | internal/bcl/system_io.go:245-256 | The byte at the position, or -1 at the end. |
| `MemoryStreams.MemoryStream.Seek` | internal/bcl/system_io.go:263-288 | Moves to the target relative to start, position or end; refuses a negative one, changing nothing. |
| `MemoryStreams.MemoryStream.SetLength` | internal/bcl/system_io.go:290-314 | Cuts or lengthens with zeros; a position past the end moves to it. |
| `MemoryStreams.MemoryStream.SetPosition` | internal/bcl/system_io.go:389-400 | Takes any position, negative ones too. |
| `MemoryStreams.MemoryStream.CopyTo` | internal/bcl/system_io.go:356-371 | Writes the rest to the destination, which may be the same stream; works exactly from positions within the buffer. |
| `MemoryStreams.WriteReplacesItsRange` | internal/bcl/system_io.go:48-57 | A write changes exactly the bytes of its range; a gap before it becomes zeros. |
| `MemoryStreams.WriteSeekReadBack` | internal/bcl/system_io.go:184-288 | Writing, seeking back from the start or from the position, and reading gives the written bytes. |
| `MemoryStreams.WritesCompose` | internal/bcl/system_io.go:48-57 | Two writes in a row are one write of both. |
| `MemoryStreams.TruncatedBytesAreGone` | internal/bcl/system_io.go:290-314 | Bytes cut off do not come back when the stream is lengthened again. |
| `MemoryStreams.ApplyStaysInRange` | internal/bcl/system_io.go:184-400 | No operation other than setting a negative position leaves the valid range, and only a write past the largest length panics. |
| `MemoryStreams.RunStaysInRange` | internal/bcl/system_io.go:184-400 | So in any run without negative positions every panic is such a write. |
| `MemoryStreams.NegativePositionPanics` | internal/bcl/system_io.go:217-243 | At a negative position every write panics, and a read exactly if it asks for bytes and the distance to the end fits 64 bits. |
| `MemoryStreams.ReadsWhatIsThere` | internal/bcl/system_io.go:217-243 | From a position within the buffer a read gets as many bytes as it asks for, or all that are left if they are fewer; past the end, none. |
| `MemoryStreams.PositionsMove` | internal/bcl/system_io.go:263-314 | Where Seek lands from start, position and end, and where a shortening SetLength leaves the position. |
| `StringReaders.StringReader.ReadLine` | internal/bcl/system_io_stringreader.go:101-128 | The characters up to the next break, and the position past CR, LF or CRLF; nothing at the end. |
| `StringReaders.StringReader.Read` | internal/bcl/system_io_stringreader.go:79-84 | The next character. |
| `StringReaders.StringReader.ReadInto` | internal/bcl/system_io_stringreader.go:69-78 | Fills exactly its range of the destination with the next characters. |
| `StringReaders.TakesWhatIsThere` | internal/bcl/system_io_stringreader.go:69-78 | It gets as many characters as asked for, or all that are left. |
| `StringReaders.StringReader.Peek` | internal/bcl/system_io_stringreader.go:87-96 | The next character, without moving. |
| `StringReaders.StringReader.ReadToEnd` | internal/bcl/system_io_stringreader.go:130-138 | All that is left. |
| `StringReaders.StringReader.ReadAllLines` | internal/bcl/system_io_stringreader.go:101-128 | Reading lines until there are none halts and gives the lines of the text. |
| `StringReaders.LinesRebuildText` | internal/bcl/system_io_stringreader.go:101-128 | Lines joined with their terminators are the text. |
| `StringReaders.LinesSplit` | internal/bcl/system_io_stringreader.go:101-128 | Lines hold no break, every terminator is LF, CR or CRLF, only the last line may lack one and is then not empty, CRLF is never parted. |
| `StringReaders.SplittingIsUnique` | internal/bcl/system_io_stringreader.go:101-128 | There is only one such cut of a text. |
| `StringReaders.LinesAreTheSplitting` | internal/bcl/system_io_stringreader.go:101-128 | The lines read are exactly that cut. |
| `StringReaders.NothingIsLost` | internal/bcl/system_io_stringreader.go:64-138 | Under any mix of reads, what was taken and what is left are the whole text. |
| `Ticks.TimeOfTicks` | internal/bcl/system_datetime.go:49-54 | Truncated division and normalisation come to flooring, before 1970 as after. |
| `Ticks.TicksSurvive` | internal/bcl/system_datetime.go:47-58 | Every 64-bit tick count survives conversion to a time and back. |
| `Ticks.NoOverflowInCalendar` | internal/bcl/system_datetime.go:47-58 | For years 1 to 9999 nothing overflows on the way. |
| `Ticks.DaysOfYear` | internal/bcl/system_datetime.go:47-58 | Every year of the Gregorian calendar has 365 days, a leap year 366. |
| `Ticks.CalendarConstants` | internal/bcl/system_datetime.go:47-58 | The epoch is the ticks of the days before 1970, the last tick the one before year 10000, and a tick is 100 nanoseconds. |
| `Ticks.TimeFloorsToTick` | internal/bcl/system_datetime.go:47-58 | A time of the calendar comes back floored to 100 nanoseconds. |
| `Ticks.ComparesLikeTicksIff` | internal/bcl/system_datetime.go:442-462 | CompareTo is tick order exactly when both counts or neither are too early for 64 bits; always for dates of the calendar. |
| `Ticks.EqualAndSubtractLikeTicks` | internal/bcl/system_datetime.go:222-235 | Equality and subtraction of dates are those of their ticks. |
| `Ticks.OffsetGivesBackLocal` | internal/bcl/system_datetimeoffset.go:36-125 | A DateTimeOffset gives back the local ticks and offset it was made from, and UTC is local less offset. |

## Left out

- The opcode interpreter, the IR builder, the PE and metadata readers and virtual dispatch; metadata lookups are fixed maps, and decode errors other than a missing definition do not occur.
- TypeAnswers.AnswerableIffSettled: what a build resolves for fields of value types is taken to come back; `TypeBuilder` and `TypeNesting` say when it does within one assembly.
- TypeLayout.ResolveAllKeeps: defaults are laws of one assembly and one thread, over fixed types from other assemblies; across assemblies and threads `SharedLayout` covers field names.
- Interfaces, flags and generic arguments of built types: one loop of independent lookups each.
- A literal field's constant and a field's embedded bytes are opaque values.
- The method cache in front of overload resolution, and the cross-package search for methods.
- Which assembly owns a type name that several declare: it depends on Go's map order, and any one that declares it is allowed.
- Reading the lockfile and the package cache, and restoring packages: their outcome is a fixed map from locked packages to type names.
- KeyEncoding.PlainKeysInjective: keys with floats, URIs or arrays are not covered, because float and URI text come from libraries, and an array's text from elements that may change; all three are parameters of the encoding here.
- Dictionaries.RunRefinesMap: keys are scalars (any strings among them), or structs of one shape whose strings are comma-free; beyond those, struct keys can collide, as `PairKeyIsOwnIff` and `ShapesCollide` show.
- Dictionaries.SortedRunAscends: comparers passed to constructors are ignored by the source and here, and keys are integers or strings of one kind; other keys are not ordered by the source.
- HashSets.SortedRunAscends: elements are of one ordered kind; for others `AddKeepsAscendingIffOrdered` says exactly when order is lost.
- HashSets.AddKeepsAscendingIffOrdered: does not cover a set of `object` that mixes kinds, numbers with null included: the source compares by the kind of its first argument alone, which is no order there.
- The remaining List, Queue and Stack operations, and the set and list enumerators: bounds checks around one slice operation.
- Dereferencing of managed pointers passed as arguments, and receiver checks at the top of each native.
- ExplicitImpl.EveryCallGetsTheWalk: dependencies are acyclic, since on a cyclic graph the walk through dependencies need not end.
- Cancellation callbacks, timers and token equality; ConcurrentDictionary's Count, Keys, ContainsKey and enumerator.
- The closed flag of a stream, its flush to disk, and failing allocation of very large buffers.
- Date formats, calendar arithmetic, the component constructors, and additions of floating-point spans.
- LinkedLists.LinkedList.WalkForward: identity is that of the list's own nodes; First, Last, Next and Previous wrap a node in a new object on every read, so a program does not see two reads of one node as the same reference.
- LockedObjects.CanReturnIffNoCycle: a factory is taken to return once nothing it calls under one of these mutexes keeps it.
- LinkedLists.LinkedList.Remove: on a node dropped by Clear the resulting state is stated in full, but operations on a list left with a wrong count are not.
- TypeBuilder.MisKindedSignatureNeverHalts: one assembly; `HaltsIffBaseChainEnds` and `RankedHalts` give conditions that are enough, no exact condition for ill-formed signatures is given, because whether one is harmless also depends on what earlier resolutions left in the table.
- StringReaders.StringReader.ReadInto: on a destination that is too short the characters written before the error are not specified.
