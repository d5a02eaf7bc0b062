# ClassGraphBuilder: a verified model

This project models `ClassGraphBuilder` of FastClasspathScanner. The builder takes the `ClassInfo` records a
classpath scan produces, one per class, interface or annotation. From them it builds a graph of `DAGNode`s:

- **Direct sub-node edges** join a class to its superclass, an interface to its superinterfaces, and an
  annotation to its meta-annotations.
- **Cross-links** join a standard class to the interfaces it implements, and an annotation to the classes it
  annotates.
- **Kind lists.** Every node goes into exactly one of three lists: standard classes, interfaces or annotations.

The builder then fills in each node's transitive closures, `allSubNodes` and `allSuperNodes`. Queries answer
from lazily built, memoised maps, and each answer is a sorted list of names.

Modules:

- `ClassInfos` (`facts.dfy`): the scan record and the kind it selects.
- `DagNodes` (`dag.dfy`): the node arena, keyed by class name.
  - `addSubNode` and `addCrossLink` as functions on the arena.
  - The breadth-first closure, proved equal to reachability along one or more edges.
  - `findTransitiveClosure` as a method over a node list.
- `ClassGraphConstruction` (`construction.dfy`): the constructor.
  - Node creation and the three wiring loops, each as a method proved against a function of the record.
  - The whole constructor as `BuildClassGraph`, proved equal to the value `Built(infos)`.
  - Rules that say which edges and cross-links the built graph holds.
  - Proof that every node of the built graph holds its closures.
- `MultiMaps` (`multimaps.dfy`): the `MultiSet.put`, `LazyMap.invertMultiSet` and
  `LazyMap.convertToMultiMapSorted` helpers, and the getters' `null`-to-empty-list step.
- `StringOrder` (`ordering.dfy`): the string order that `Collections.sort` and `Utils.sortedCopy` use,
  which is `String.compareTo` on UTF-16 code units; insertion sort; and the sorted copy of a set.
- `ClassGraphQueries` (`queries.dfy`): what every query answers, as functions of the built graph.
  - Their meaning on a closed graph (reachability) and on the built graph (the scan records).
  - The inversions between the annotation maps.
- `ClassGraph` (`builder.dfy`): the `ClassGraphBuilder` object itself.
  - Its index sets.
  - Its memo cache of answered queries.
  - Its three bulk tables, built on first use.
  - The loops that compute each answer, proved equal to the query functions.

Java `null` is `Option.None`. A Java list of names is a `seq<string>`, and a `HashSet` is a `set<string>`.

## Model

Every source path below is `src/main/java/io/github/lukehutch/fastclasspathscanner/classgraph/ClassGraphBuilder.java`.

| member | source | states |
|---|---|---|
| ClassInfos.KindOf | src/main/java/io/github/lukehutch/fastclasspathscanner/classgraph/ClassGraphBuilder.java:64 | A record is an annotation exactly when `isAnnotation` is set; an interface exactly when `isInterface` is set and `isAnnotation` is not; a standard class exactly when neither is set |
| ClassGraphConstruction.CreateNodes | src/main/java/io/github/lukehutch/fastclasspathscanner/classgraph/ClassGraphBuilder.java:53-58 | The node map's keys are exactly the class names of the records |
| ClassGraphConstruction.KindListMember | src/main/java/io/github/lukehutch/fastclasspathscanner/classgraph/ClassGraphBuilder.java:61-65 | A name is in the list of kind `k` iff some record with that name has kind `k` |
| ClassGraphConstruction.KindListsCover | src/main/java/io/github/lukehutch/fastclasspathscanner/classgraph/ClassGraphBuilder.java:61-65 | Each record is appended to exactly one list: the three lengths sum to the number of records |
| ClassGraphConstruction.KindPartition | src/main/java/io/github/lukehutch/fastclasspathscanner/classgraph/ClassGraphBuilder.java:64-65 | With distinct class names, a record's name is in list `k` iff `k` is the record's kind |
| ClassGraphConstruction.ConnectInterfaces | src/main/java/io/github/lukehutch/fastclasspathscanner/classgraph/ClassGraphBuilder.java:67-82 | The new arena adds to the old one exactly these edges for the known interface names: a cross-link class→interface when the record is a standard class; a sub-node edge interface→record when the record is an interface; nothing for an annotation; `null` names add nothing |
| ClassGraphConstruction.ConnectSuperclasses | src/main/java/io/github/lukehutch/fastclasspathscanner/classgraph/ClassGraphBuilder.java:84-91 | The new arena adds exactly a sub-node edge superclass→record for every known superclass name and changes nothing else |
| ClassGraphConstruction.ConnectAnnotations | src/main/java/io/github/lukehutch/fastclasspathscanner/classgraph/ClassGraphBuilder.java:93-106 | The new arena adds exactly these edges for the known annotation names: a sub-node edge annotation→record for an annotation record; otherwise a cross-link annotation→record |
| ClassGraphConstruction.SubEdgePairsMember | src/main/java/io/github/lukehutch/fastclasspathscanner/classgraph/ClassGraphBuilder.java:67-106 | A pair is a wired sub-node edge iff both names are nodes and some record declares that super-node |
| ClassGraphConstruction.CrossLinkPairsMember | src/main/java/io/github/lukehutch/fastclasspathscanner/classgraph/ClassGraphBuilder.java:67-106 | A pair is a wired cross-link iff both names are nodes and some record declares it |
| ClassGraphConstruction.Built | src/main/java/io/github/lukehutch/fastclasspathscanner/classgraph/ClassGraphBuilder.java:47-113 | The constructed graph is well formed and its nodes are exactly the records' class names |
| ClassGraphConstruction.BuildClassGraph | src/main/java/io/github/lukehutch/fastclasspathscanner/classgraph/ClassGraphBuilder.java:47-113 | The constructor's loops (node creation, kind lists, three wiring loops, three closure calls) yield exactly `Built(infos)` |
| ClassGraphConstruction.DirectSubNodeRule | src/main/java/io/github/lukehutch/fastclasspathscanner/classgraph/ClassGraphBuilder.java:67-106 | In the built graph `c` is a direct sub-node of the node `p` iff `c` is a node and some record named `c` declares `p` as its superclass, as a superinterface (when it is an interface) or as a meta-annotation (when it is an annotation) |
| ClassGraphConstruction.CrossLinkRule | src/main/java/io/github/lukehutch/fastclasspathscanner/classgraph/ClassGraphBuilder.java:67-106 | In the built graph `f` is cross-linked to `t` iff `t` is a node and a record declares the link: a standard class `f` implementing `t`, or a non-annotation `t` annotated with `f` |
| ClassGraphConstruction.BuiltClosedAt | src/main/java/io/github/lukehutch/fastclasspathscanner/classgraph/ClassGraphBuilder.java:109-112 | Every node of the built graph holds, as `allSubNodes` and `allSuperNodes`, the closures of the direct edges |
| ClassGraphConstruction.BuiltIsClosed | src/main/java/io/github/lukehutch/fastclasspathscanner/classgraph/ClassGraphBuilder.java:109-112 | The whole built graph is closed |
| DagNodes.DirectSubNodes | src/main/java/io/github/lukehutch/fastclasspathscanner/classgraph/ClassGraphBuilder.java:78 | `c` is listed under `p` iff the edge `(p, c)` was recorded; every listed name is a node |
| DagNodes.DirectSuperNodes | src/main/java/io/github/lukehutch/fastclasspathscanner/classgraph/ClassGraphBuilder.java:78 | `p` is listed under `c` iff the edge `(p, c)` was recorded: the same edges read from the other end |
| DagNodes.CrossLinkedNodes | src/main/java/io/github/lukehutch/fastclasspathscanner/classgraph/ClassGraphBuilder.java:74 | The cross-linked names of `n` are exactly the recorded links out of `n`, all of them nodes |
| DagNodes.AddSubNodeLinksBoth | src/main/java/io/github/lukehutch/fastclasspathscanner/classgraph/ClassGraphBuilder.java:78 | `addSubNode` puts the child under the parent's sub-nodes and the parent under the child's super-nodes, and adds no other direct edge |
| DagNodes.AddCrossLinkAddsOne | src/main/java/io/github/lukehutch/fastclasspathscanner/classgraph/ClassGraphBuilder.java:102 | `addCrossLink` adds exactly the one link and no other |
| DagNodes.Closure | src/main/java/io/github/lukehutch/fastclasspathscanner/classgraph/ClassGraphBuilder.java:110 | The breadth-first closure of a node stays among the nodes |
| DagNodes.ClosureIsReachability | src/main/java/io/github/lukehutch/fastclasspathscanner/classgraph/ClassGraphBuilder.java:110 | `b` is in the closure of `a` iff `b` can be reached from `a` by one or more edges |
| DagNodes.SubSuperSymmetric | src/main/java/io/github/lukehutch/fastclasspathscanner/classgraph/ClassGraphBuilder.java:110 | `b` is among the all-sub-nodes of `a` iff `a` is among the all-super-nodes of `b` |
| DagNodes.NotOwnRelative | src/main/java/io/github/lukehutch/fastclasspathscanner/classgraph/ClassGraphBuilder.java:110 | On an acyclic graph no node is in its own closures |
| DagNodes.DiamondAncestors | src/main/java/io/github/lukehutch/fastclasspathscanner/classgraph/ClassGraphBuilder.java:110 | In diamond inheritance the bottom node's ancestors are exactly the three nodes above it, each once |
| DagNodes.CloseThrice | src/main/java/io/github/lukehutch/fastclasspathscanner/classgraph/ClassGraphBuilder.java:110-112 | After closing the three kind lists in turn, every node of any list holds both of its closures |
| DagNodes.FindTransitiveClosure | src/main/java/io/github/lukehutch/fastclasspathscanner/classgraph/ClassGraphBuilder.java:110 | The loop over the list yields `Close(d, list)`: listed nodes get their closures; edges and other nodes are unchanged |
| MultiMaps.Lookup | src/main/java/io/github/lukehutch/fastclasspathscanner/classgraph/ClassGraphBuilder.java:384 | A lookup is non-null iff the key is present, and then it is the key's set |
| MultiMaps.Put | src/main/java/io/github/lukehutch/fastclasspathscanner/classgraph/ClassGraphBuilder.java:357 | `put` adds the value under its key only, creates the set on first use, and never leaves an empty set |
| MultiMaps.PutAll | src/main/java/io/github/lukehutch/fastclasspathscanner/classgraph/ClassGraphBuilder.java:360-362 | Putting each value of a set under one key adds exactly that set under that key |
| MultiMaps.PutUnderEach | src/main/java/io/github/lukehutch/fastclasspathscanner/classgraph/ClassGraphBuilder.java:367-372 | Putting the same values under each of a set of keys adds them under exactly those keys |
| MultiMaps.Invert | src/main/java/io/github/lukehutch/fastclasspathscanner/classgraph/ClassGraphBuilder.java:437 | `k` is under `v` in the inverse iff `k` is in the universe and `v` is under `k` in the forward map; no key holds an empty set |
| MultiMaps.InvertMultiSet | src/main/java/io/github/lukehutch/fastclasspathscanner/classgraph/ClassGraphBuilder.java:437 | The transposing loop yields exactly `Invert(forward, universe)` |
| MultiMaps.SortedValues | src/main/java/io/github/lukehutch/fastclasspathscanner/classgraph/ClassGraphBuilder.java:379-380 | `null` stays `null`; a set becomes a strictly sorted list holding exactly its members |
| MultiMaps.OrEmpty | src/main/java/io/github/lukehutch/fastclasspathscanner/classgraph/ClassGraphBuilder.java:385-389 | A `null` list reads as the empty list; any other list is returned unchanged |
| StringOrder.LessIsUtf16Order | src/main/java/io/github/lukehutch/fastclasspathscanner/classgraph/ClassGraphBuilder.java:161-162 | The order used by every sort holds between two names exactly when their UTF-16 code-unit sequences compare below, the first differing unit deciding and a proper prefix first: Java's `String.compareTo` |
| StringOrder.SortedCopy | src/main/java/io/github/lukehutch/fastclasspathscanner/classgraph/ClassGraphBuilder.java:161-162 | The copy of a set is strictly sorted in `String.compareTo` order, has the set's size, and holds exactly its members |
| StringOrder.Sort | src/main/java/io/github/lukehutch/fastclasspathscanner/classgraph/ClassGraphBuilder.java:242 | The result is sorted in `String.compareTo` order and is a permutation of the input |
| StringOrder.SortOfDistinct | src/main/java/io/github/lukehutch/fastclasspathscanner/classgraph/ClassGraphBuilder.java:238-242 | Sorting a list without repeats gives the sorted copy of its set |
| ClassGraphQueries.NamesOfKind | src/main/java/io/github/lukehutch/fastclasspathscanner/classgraph/ClassGraphBuilder.java:119-149 | The keys of a kind's name-to-node map are exactly the names in that kind's list, all of them nodes |
| ClassGraphQueries.AllNames | src/main/java/io/github/lukehutch/fastclasspathscanner/classgraph/ClassGraphBuilder.java:155-164 | The all-classes list is strictly sorted and holds exactly the names in any of the three lists |
| ClassGraphQueries.AllNamesOfKind | src/main/java/io/github/lukehutch/fastclasspathscanner/classgraph/ClassGraphBuilder.java:170-200 | A kind's list is strictly sorted and holds exactly the names of that kind |
| ClassGraphQueries.SortedRelatives | src/main/java/io/github/lukehutch/fastclasspathscanner/classgraph/ClassGraphBuilder.java:229-342 | The answer is non-null iff the name is of the queried kind; then it is strictly sorted and holds exactly the node's all-sub-nodes (subclasses, subinterfaces) or all-super-nodes (superclasses, superinterfaces) |
| ClassGraphQueries.Lifted | src/main/java/io/github/lukehutch/fastclasspathscanner/classgraph/ClassGraphBuilder.java:354-372 | An interface is lifted iff it is a cross-linked interface or one of its all-super-nodes |
| ClassGraphQueries.ImplementersTable | src/main/java/io/github/lukehutch/fastclasspathscanner/classgraph/ClassGraphBuilder.java:345-376 | Under each interface the table holds exactly the implementers of that interface, collected over the standard classes, and it holds no empty set |
| ClassGraphQueries.ClassesImplementing | src/main/java/io/github/lukehutch/fastclasspathscanner/classgraph/ClassGraphBuilder.java:378-380 | A non-null answer is strictly sorted and not empty |
| ClassGraphQueries.ImplementersByReachability | src/main/java/io/github/lukehutch/fastclasspathscanner/classgraph/ClassGraphBuilder.java:345-390 | On a closed graph, `x` is listed as implementing `i` iff some standard class `c` cross-links to `i` or to a sub-node of `i`, and `x` is `c` or a subclass of `c` |
| ClassGraphQueries.AnnotatedClasses | src/main/java/io/github/lukehutch/fastclasspathscanner/classgraph/ClassGraphBuilder.java:396-415 | Non-null iff the name is an annotation; then a set of nodes |
| ClassGraphQueries.ClassesWithAnnotation | src/main/java/io/github/lukehutch/fastclasspathscanner/classgraph/ClassGraphBuilder.java:417-419 | Non-null iff the name is an annotation; then strictly sorted |
| ClassGraphQueries.AnnotatedClassesByReachability | src/main/java/io/github/lukehutch/fastclasspathscanner/classgraph/ClassGraphBuilder.java:396-429 | On a closed graph, `x` carries annotation `a` iff `a` is an annotation and `a`, or a node reachable below `a` along sub-node edges, is cross-linked to `x` |
| ClassGraphQueries.AnnotatedClassesTable | src/main/java/io/github/lukehutch/fastclasspathscanner/classgraph/ClassGraphBuilder.java:436-437 | Under each annotation the table holds that annotation's annotated classes |
| ClassGraphQueries.AnnotationsOnClass | src/main/java/io/github/lukehutch/fastclasspathscanner/classgraph/ClassGraphBuilder.java:435-437 | A non-null answer is strictly sorted and not empty |
| ClassGraphQueries.AnnotationsOnClassInversion | src/main/java/io/github/lukehutch/fastclasspathscanner/classgraph/ClassGraphBuilder.java:431-447 | `x` is an annotation on `c` iff `c` is among the classes with annotation `x`; every such `x` is an annotation |
| ClassGraphQueries.AnnotatedAnnotations | src/main/java/io/github/lukehutch/fastclasspathscanner/classgraph/ClassGraphBuilder.java:450-464 | Non-null iff the name is an annotation; then exactly the annotation's all-sub-nodes |
| ClassGraphQueries.AnnotationsWithMetaAnnotation | src/main/java/io/github/lukehutch/fastclasspathscanner/classgraph/ClassGraphBuilder.java:484-486 | Non-null iff the name is an annotation; then strictly sorted |
| ClassGraphQueries.MetaAnnotationTable | src/main/java/io/github/lukehutch/fastclasspathscanner/classgraph/ClassGraphBuilder.java:471-472 | Under each annotation the table holds its all-sub-nodes |
| ClassGraphQueries.MetaAnnotationsOnAnnotation | src/main/java/io/github/lukehutch/fastclasspathscanner/classgraph/ClassGraphBuilder.java:470-472 | A non-null answer is strictly sorted and not empty |
| ClassGraphQueries.MetaAnnotationInversion | src/main/java/io/github/lukehutch/fastclasspathscanner/classgraph/ClassGraphBuilder.java:466-497 | `m` is a meta-annotation on `a` iff `a` is among the annotations with meta-annotation `m` |
| ClassGraphQueries.MetaAnnotationsAreAncestors | src/main/java/io/github/lukehutch/fastclasspathscanner/classgraph/ClassGraphBuilder.java:450-482 | On a closed graph, `m` is a meta-annotation on `a` iff `m` is an annotation from which `a` can be reached along sub-node edges |
| ClassGraphQueries.ClosedReachability | src/main/java/io/github/lukehutch/fastclasspathscanner/classgraph/ClassGraphBuilder.java:110-112 | On a closed graph, membership in a node's all-sub-nodes or all-super-nodes is reachability along the direct edges |
| ClassGraphQueries.Answer | src/main/java/io/github/lukehutch/fastclasspathscanner/classgraph/ClassGraphBuilder.java:155-497 | Every non-null answer is strictly sorted, and the whole-graph lists are never null |
| ClassGraphQueries.NamesOf | src/main/java/io/github/lukehutch/fastclasspathscanner/classgraph/ClassGraphBuilder.java:248-497 | A getter's result is strictly sorted, and empty when the lookup is null |
| ClassGraphQueries.UnknownNameEmpty | src/main/java/io/github/lukehutch/fastclasspathscanner/classgraph/ClassGraphBuilder.java:248-255 | Every per-name getter answers the empty list for a name that is not a node |
| ClassGraphQueries.KindNodesOfBuilt | src/main/java/io/github/lukehutch/fastclasspathscanner/classgraph/ClassGraphBuilder.java:61-65 | In the built graph, a kind's list holds a name iff a record of that kind carries it |
| ClassGraphQueries.AllNamesOfBuilt | src/main/java/io/github/lukehutch/fastclasspathscanner/classgraph/ClassGraphBuilder.java:154-207 | The built graph's all-classes list holds exactly the class names of the records |
| ClassGraphQueries.RelativesOfBuilt | src/main/java/io/github/lukehutch/fastclasspathscanner/classgraph/ClassGraphBuilder.java:229-342 | In the built graph, a node's subclass (subinterface) list holds exactly the nodes reachable along sub-node edges; the superclass (superinterface) list holds those reachable along super-node edges |
| ClassGraphQueries.RelativesByReachability | src/main/java/io/github/lukehutch/fastclasspathscanner/classgraph/ClassGraphBuilder.java:229-342 | The same, on any closed graph |
| ClassGraphQueries.SubSuperDual | src/main/java/io/github/lukehutch/fastclasspathscanner/classgraph/ClassGraphBuilder.java:229-283 | `x` is a subclass of `c` iff `c` is a superclass of `x` |
| ClassGraphQueries.NotOwnSubclass | src/main/java/io/github/lukehutch/fastclasspathscanner/classgraph/ClassGraphBuilder.java:229-255 | On an acyclic graph, no class is listed among its own subclasses |
| ClassGraph.IndexByName | src/main/java/io/github/lukehutch/fastclasspathscanner/classgraph/ClassGraphBuilder.java:119-149 | The loop over a kind's list yields exactly that kind's name set |
| ClassGraph.CollectRelatives | src/main/java/io/github/lukehutch/fastclasspathscanner/classgraph/ClassGraphBuilder.java:230-245 | The generator (null check, copy of the closure's names, sort) yields exactly `SortedRelatives` |
| ClassGraph.PutForInterface | src/main/java/io/github/lukehutch/fastclasspathscanner/classgraph/ClassGraphBuilder.java:355-372 | For one interface, the class and its subclasses are added under the interface and each of its all-super-nodes, and under no other key |
| ClassGraph.PutImplementers | src/main/java/io/github/lukehutch/fastclasspathscanner/classgraph/ClassGraphBuilder.java:350-373 | For one class, the class and its subclasses are added under exactly the lifted cross-linked interfaces |
| ClassGraph.InitializeImplementers | src/main/java/io/github/lukehutch/fastclasspathscanner/classgraph/ClassGraphBuilder.java:348-375 | `initialize()` over all standard classes yields exactly `ImplementersTable` |
| ClassGraph.AddCrossLinked | src/main/java/io/github/lukehutch/fastclasspathscanner/classgraph/ClassGraphBuilder.java:405-412 | Adding a node's cross-linked names grows the set by exactly those names |
| ClassGraph.CollectAnnotatedClasses | src/main/java/io/github/lukehutch/fastclasspathscanner/classgraph/ClassGraphBuilder.java:399-414 | The generator yields exactly `AnnotatedClasses` |
| ClassGraph.CollectAnnotatedAnnotations | src/main/java/io/github/lukehutch/fastclasspathscanner/classgraph/ClassGraphBuilder.java:453-463 | The generator yields exactly `AnnotatedAnnotations` |
| ClassGraph.AnnotatedClassesTableOf | src/main/java/io/github/lukehutch/fastclasspathscanner/classgraph/ClassGraphBuilder.java:436-437 | Generating the set for every annotation yields exactly `AnnotatedClassesTable` |
| ClassGraph.MetaAnnotationTableOf | src/main/java/io/github/lukehutch/fastclasspathscanner/classgraph/ClassGraphBuilder.java:471-472 | Generating the set for every annotation yields exactly `MetaAnnotationTable` |
| ClassGraph.ClassGraphBuilder.constructor | src/main/java/io/github/lukehutch/fastclasspathscanner/classgraph/ClassGraphBuilder.java:47-149 | The object holds `Built(infos)` and its kind indices, with an empty cache and no bulk table built yet |
| ClassGraph.ClassGraphBuilder.NamesFor | src/main/java/io/github/lukehutch/fastclasspathscanner/classgraph/ClassGraphBuilder.java:119-149 | The stored index of a kind is that kind's name set |
| ClassGraph.ClassGraphBuilder.Implementers | src/main/java/io/github/lukehutch/fastclasspathscanner/classgraph/ClassGraphBuilder.java:345-376 | Returns `ImplementersTable`, built on the first call and stored; later calls reuse it; nothing else changes |
| ClassGraph.ClassGraphBuilder.AnnotationsOnClassTable | src/main/java/io/github/lukehutch/fastclasspathscanner/classgraph/ClassGraphBuilder.java:435-437 | Returns the inverse of the annotated-classes table over the annotation names, built once and stored |
| ClassGraph.ClassGraphBuilder.MetaAnnotationsOnTable | src/main/java/io/github/lukehutch/fastclasspathscanner/classgraph/ClassGraphBuilder.java:470-472 | Returns the inverse of the meta-annotation table over the annotation names, built once and stored |
| ClassGraph.ClassGraphBuilder.GenerateValue | src/main/java/io/github/lukehutch/fastclasspathscanner/classgraph/ClassGraphBuilder.java:155-486 | Every generator returns exactly the query's `Answer`, leaves the cache alone, and keeps every bulk table that was already built |
| ClassGraph.ClassGraphBuilder.Get | src/main/java/io/github/lukehutch/fastclasspathscanner/classgraph/ClassGraphBuilder.java:155-486 | A memoised lookup returns the query's `Answer` and records it under its key. A hit returns the stored value and leaves the cache unchanged. Every bulk table already built stays as it was |
| ClassGraph.ClassGraphBuilder.GetNamesOfAllClasses | src/main/java/io/github/lukehutch/fastclasspathscanner/classgraph/ClassGraphBuilder.java:205-207 | Returns the sorted list of all names, stores it in the cache under `""` with every other entry unchanged, and keeps every bulk table already built |
| ClassGraph.ClassGraphBuilder.GetNamesOfAllOfKind | src/main/java/io/github/lukehutch/fastclasspathscanner/classgraph/ClassGraphBuilder.java:213-227 | Returns the sorted list of the names of one kind, stores it in the cache under `""` with every other entry unchanged, and keeps every bulk table already built |
| ClassGraph.ClassGraphBuilder.GetNamesOf | src/main/java/io/github/lukehutch/fastclasspathscanner/classgraph/ClassGraphBuilder.java:248-497 | Every per-name getter returns its query's answer, or the empty list when that answer is null. It stores the answer (`null` included) in the cache under the name, with every other entry unchanged, and keeps every bulk table already built |

## Left out

- `Utils.mergeScalaAuxClasses` (line 49) is not part of this model. The records are taken as already merged.
- The dot-file visualisation (`generateClassGraphDotFile`, from line 499 on) is output formatting, not graph logic.
- `DAGNode`, `LazyMap`, `MultiSet`, `Utils.sortedCopy` and `Collections.sort` are not part of this model as
  code. They are modelled by the behaviour this file relies on at its call sites:
  - `addSubNode`, `addCrossLink` and `findTransitiveClosure` build a breadth-first closure.
  - `put`, `invertMultiSet` and `convertToMultiMapSorted` are the functions in `MultiMaps`.
  - The order is `String.compareTo`: lexicographic on UTF-16 code units, so a character above U+FFFF sorts by its surrogate pair.
- Cyclic input. Closures are defined for any graph. Only `DagNodes.NotOwnRelative` and
  `ClassGraphQueries.NotOwnSubclass` assume that sub-node edges have no cycle.
- Iteration order of `HashMap`, `HashSet` and `Collection`. The loops take their elements in an arbitrary
  order, and every contract holds for any order.
- StringOrder.Less: a Java string may hold an unpaired surrogate, which a Dafny `char` cannot. Class names
  holding one are not modelled; every other name is ordered exactly as `String.compareTo` orders it.
- Concurrency. `LazyMap` is not modelled for concurrent callers; the model is single-threaded.
- Object identity. `Collections.emptyList()` and the returned `ArrayList`s are modelled as values. Later
  mutation by a caller through the returned list is not modelled.
- Laziness of the name-to-node maps (lines 119-149). Their key sets are built when the object is
  constructed, and then never change.
- Per-key set maps. The `HashSet` maps behind the sorted views (lines 396 and 450) are not cached
  separately. Only the sorted answers and the three bulk tables are memoised.
- `DAGNode` objects mutated in place are modelled as an arena value keyed by class name. The constructor
  threads that value through its loops.
- Records with the same class name. The later node replaces the earlier one in the map at line 57, so both
  records wire to the same node. The model keys nodes by name and does the same. `KindPartition` needs
  distinct names.
- Record with both `isAnnotation` and `isInterface` set. It is an annotation at line 64, yet its interface
  names take the `else if (classInfo.isInterface)` branch at line 75 and add sub-node edges. The model
  follows the code as written.
- Scope of the closures. `findTransitiveClosure` runs over the whole graph, so a closure can cross kinds,
  for example a class whose superclass name belongs to an interface. The model follows the edges in the
  same way.
