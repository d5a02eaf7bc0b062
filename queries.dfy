/**
 * The indices of the builder's query layer, each as a function of the built
 * graph: the value a `LazyMap` holds for a key once computed (`None` for
 * Java's `null`), the sorted lists the public `getNamesOf*` methods return,
 * and what each of them means in terms of the graph's edges.
 */
module ClassGraphQueries {
  import opened Wrappers
  import opened StringOrder
  import opened ClassInfos
  import opened DagNodes
  import opened MultiMaps
  import opened ClassGraphConstruction

  // ---------------------------------------------------------------------------------------------
  // Name-to-node maps (lines 119-149)

  /** The node list of kind `k`. */
  function KindNodes(g: Graph, k: Kind): seq<string> {
    match k
    case StandardClass => g.standardClassNodes
    case Interface => g.interfaceNodes
    case Annotation => g.annotationNodes
  }

  /** The key set of `classNameToStandardClassNode`, `interfaceNameToInterfaceNode` or `annotationNameToAnnotationNode`. */
  function NamesOfKind(g: Graph, k: Kind): (r: set<string>)
    requires WellFormed(g)
    ensures r <= g.dag.nodes
    ensures forall x :: x in r <==> x in KindNodes(g, k)
  {
    set x | x in KindNodes(g, k)
  }

  // ---------------------------------------------------------------------------------------------
  // All-names lists (lines 154-227)

  /** `namesOfAllClasses`: the sorted union of the three maps' key sets. */
  function AllNames(g: Graph): (r: seq<string>)
    requires WellFormed(g)
    ensures StrictlySorted(r)
    ensures forall x :: x in r <==> x in g.standardClassNodes || x in g.interfaceNodes || x in g.annotationNodes
  {
    SortedCopy(NamesOfKind(g, StandardClass) + NamesOfKind(g, Interface) + NamesOfKind(g, Annotation))
  }

  /** `namesOfAllStandardClasses`, `namesOfAllInterfaceClasses`, `namesOfAllAnnotationClasses`. */
  function AllNamesOfKind(g: Graph, k: Kind): (r: seq<string>)
    requires WellFormed(g)
    ensures StrictlySorted(r)
    ensures forall x :: x in r <==> x in KindNodes(g, k)
  {
    SortedCopy(NamesOfKind(g, k))
  }

  // ---------------------------------------------------------------------------------------------
  // Sub- and super-class, sub- and super-interface lookups (lines 229-342)

  /** Which closure a lookup reads: `allSubNodes` or `allSuperNodes`. */
  datatype Direction = Down | Up

  /** The closure of `n` in direction `dir`. */
  function Relatives(g: Graph, dir: Direction, n: string): (r: set<string>)
    requires WellFormed(g) && n in g.dag.nodes
    ensures r <= g.dag.nodes
  {
    match dir
    case Down => g.dag.allSubNodes[n]
    case Up => g.dag.allSuperNodes[n]
  }

  /**
   * `classNameToSubclassNames` and its three siblings: the sorted names of the
   * node's closure when `name` is a node of kind `k`, and `null` otherwise.
   */
  function SortedRelatives(g: Graph, k: Kind, dir: Direction, name: string): (r: Option<seq<string>>)
    requires WellFormed(g)
    ensures r.Some? <==> name in KindNodes(g, k)
    ensures r.Some? ==> StrictlySorted(r.value) && forall x :: x in r.value <==> x in Relatives(g, dir, name)
  {
    if name in NamesOfKind(g, k) then Some(SortedCopy(Relatives(g, dir, name))) else None
  }

  // ---------------------------------------------------------------------------------------------
  // Implementers (lines 345-390)

  /** The interfaces `links` name, and every super-node of each of them. */
  function Lifted(g: Graph, links: set<string>): (r: set<string>)
    requires WellFormed(g) && links <= g.dag.nodes
    ensures r <= g.dag.nodes
    ensures forall k :: k in r <==> exists j :: j in links && (k == j || k in g.dag.allSuperNodes[j])
  {
    links + set j, s | j in links && s in g.dag.allSuperNodes[j] :: s
  }

  /** A class and its subclasses. */
  function WithSubclasses(g: Graph, c: string): (r: set<string>)
    requires WellFormed(g) && c in g.dag.nodes
    ensures c in r && r <= g.dag.nodes
  {
    {c} + g.dag.allSubNodes[c]
  }

  /**
   * The classes among `classes` that implement `i`: each class cross-linked to
   * `i` or to an interface with `i` among its super-nodes, together with all of
   * that class's subclasses.
   */
  function Implementers(g: Graph, classes: set<string>, i: string): (r: set<string>)
    requires WellFormed(g) && classes <= g.dag.nodes
    ensures r <= g.dag.nodes
    ensures i !in g.dag.nodes ==> r == {}
  {
    set c, x | c in classes && i in Lifted(g, CrossLinkedNodes(g.dag, c)) && x in WithSubclasses(g, c) :: x
  }

  /** `interfaceNameToClassNamesSet` once initialised: every interface with at least one implementer. */
  function ImplementersTable(g: Graph): (m: SetMap)
    requires WellFormed(g)
    ensures NoEmptySets(m)
    ensures forall i :: Values(m, i) == Implementers(g, NamesOfKind(g, StandardClass), i)
  {
    var std := NamesOfKind(g, StandardClass);
    map i | i in g.dag.nodes && Implementers(g, std, i) != {} :: Implementers(g, std, i)
  }

  /** `interfaceNameToClassNames`: the sorted implementers, or `null` when there are none. */
  function ClassesImplementing(g: Graph, i: string): (r: Option<seq<string>>)
    requires WellFormed(g)
    ensures r.Some? ==> StrictlySorted(r.value) && r.value != []
  {
    SortedValues(Lookup(ImplementersTable(g), i))
  }

  /**
   * Standard class `c` is cross-linked to `j`, which is `i` or has `i` above
   * it, and `x` is `c` or below `c`.
   */
  ghost predicate ImplementsVia(g: Graph, i: string, x: string, c: string, j: string)
    requires WellFormed(g)
  {
    && c in g.standardClassNodes && (c, j) in g.dag.crossLinks
    && (j == i || Reachable(DirectSuperNodes(g.dag), j, i))
    && (x == c || Reachable(DirectSubNodes(g.dag), c, x))
  }

  /**
   * Lines 352-373 over a closed graph: `x` implements `i` exactly when some
   * standard class `c` is cross-linked to `i` or to a sub-interface of `i`,
   * and `x` is `c` or a subclass of `c`.
   */
  lemma ImplementersByReachability(g: Graph, i: string, x: string)
    requires WellFormed(g) && Closed(g.dag)
    ensures x in OrEmpty(ClassesImplementing(g, i)) <==>
      exists c, j :: ImplementsVia(g, i, x, c, j)
  {
    var std := NamesOfKind(g, StandardClass);
    ImplementersListed(g, i, x);
    if x in Implementers(g, std, i) {
      ImplementerHasWitness(g, i, x);
    }
    if exists c, j :: ImplementsVia(g, i, x, c, j) {
      var c, j :| ImplementsVia(g, i, x, c, j);
      WitnessIsImplementer(g, i, x, c, j);
    }
  }

  /** The getter lists exactly the implementers of the table. */
  lemma ImplementersListed(g: Graph, i: string, x: string)
    requires WellFormed(g)
    ensures x in OrEmpty(ClassesImplementing(g, i)) <==> x in Implementers(g, NamesOfKind(g, StandardClass), i)
  {
    assert Values(ImplementersTable(g), i) == Implementers(g, NamesOfKind(g, StandardClass), i);
  }

  lemma ImplementerHasWitness(g: Graph, i: string, x: string)
    requires WellFormed(g) && Closed(g.dag)
    requires x in Implementers(g, NamesOfKind(g, StandardClass), i)
    ensures exists c, j :: ImplementsVia(g, i, x, c, j)
  {
    var c :| c in NamesOfKind(g, StandardClass) && i in Lifted(g, CrossLinkedNodes(g.dag, c)) && x in WithSubclasses(g, c);
    var links := CrossLinkedNodes(g.dag, c);
    var j :| j in links && (i == j || i in g.dag.allSuperNodes[j]);
    ClosedReachability(g, j, i);
    ClosedReachability(g, c, x);
    assert ImplementsVia(g, i, x, c, j);
  }

  lemma WitnessIsImplementer(g: Graph, i: string, x: string, c: string, j: string)
    requires WellFormed(g) && Closed(g.dag)
    requires ImplementsVia(g, i, x, c, j)
    ensures x in Implementers(g, NamesOfKind(g, StandardClass), i)
  {
    ClosedReachability(g, j, i);
    ClosedReachability(g, c, x);
    assert j in CrossLinkedNodes(g.dag, c);
    assert i in Lifted(g, CrossLinkedNodes(g.dag, c));
    assert x in WithSubclasses(g, c);
  }

  /** On a closed graph, membership in `allSubNodes` / `allSuperNodes` is reachability. */
  lemma ClosedReachability(g: Graph, a: string, b: string)
    requires WellFormed(g) && Closed(g.dag) && a in g.dag.nodes
    ensures b in g.dag.allSubNodes[a] <==> Reachable(DirectSubNodes(g.dag), a, b)
    ensures b in g.dag.allSuperNodes[a] <==> Reachable(DirectSuperNodes(g.dag), a, b)
  {
    assert ClosedAt(g.dag, a);
    ClosureIsReachability(DirectSubNodes(g.dag), a, b);
    ClosureIsReachability(DirectSuperNodes(g.dag), a, b);
  }

  // ---------------------------------------------------------------------------------------------
  // Annotations (lines 396-429)

  /** `annotationNameToAnnotatedClassNamesSet`: the cross-links of the annotation and of all its sub-annotations. */
  function AnnotatedClasses(g: Graph, a: string): (r: Option<set<string>>)
    requires WellFormed(g)
    ensures r.Some? <==> a in g.annotationNodes
    ensures r.Some? ==> r.value <= g.dag.nodes
  {
    if a in NamesOfKind(g, Annotation) then
      Some(set n, t | n in {a} + g.dag.allSubNodes[a] && t in CrossLinkedNodes(g.dag, n) :: t)
    else None
  }

  /** `annotationNameToAnnotatedClassNames`: the sorted annotated classes, or `null` for a name that is not an annotation. */
  function ClassesWithAnnotation(g: Graph, a: string): (r: Option<seq<string>>)
    requires WellFormed(g)
    ensures r.Some? <==> a in g.annotationNodes
    ensures r.Some? ==> StrictlySorted(r.value)
  {
    SortedValues(AnnotatedClasses(g, a))
  }

  /**
   * Lines 401-412 over a closed graph: a class carries annotation `a` when `a`
   * or an annotation below it is cross-linked to the class.
   */
  lemma AnnotatedClassesByReachability(g: Graph, a: string, x: string)
    requires WellFormed(g) && Closed(g.dag)
    ensures x in OrEmpty(ClassesWithAnnotation(g, a)) <==>
      a in g.annotationNodes && exists n :: (n, x) in g.dag.crossLinks && (n == a || Reachable(DirectSubNodes(g.dag), a, n))
  {
    if a in g.annotationNodes {
      assert x in OrEmpty(ClassesWithAnnotation(g, a)) <==> x in AnnotatedClasses(g, a).value;
      if x in AnnotatedClasses(g, a).value {
        var n :| n in {a} + g.dag.allSubNodes[a] && x in CrossLinkedNodes(g.dag, n);
        ClosedReachability(g, a, n);
      }
      if exists n :: (n, x) in g.dag.crossLinks && (n == a || Reachable(DirectSubNodes(g.dag), a, n)) {
        var n :| (n, x) in g.dag.crossLinks && (n == a || Reachable(DirectSubNodes(g.dag), a, n));
        ClosedReachability(g, a, n);
        assert x in CrossLinkedNodes(g.dag, n);
      }
    }
  }

  /** The forward map `invertMultiSet` reads for annotations: every annotation name to its annotated classes. */
  function AnnotatedClassesTable(g: Graph): (m: SetMap)
    requires WellFormed(g)
    ensures forall a :: a in NamesOfKind(g, Annotation) ==> Values(m, a) == AnnotatedClasses(g, a).value
  {
    map a | a in NamesOfKind(g, Annotation) :: AnnotatedClasses(g, a).value
  }

  /** `classNameToAnnotationNames`: the sorted annotations on `c`, or `null` when it has none (lines 435-437). */
  function AnnotationsOnClass(g: Graph, c: string): (r: Option<seq<string>>)
    requires WellFormed(g)
    ensures r.Some? ==> StrictlySorted(r.value) && r.value != []
  {
    SortedValues(Lookup(Invert(AnnotatedClassesTable(g), NamesOfKind(g, Annotation)), c))
  }

  /**
   * The inversion law of lines 435-437: `x` is among the annotations on `c`
   * exactly when `c` is among the classes with annotation `x`, and then `x` is
   * a known annotation.
   */
  lemma AnnotationsOnClassInversion(g: Graph, c: string, x: string)
    requires WellFormed(g)
    ensures x in OrEmpty(AnnotationsOnClass(g, c)) <==> c in OrEmpty(ClassesWithAnnotation(g, x))
    ensures x in OrEmpty(AnnotationsOnClass(g, c)) ==> x in g.annotationNodes
  {
    var annotations := NamesOfKind(g, Annotation);
    var inverse := Invert(AnnotatedClassesTable(g), annotations);
    assert x in OrEmpty(AnnotationsOnClass(g, c)) <==> x in Values(inverse, c);
    if x in annotations {
      assert c in OrEmpty(ClassesWithAnnotation(g, x)) <==> c in Values(AnnotatedClassesTable(g), x);
    }
  }

  // ---------------------------------------------------------------------------------------------
  // Meta-annotations (lines 453-497)

  /** `metaAnnotationNameToAnnotatedAnnotationNamesSet`: every node below the annotation. */
  function AnnotatedAnnotations(g: Graph, a: string): (r: Option<set<string>>)
    requires WellFormed(g)
    ensures r.Some? <==> a in g.annotationNodes
    ensures r.Some? ==> r.value == Relatives(g, Down, a)
  {
    if a in NamesOfKind(g, Annotation) then Some(g.dag.allSubNodes[a]) else None
  }

  /** `metaAnnotationNameToAnnotatedAnnotationNames`: the sorted annotations that carry meta-annotation `m`. */
  function AnnotationsWithMetaAnnotation(g: Graph, m: string): (r: Option<seq<string>>)
    requires WellFormed(g)
    ensures r.Some? <==> m in g.annotationNodes
    ensures r.Some? ==> StrictlySorted(r.value)
  {
    SortedValues(AnnotatedAnnotations(g, m))
  }

  /** The forward map `invertMultiSet` reads for meta-annotations. */
  function MetaAnnotationTable(g: Graph): (m: SetMap)
    requires WellFormed(g)
    ensures forall a :: a in NamesOfKind(g, Annotation) ==> Values(m, a) == g.dag.allSubNodes[a]
  {
    map a | a in NamesOfKind(g, Annotation) :: AnnotatedAnnotations(g, a).value
  }

  /** `annotationNameToMetaAnnotationNames`: the sorted meta-annotations on `a`, or `null` when it has none (lines 470-472). */
  function MetaAnnotationsOnAnnotation(g: Graph, a: string): (r: Option<seq<string>>)
    requires WellFormed(g)
    ensures r.Some? ==> StrictlySorted(r.value) && r.value != []
  {
    SortedValues(Lookup(Invert(MetaAnnotationTable(g), NamesOfKind(g, Annotation)), a))
  }

  /** The inversion law of lines 470-497: `m` is a meta-annotation on `a` exactly when `a` has meta-annotation `m`. */
  lemma MetaAnnotationInversion(g: Graph, a: string, m: string)
    requires WellFormed(g)
    ensures m in OrEmpty(MetaAnnotationsOnAnnotation(g, a)) <==> a in OrEmpty(AnnotationsWithMetaAnnotation(g, m))
  {
    var annotations := NamesOfKind(g, Annotation);
    var inverse := Invert(MetaAnnotationTable(g), annotations);
    assert m in OrEmpty(MetaAnnotationsOnAnnotation(g, a)) <==> m in Values(inverse, a);
    if m in annotations {
      assert a in OrEmpty(AnnotationsWithMetaAnnotation(g, m)) <==> a in Values(MetaAnnotationTable(g), m);
    }
  }

  /** Over a closed graph the meta-annotations on `a` are the annotations `a` can be reached from. */
  lemma MetaAnnotationsAreAncestors(g: Graph, a: string, m: string)
    requires WellFormed(g) && Closed(g.dag)
    ensures m in OrEmpty(MetaAnnotationsOnAnnotation(g, a)) <==>
      m in g.annotationNodes && Reachable(DirectSubNodes(g.dag), m, a)
  {
    MetaAnnotationInversion(g, a, m);
    if m in g.annotationNodes {
      ClosedReachability(g, m, a);
    }
  }

  // ---------------------------------------------------------------------------------------------
  // The public getters

  /** One public `getNamesOf*` method, by the index it reads. */
  datatype Query =
    | AllClasses
    | AllOfKind(kind: Kind)
    | SubclassesOf
    | SuperclassesOf
    | SubinterfacesOf
    | SuperinterfacesOf
    | ClassesImplementingQuery
    | ClassesWithAnnotationQuery
    | AnnotationsOnClassQuery
    | MetaAnnotationsOnAnnotationQuery
    | AnnotationsWithMetaAnnotationQuery

  /** Whether the index answers per name; the all-names lists ignore the key and are read under `""`. */
  predicate PerName(q: Query) {
    !q.AllClasses? && !q.AllOfKind?
  }

  /** What the index behind `q` holds for `key` once computed; `None` is `null`. */
  function Answer(g: Graph, q: Query, key: string): (r: Option<seq<string>>)
    requires WellFormed(g)
    ensures !PerName(q) ==> r.Some?
    ensures r.Some? ==> StrictlySorted(r.value)
  {
    match q
    case AllClasses => Some(AllNames(g))
    case AllOfKind(k) => Some(AllNamesOfKind(g, k))
    case SubclassesOf => SortedRelatives(g, StandardClass, Down, key)
    case SuperclassesOf => SortedRelatives(g, StandardClass, Up, key)
    case SubinterfacesOf => SortedRelatives(g, Interface, Down, key)
    case SuperinterfacesOf => SortedRelatives(g, Interface, Up, key)
    case ClassesImplementingQuery => ClassesImplementing(g, key)
    case ClassesWithAnnotationQuery => ClassesWithAnnotation(g, key)
    case AnnotationsOnClassQuery => AnnotationsOnClass(g, key)
    case MetaAnnotationsOnAnnotationQuery => MetaAnnotationsOnAnnotation(g, key)
    case AnnotationsWithMetaAnnotationQuery => AnnotationsWithMetaAnnotation(g, key)
  }

  /** A getter's result: the index's list, with `null` read as the empty list (for example lines 250-254). */
  function NamesOf(g: Graph, q: Query, key: string): (r: seq<string>)
    requires WellFormed(g)
    ensures StrictlySorted(r)
    ensures Answer(g, q, key).None? ==> r == []
  {
    OrEmpty(Answer(g, q, key))
  }

  /** A name that is no node of the graph gets the empty list from every per-name getter. */
  lemma UnknownNameEmpty(g: Graph, q: Query, key: string)
    requires WellFormed(g) && PerName(q) && key !in g.dag.nodes
    ensures NamesOf(g, q, key) == []
  {
    match q
    case ClassesImplementingQuery =>
      assert Values(ImplementersTable(g), key) == {};
    case AnnotationsOnClassQuery =>
      var inverse := Invert(AnnotatedClassesTable(g), NamesOfKind(g, Annotation));
      forall x ensures x !in Values(inverse, key) {
        if x in NamesOfKind(g, Annotation) {
          assert Values(AnnotatedClassesTable(g), x) <= g.dag.nodes;
        }
      }
      assert key !in inverse;
    case MetaAnnotationsOnAnnotationQuery =>
      var inverse := Invert(MetaAnnotationTable(g), NamesOfKind(g, Annotation));
      forall x ensures x !in Values(inverse, key) {
        if x in NamesOfKind(g, Annotation) {
          assert Values(MetaAnnotationTable(g), x) <= g.dag.nodes;
        }
      }
      assert key !in inverse;
    case _ =>
  }

  // ---------------------------------------------------------------------------------------------
  // The indices of the graph built from the facts

  /** The kind lists of the built graph, read back as name sets. */
  lemma KindNodesOfBuilt(infos: seq<ClassInfo>, k: Kind, x: string)
    ensures x in KindNodes(Built(infos), k) <==>
      exists info :: info in infos && info.className == x && KindOf(info) == k
  {
    assert KindNodes(Built(infos), k) == KindList(infos, k);
    KindListMember(infos, k, x);
  }

  /** Lines 154-227: the all-classes list holds exactly the names of the facts, sorted and without repeats. */
  lemma AllNamesOfBuilt(infos: seq<ClassInfo>, x: string)
    ensures x in AllNames(Built(infos)) <==> x in ClassNames(infos)
  {
    KindNodesOfBuilt(infos, StandardClass, x);
    KindNodesOfBuilt(infos, Interface, x);
    KindNodesOfBuilt(infos, Annotation, x);
    if x in ClassNames(infos) {
      var info :| info in infos && info.className == x;
      match KindOf(info)
      case StandardClass => assert x in KindNodes(Built(infos), StandardClass);
      case Interface => assert x in KindNodes(Built(infos), Interface);
      case Annotation => assert x in KindNodes(Built(infos), Annotation);
    }
  }

  /**
   * Lines 229-342 on the built graph: the subclasses (subinterfaces) of a node
   * are the nodes reachable from it along sub-node edges, its superclasses
   * (superinterfaces) those reachable along super-node edges, over the whole
   * graph.
   */
  lemma RelativesOfBuilt(infos: seq<ClassInfo>, k: Kind, name: string, x: string)
    requires name in KindNodes(Built(infos), k)
    ensures x in OrEmpty(SortedRelatives(Built(infos), k, Down, name)) <==>
      Reachable(DirectSubNodes(Built(infos).dag), name, x)
    ensures x in OrEmpty(SortedRelatives(Built(infos), k, Up, name)) <==>
      Reachable(DirectSuperNodes(Built(infos).dag), name, x)
  {
    BuiltIsClosed(infos);
    RelativesByReachability(Built(infos), k, name, x);
  }

  /** Over a closed graph a lookup lists the nodes reachable from `name` in its direction. */
  lemma RelativesByReachability(g: Graph, k: Kind, name: string, x: string)
    requires WellFormed(g) && Closed(g.dag) && name in KindNodes(g, k)
    ensures x in OrEmpty(SortedRelatives(g, k, Down, name)) <==> Reachable(DirectSubNodes(g.dag), name, x)
    ensures x in OrEmpty(SortedRelatives(g, k, Up, name)) <==> Reachable(DirectSuperNodes(g.dag), name, x)
  {
    ClosedReachability(g, name, x);
  }

  /** Between two nodes of the same kind, `x` is below `c` exactly when `c` is above `x`. */
  lemma SubSuperDual(g: Graph, k: Kind, c: string, x: string)
    requires WellFormed(g) && Closed(g.dag)
    requires c in KindNodes(g, k) && x in KindNodes(g, k)
    ensures x in OrEmpty(SortedRelatives(g, k, Down, c)) <==> c in OrEmpty(SortedRelatives(g, k, Up, x))
  {
    assert ClosedAt(g.dag, c) && ClosedAt(g.dag, x);
    SubSuperSymmetric(g.dag, c, x);
  }

  /** Over an acyclic closed graph no class is its own subclass. */
  lemma NotOwnSubclass(g: Graph, k: Kind, c: string)
    requires WellFormed(g) && Closed(g.dag) && Acyclic(g.dag)
    ensures c !in OrEmpty(SortedRelatives(g, k, Down, c))
  {
    if c in KindNodes(g, k) {
      ClosedReachability(g, c, c);
      NotOwnRelative(g.dag, c);
    }
  }
}
