/**
 * The constructor of `ClassGraphBuilder`: one DAG node per class name, each
 * fact filed under exactly one of the three kind lists, its declared
 * interfaces, superclasses and annotations wired as direct edges or
 * cross-links, and the closures computed once per kind list.
 *
 * The wiring is specified declaratively: the set of (parent, child) direct
 * edges and the set of (from, to) cross-links that the facts declare among
 * the known names. The constructor's loops are proved to build exactly the
 * arena those two sets describe.
 */
module ClassGraphConstruction {
  import opened Wrappers
  import opened ClassInfos
  import opened DagNodes

  /** The built class graph: the node arena and the three kind lists. */
  datatype Graph = Graph(
    dag: Dag,
    standardClassNodes: seq<string>,
    interfaceNodes: seq<string>,
    annotationNodes: seq<string>)

  /** Every kind list names nodes of the arena. */
  ghost predicate WellFormed(g: Graph) {
    && Valid(g.dag)
    && (forall n :: n in g.standardClassNodes ==> n in g.dag.nodes)
    && (forall n :: n in g.interfaceNodes ==> n in g.dag.nodes)
    && (forall n :: n in g.annotationNodes ==> n in g.dag.nodes)
  }

  /** The keys of `classNameToDAGNode`: one node per class name. */
  function ClassNames(infos: seq<ClassInfo>): set<string> {
    set info | info in infos :: info.className
  }

  // ---------------------------------------------------------------------------------------------
  // Kind lists

  /** The node list of kind `k` after the wiring loop: the names of that kind's facts, in input order. */
  function KindList(infos: seq<ClassInfo>, k: Kind): seq<string>
    decreases |infos|
  {
    if infos == [] then []
    else
      var last := infos[|infos| - 1];
      KindList(infos[..|infos| - 1], k) + (if KindOf(last) == k then [last.className] else [])
  }

  /** A name is in the list of kind `k` exactly when some fact of that kind carries it. */
  lemma {:induction false} KindListMember(infos: seq<ClassInfo>, k: Kind, x: string)
    ensures x in KindList(infos, k) <==> exists info :: info in infos && info.className == x && KindOf(info) == k
    decreases |infos|
  {
    if infos != [] {
      var init, last := infos[..|infos| - 1], infos[|infos| - 1];
      assert infos == init + [last];
      KindListMember(init, k, x);
      if x in KindList(infos, k) && !(x in KindList(init, k)) {
        assert last.className == x && KindOf(last) == k;
      }
      if exists info :: info in infos && info.className == x && KindOf(info) == k {
        var info :| info in infos && info.className == x && KindOf(info) == k;
        if info != last {
          assert info in init;
        }
      }
    }
  }

  /** Each fact is appended to exactly one of the three lists (line 64). */
  lemma {:induction false} KindListsCover(infos: seq<ClassInfo>)
    ensures |KindList(infos, StandardClass)| + |KindList(infos, Interface)| + |KindList(infos, Annotation)| == |infos|
    decreases |infos|
  {
    if infos != [] {
      KindListsCover(infos[..|infos| - 1]);
    }
  }

  /** No two facts share a class name. */
  predicate DistinctNames(infos: seq<ClassInfo>) {
    forall i, j :: 0 <= i < j < |infos| ==> infos[i].className != infos[j].className
  }

  /**
   * With distinct class names, every fact's node sits in the list of its own kind
   * and in neither of the other two: the annotation flag wins over the interface
   * flag, and a fact with neither flag is a standard class.
   */
  lemma KindPartition(infos: seq<ClassInfo>, i: nat, k: Kind)
    requires DistinctNames(infos) && i < |infos|
    ensures infos[i].className in KindList(infos, k) <==> k == KindOf(infos[i])
  {
    KindListMember(infos, k, infos[i].className);
    if infos[i].className in KindList(infos, k) {
      var info :| info in infos && info.className == infos[i].className && KindOf(info) == k;
      var j :| 0 <= j < |infos| && infos[j] == info;
      assert j == i;
    }
  }

  // ---------------------------------------------------------------------------------------------
  // Edge wiring

  /**
   * Whether `info` makes its own node a direct sub-node of the node named `p`:
   * through an interface name when the fact is an interface (lines 75-78), through
   * any superclass name (lines 86-90), through an annotation name when the fact is
   * an annotation (lines 97-99).
   */
  predicate DeclaresSuperNode(info: ClassInfo, p: string) {
    || (info.isInterface && p in DeclaredInterfaces(info))
    || p in info.superclassNames
    || (info.isAnnotation && p in DeclaredAnnotations(info))
  }

  /**
   * Whether `info` cross-links the node named `from` to the node named `to`: a
   * standard class to each interface it names (lines 72-74), and each annotation
   * a non-annotation names to that non-annotation (lines 100-102).
   */
  predicate DeclaresCrossLink(info: ClassInfo, from: string, to: string) {
    || (from == info.className && !info.isAnnotation && !info.isInterface && to in DeclaredInterfaces(info))
    || (to == info.className && !info.isAnnotation && from in DeclaredAnnotations(info))
  }

  /** Edges from each known name of `list` to the node `c`, when `cond` holds. */
  function Incoming(names: set<string>, list: seq<string>, cond: bool, c: string): Pairs {
    set p | p in list && p in names && c in names && cond :: (p, c)
  }

  /** Edges from the node `f` to each known name of `list`, when `cond` holds. */
  function Outgoing(names: set<string>, list: seq<string>, cond: bool, f: string): Pairs {
    set t | t in list && t in names && f in names && cond :: (f, t)
  }

  /** Growing `list` by `x` adds at most the one edge `(x, c)` to what `base` already holds. */
  lemma IncomingStep(base: Pairs, names: set<string>, list: seq<string>, x: string, cond: bool, c: string)
    ensures base + Incoming(names, list + [x], cond, c) ==
      if x in names && c in names && cond then base + Incoming(names, list, cond, c) + {(x, c)}
      else base + Incoming(names, list, cond, c)
  {
  }

  /** Growing `list` by `x` adds at most the one edge `(f, x)` to what `base` already holds. */
  lemma OutgoingStep(base: Pairs, names: set<string>, list: seq<string>, x: string, cond: bool, f: string)
    ensures base + Outgoing(names, list + [x], cond, f) ==
      if x in names && f in names && cond then base + Outgoing(names, list, cond, f) + {(f, x)}
      else base + Outgoing(names, list, cond, f)
  {
  }

  /** Direct edges from the interface names of `info` listed in `ifaces`, among the known `names`. */
  function InterfaceSubEdges(info: ClassInfo, names: set<string>, ifaces: seq<string>): Pairs {
    Incoming(names, ifaces, info.isInterface, info.className)
  }

  /** Cross-links from the interface names of `info` listed in `ifaces`. */
  function InterfaceCrossLinks(info: ClassInfo, names: set<string>, ifaces: seq<string>): Pairs {
    Outgoing(names, ifaces, !info.isAnnotation && !info.isInterface, info.className)
  }

  /** Direct edges from the superclass names listed in `supers`. */
  function SuperclassSubEdges(info: ClassInfo, names: set<string>, supers: seq<string>): Pairs {
    Incoming(names, supers, true, info.className)
  }

  /** Direct edges from the annotation names of `info` listed in `anns` (meta-annotations). */
  function AnnotationSubEdges(info: ClassInfo, names: set<string>, anns: seq<string>): Pairs {
    Incoming(names, anns, info.isAnnotation, info.className)
  }

  /** Cross-links from the annotation names of `info` listed in `anns`. */
  function AnnotationCrossLinks(info: ClassInfo, names: set<string>, anns: seq<string>): Pairs {
    Incoming(names, anns, !info.isAnnotation, info.className)
  }

  /** All direct edges one fact adds. */
  function FactSubEdges(info: ClassInfo, names: set<string>): Pairs {
    InterfaceSubEdges(info, names, DeclaredInterfaces(info))
      + SuperclassSubEdges(info, names, info.superclassNames)
      + AnnotationSubEdges(info, names, DeclaredAnnotations(info))
  }

  /** All cross-links one fact adds. */
  function FactCrossLinks(info: ClassInfo, names: set<string>): Pairs {
    InterfaceCrossLinks(info, names, DeclaredInterfaces(info))
      + AnnotationCrossLinks(info, names, DeclaredAnnotations(info))
  }

  /** The direct edges all of `infos` add. */
  function SubEdgePairs(infos: seq<ClassInfo>, names: set<string>): Pairs
    decreases |infos|
  {
    if infos == [] then {}
    else SubEdgePairs(infos[..|infos| - 1], names) + FactSubEdges(infos[|infos| - 1], names)
  }

  /** The cross-links all of `infos` add. */
  function CrossLinkPairs(infos: seq<ClassInfo>, names: set<string>): Pairs
    decreases |infos|
  {
    if infos == [] then {}
    else CrossLinkPairs(infos[..|infos| - 1], names) + FactCrossLinks(infos[|infos| - 1], names)
  }

  /** A direct edge is wired exactly when some fact declares it and both ends are known. */
  lemma {:induction false} SubEdgePairsMember(infos: seq<ClassInfo>, names: set<string>, p: string, c: string)
    ensures (p, c) in SubEdgePairs(infos, names) <==>
      p in names && c in names && exists info :: info in infos && info.className == c && DeclaresSuperNode(info, p)
    decreases |infos|
  {
    if infos != [] {
      var init, last := infos[..|infos| - 1], infos[|infos| - 1];
      assert infos == init + [last];
      SubEdgePairsMember(init, names, p, c);
      if exists info :: info in infos && info.className == c && DeclaresSuperNode(info, p) {
        var info :| info in infos && info.className == c && DeclaresSuperNode(info, p);
        if info != last {
          assert info in init;
        }
      }
    }
  }

  lemma FactCrossLinksMember(info: ClassInfo, names: set<string>, f: string, t: string)
    ensures (f, t) in FactCrossLinks(info, names) <==> f in names && t in names && DeclaresCrossLink(info, f, t)
  {
    if f == info.className && !info.isAnnotation && !info.isInterface && t in DeclaredInterfaces(info) && f in names && t in names {
      assert (f, t) in InterfaceCrossLinks(info, names, DeclaredInterfaces(info));
    }
    if t == info.className && !info.isAnnotation && f in DeclaredAnnotations(info) && f in names && t in names {
      assert (f, t) in AnnotationCrossLinks(info, names, DeclaredAnnotations(info));
    }
  }

  /** A cross-link is wired exactly when some fact declares it and both ends are known. */
  lemma {:induction false} CrossLinkPairsMember(infos: seq<ClassInfo>, names: set<string>, f: string, t: string)
    ensures (f, t) in CrossLinkPairs(infos, names) <==>
      f in names && t in names && exists info :: info in infos && DeclaresCrossLink(info, f, t)
    decreases |infos|
  {
    if infos != [] {
      var init, last := infos[..|infos| - 1], infos[|infos| - 1];
      assert infos == init + [last];
      CrossLinkPairsMember(init, names, f, t);
      FactCrossLinksMember(last, names, f, t);
      if exists info :: info in infos && DeclaresCrossLink(info, f, t) {
        var info :| info in infos && DeclaresCrossLink(info, f, t);
        if info != last {
          assert info in init;
        }
      }
    }
  }

  lemma {:induction false} WiredPairsWithin(infos: seq<ClassInfo>, names: set<string>)
    ensures PairsWithin(SubEdgePairs(infos, names), names)
    ensures PairsWithin(CrossLinkPairs(infos, names), names)
    decreases |infos|
  {
    if infos != [] {
      WiredPairsWithin(infos[..|infos| - 1], names);
    }
  }

  /** The arena whose direct edges are `sub` and whose cross-links are `cross`, closures still empty. */
  function Wired(names: set<string>, sub: Pairs, cross: Pairs): (d: Dag)
    requires PairsWithin(sub, names) && PairsWithin(cross, names)
    ensures Valid(d) && d.nodes == names
  {
    Dag(names, sub, cross, EmptyEdges(names), EmptyEdges(names))
  }

  // ---------------------------------------------------------------------------------------------
  // The constructor's loops

  /** `r` has the nodes and closures of `d`; only its relations may differ. */
  predicate Untouched(d: Dag, r: Dag) {
    r.nodes == d.nodes && r.allSubNodes == d.allSubNodes && r.allSuperNodes == d.allSuperNodes
  }

  /** Lines 68-82: each known interface name becomes a cross-link (standard class) or a super-node (interface). */
  method ConnectInterfaces(d: Dag, info: ClassInfo) returns (r: Dag)
    requires Valid(d) && info.className in d.nodes
    ensures r == d.(subEdges := d.subEdges + InterfaceSubEdges(info, d.nodes, DeclaredInterfaces(info)),
                    crossLinks := d.crossLinks + InterfaceCrossLinks(info, d.nodes, DeclaredInterfaces(info)))
  {
    var names := d.nodes;
    r := d;
    if info.interfaceNames.Some? {
      var ifaces := info.interfaceNames.value;
      var j := 0;
      assert ifaces[..0] == [];
      while j < |ifaces|
        invariant 0 <= j <= |ifaces|
        invariant Valid(r) && Untouched(d, r)
        invariant r.subEdges == d.subEdges + InterfaceSubEdges(info, names, ifaces[..j])
        invariant r.crossLinks == d.crossLinks + InterfaceCrossLinks(info, names, ifaces[..j])
      {
        var interfaceName := ifaces[j];
        assert ifaces[..j + 1] == ifaces[..j] + [interfaceName];
        IncomingStep(d.subEdges, names, ifaces[..j], interfaceName, info.isInterface, info.className);
        OutgoingStep(d.crossLinks, names, ifaces[..j], interfaceName, !info.isAnnotation && !info.isInterface, info.className);
        if interfaceName in names {
          if !info.isAnnotation && !info.isInterface {
            r := AddCrossLink(r, info.className, interfaceName);
          } else if info.isInterface {
            r := AddSubNode(r, interfaceName, info.className);
          }
        }
        j := j + 1;
      }
      assert ifaces[..j] == ifaces;
    } else {
      assert InterfaceSubEdges(info, names, []) == {} && InterfaceCrossLinks(info, names, []) == {};
      assert d.subEdges + {} == d.subEdges && d.crossLinks + {} == d.crossLinks;
    }
  }

  /** Lines 86-91: each known superclass name gets the class as a direct sub-node. */
  method ConnectSuperclasses(d: Dag, info: ClassInfo) returns (r: Dag)
    requires Valid(d) && info.className in d.nodes
    ensures r == d.(subEdges := d.subEdges + SuperclassSubEdges(info, d.nodes, info.superclassNames))
  {
    var names := d.nodes;
    var supers := info.superclassNames;
    r := d;
    var j := 0;
    assert supers[..0] == [];
    while j < |supers|
      invariant 0 <= j <= |supers|
      invariant Valid(r) && Untouched(d, r) && r.crossLinks == d.crossLinks
      invariant r.subEdges == d.subEdges + SuperclassSubEdges(info, names, supers[..j])
    {
      var superclassName := supers[j];
      assert supers[..j + 1] == supers[..j] + [superclassName];
      IncomingStep(d.subEdges, names, supers[..j], superclassName, true, info.className);
      if superclassName in names {
        r := AddSubNode(r, superclassName, info.className);
      }
      j := j + 1;
    }
    assert supers[..j] == supers;
  }

  /** Lines 93-106: each known annotation name gets a meta-annotated annotation as a sub-node, anything else as a cross-link. */
  method ConnectAnnotations(d: Dag, info: ClassInfo) returns (r: Dag)
    requires Valid(d) && info.className in d.nodes
    ensures r == d.(subEdges := d.subEdges + AnnotationSubEdges(info, d.nodes, DeclaredAnnotations(info)),
                    crossLinks := d.crossLinks + AnnotationCrossLinks(info, d.nodes, DeclaredAnnotations(info)))
  {
    var names := d.nodes;
    r := d;
    if info.annotationNames.Some? {
      var anns := info.annotationNames.value;
      var j := 0;
      assert anns[..0] == [];
      while j < |anns|
        invariant 0 <= j <= |anns|
        invariant Valid(r) && Untouched(d, r)
        invariant r.subEdges == d.subEdges + AnnotationSubEdges(info, names, anns[..j])
        invariant r.crossLinks == d.crossLinks + AnnotationCrossLinks(info, names, anns[..j])
      {
        var annotationName := anns[j];
        assert anns[..j + 1] == anns[..j] + [annotationName];
        IncomingStep(d.subEdges, names, anns[..j], annotationName, info.isAnnotation, info.className);
        IncomingStep(d.crossLinks, names, anns[..j], annotationName, !info.isAnnotation, info.className);
        if annotationName in names {
          if info.isAnnotation {
            r := AddSubNode(r, annotationName, info.className);
          } else {
            r := AddCrossLink(r, annotationName, info.className);
          }
        }
        j := j + 1;
      }
      assert anns[..j] == anns;
    } else {
      assert AnnotationSubEdges(info, names, []) == {} && AnnotationCrossLinks(info, names, []) == {};
      assert d.subEdges + {} == d.subEdges && d.crossLinks + {} == d.crossLinks;
    }
  }

  /** Adding three edge sets one after the other adds their union. */
  lemma UnionRegroup(a: Pairs, b: Pairs, c: Pairs, e: Pairs)
    ensures a + b + c + e == a + (b + c + e)
    ensures a + b + e == a + (b + e)
  {
  }

  /** The graph the constructor builds from `infos`. */
  function Built(infos: seq<ClassInfo>): (g: Graph)
    ensures WellFormed(g) && g.dag.nodes == ClassNames(infos)
  {
    var names := ClassNames(infos);
    WiredPairsWithin(infos, names);
    var wired := Wired(names, SubEdgePairs(infos, names), CrossLinkPairs(infos, names));
    var standard := KindList(infos, StandardClass);
    var interfaces := KindList(infos, Interface);
    var annotations := KindList(infos, Annotation);
    KindListsWithin(infos);
    Graph(Close(Close(Close(wired, standard), interfaces), annotations), standard, interfaces, annotations)
  }

  lemma KindListsWithin(infos: seq<ClassInfo>)
    ensures forall k, n :: n in KindList(infos, k) ==> n in ClassNames(infos)
  {
    forall k, n | n in KindList(infos, k) ensures n in ClassNames(infos) {
      KindListMember(infos, k, n);
    }
  }

  /** Lines 53-58: the names of the facts, one node each. */
  method CreateNodes(infos: seq<ClassInfo>) returns (names: set<string>)
    ensures names == ClassNames(infos)
  {
    names := {};
    var i := 0;
    while i < |infos|
      invariant 0 <= i <= |infos|
      invariant names == ClassNames(infos[..i])
    {
      assert infos[..i + 1] == infos[..i] + [infos[i]];
      names := names + {infos[i].className};
      i := i + 1;
    }
    assert infos[..i] == infos;
  }

  /** `new ClassGraphBuilder(classInfoFromScan)`, lines 47-113. */
  method BuildClassGraph(infos: seq<ClassInfo>) returns (g: Graph)
    ensures g == Built(infos)
  {
    var names := CreateNodes(infos);
    var d := NewDag(names);
    var standard, interfaces, annotations := [], [], [];
    ghost var sub: Pairs, cross: Pairs := {}, {};
    var i := 0;
    assert infos[..0] == [];
    while i < |infos|
      invariant 0 <= i <= |infos|
      invariant d.nodes == names
      invariant sub == SubEdgePairs(infos[..i], names) && cross == CrossLinkPairs(infos[..i], names)
      invariant PairsWithin(sub, names) && PairsWithin(cross, names)
      invariant d == Wired(names, sub, cross)
      invariant standard == KindList(infos[..i], StandardClass)
      invariant interfaces == KindList(infos[..i], Interface)
      invariant annotations == KindList(infos[..i], Annotation)
    {
      var info := infos[i];
      ghost var next := infos[..i + 1];
      assert next[..i] == infos[..i] && next[|next| - 1] == info;
      assert info.className in names;
      if info.isAnnotation {
        annotations := annotations + [info.className];
      } else if info.isInterface {
        interfaces := interfaces + [info.className];
      } else {
        standard := standard + [info.className];
      }
      assert standard == KindList(next, StandardClass);
      assert interfaces == KindList(next, Interface);
      assert annotations == KindList(next, Annotation);
      WiredPairsWithin(next, names);
      d := ConnectInterfaces(d, info);
      d := ConnectSuperclasses(d, info);
      d := ConnectAnnotations(d, info);
      UnionRegroup(sub, InterfaceSubEdges(info, names, DeclaredInterfaces(info)),
        SuperclassSubEdges(info, names, info.superclassNames), AnnotationSubEdges(info, names, DeclaredAnnotations(info)));
      UnionRegroup(cross, InterfaceCrossLinks(info, names, DeclaredInterfaces(info)),
        {}, AnnotationCrossLinks(info, names, DeclaredAnnotations(info)));
      sub := sub + FactSubEdges(info, names);
      cross := cross + FactCrossLinks(info, names);
      assert sub == SubEdgePairs(next, names);
      assert cross == CrossLinkPairs(next, names);
      i := i + 1;
    }
    assert infos[..i] == infos;
    KindListsWithin(infos);
    d := FindTransitiveClosure(d, standard);
    d := FindTransitiveClosure(d, interfaces);
    d := FindTransitiveClosure(d, annotations);
    g := Graph(d, standard, interfaces, annotations);
  }

  // ---------------------------------------------------------------------------------------------
  // What the built graph holds

  /**
   * Lines 68-106, direct edges: `c` is a direct sub-node of the known node `p` exactly
   * when a fact named `c` declares `p` as an extended interface (the fact being an
   * interface), as a superclass, or as an annotation (the fact being an annotation).
   * Unknown names and `null` lists add nothing.
   */
  lemma DirectSubNodeRule(infos: seq<ClassInfo>, p: string, c: string)
    requires p in ClassNames(infos)
    ensures c in DirectSubNodes(Built(infos).dag)[p] <==>
      exists info :: info in infos && info.className == c && DeclaresSuperNode(info, p)
  {
    var names := ClassNames(infos);
    SubEdgePairsMember(infos, names, p, c);
    WiredPairsWithin(infos, names);
    KindListsWithin(infos);
    var wired := Wired(names, SubEdgePairs(infos, names), CrossLinkPairs(infos, names));
    CloseEffect(wired, KindList(infos, StandardClass));
    CloseEffect(Close(wired, KindList(infos, StandardClass)), KindList(infos, Interface));
    CloseEffect(Close(Close(wired, KindList(infos, StandardClass)), KindList(infos, Interface)), KindList(infos, Annotation));
  }

  /**
   * Lines 68-106, cross-links: the known node `f` is cross-linked to `t` exactly when
   * `t` is known and either `f` is a standard class naming the interface `t`, or
   * `t` is a non-annotation carrying the annotation `f`.
   */
  lemma CrossLinkRule(infos: seq<ClassInfo>, f: string, t: string)
    requires f in ClassNames(infos)
    ensures t in CrossLinkedNodes(Built(infos).dag, f) <==>
      t in ClassNames(infos) && exists info :: info in infos && DeclaresCrossLink(info, f, t)
  {
    var names := ClassNames(infos);
    CrossLinkPairsMember(infos, names, f, t);
    WiredPairsWithin(infos, names);
    KindListsWithin(infos);
    var wired := Wired(names, SubEdgePairs(infos, names), CrossLinkPairs(infos, names));
    CloseEffect(wired, KindList(infos, StandardClass));
    CloseEffect(Close(wired, KindList(infos, StandardClass)), KindList(infos, Interface));
    CloseEffect(Close(Close(wired, KindList(infos, StandardClass)), KindList(infos, Interface)), KindList(infos, Annotation));
  }

  /** Every node's closures hold what `findTransitiveClosure` promises: the nodes reachable along direct edges. */
  ghost predicate Closed(d: Dag)
    requires Valid(d)
  {
    forall n :: n in d.nodes ==> ClosedAt(d, n)
  }

  /** Every fact's name is in the kind list of its kind, and the lists hold only names of facts. */
  lemma KindListsCoverNames(infos: seq<ClassInfo>, n: string)
    requires n in ClassNames(infos)
    ensures var s, i, a := KindList(infos, StandardClass), KindList(infos, Interface), KindList(infos, Annotation);
      && n in s + i + a
      && forall x :: x in s + i + a ==> x in ClassNames(infos)
  {
    var s, i, a := KindList(infos, StandardClass), KindList(infos, Interface), KindList(infos, Annotation);
    KindListsWithin(infos);
    forall x | x in s + i + a ensures x in ClassNames(infos) {
      assert x in s || x in i || x in a;
    }
    var info :| info in infos && info.className == n;
    var k := KindOf(info);
    KindListMember(infos, k, n);
    match k
    case StandardClass => assert n in s;
    case Interface => assert n in i;
    case Annotation => assert n in a;
  }

  /** Lines 110-112: a fact's node is in one kind list, so closing the three lists closes it. */
  lemma BuiltClosedAt(infos: seq<ClassInfo>, n: string)
    requires n in ClassNames(infos)
    ensures ClosedAt(Built(infos).dag, n)
  {
    var names := ClassNames(infos);
    WiredPairsWithin(infos, names);
    var wired := Wired(names, SubEdgePairs(infos, names), CrossLinkPairs(infos, names));
    KindListsCoverNames(infos, n);
    CloseThrice(wired, KindList(infos, StandardClass), KindList(infos, Interface), KindList(infos, Annotation), n);
  }

  /** Lines 110-112: every node of the built graph holds its closures over the whole graph. */
  lemma BuiltIsClosed(infos: seq<ClassInfo>)
    ensures Closed(Built(infos).dag)
  {
    forall n | n in Built(infos).dag.nodes ensures ClosedAt(Built(infos).dag, n) {
      BuiltClosedAt(infos, n);
    }
  }
}
