/**
 * The builder object: the constructor's graph, the name-to-node maps, and the
 * lazy indices behind the public `getNamesOf*` methods. Each index is
 * computed the first time a key is asked for and kept; the implementer index
 * and the two inverted annotation indices are filled in one pass on first
 * use. The methods here are the loops of the `initialize` and
 * `generateValue` bodies, each proved to compute the index function of the
 * query layer.
 */
module ClassGraph {
  import opened Wrappers
  import opened StringOrder
  import opened ClassInfos
  import opened DagNodes
  import opened MultiMaps
  import opened ClassGraphConstruction
  import opened ClassGraphQueries

  // ---------------------------------------------------------------------------------------------
  // Generators

  /** Lines 122-146: `initialize` of a name-to-node map, one entry per node of the list. */
  method IndexByName(g: Graph, k: Kind) returns (keys: set<string>)
    requires WellFormed(g)
    ensures keys == NamesOfKind(g, k)
  {
    var nodes := KindNodes(g, k);
    keys := {};
    var i := 0;
    while i < |nodes|
      invariant 0 <= i <= |nodes|
      invariant forall x :: x in keys <==> x in nodes[..i]
    {
      keys := keys + {nodes[i]};
      assert nodes[..i + 1] == nodes[..i] + [nodes[i]];
      i := i + 1;
    }
    assert nodes[..i] == nodes;
  }

  /**
   * Lines 233-243 and their three siblings: `null` for a name that is no node
   * of the kind, otherwise the names of the node's closure copied into a list
   * and sorted with `Collections.sort`.
   */
  method CollectRelatives(g: Graph, keys: set<string>, k: Kind, dir: Direction, name: string)
    returns (r: Option<seq<string>>)
    requires WellFormed(g) && keys == NamesOfKind(g, k)
    ensures r == SortedRelatives(g, k, dir, name)
  {
    if name !in keys {
      return None;
    }
    var closure := Relatives(g, dir, name);
    var list := [];
    var rest := closure;
    while rest != {}
      invariant rest <= closure
      invariant NoDuplicates(list)
      invariant forall x :: x in list <==> x in closure - rest
      decreases rest
    {
      var x :| x in rest;
      list := list + [x];
      rest := rest - {x};
    }
    SortOfDistinct(list);
    assert (set x | x in list) == closure;
    r := Some(Sort(list));
  }

  /** Lines 363-371: `classes` go under interface `j` and under every super-node of `j`. */
  method PutForInterface(g: Graph, m: SetMap, j: string, classes: set<string>) returns (r: SetMap)
    requires WellFormed(g) && j in g.dag.nodes
    ensures NoEmptySets(m) ==> NoEmptySets(r)
    ensures forall k :: Values(r, k) == Values(m, k) + (if k == j || k in g.dag.allSuperNodes[j] then classes else {})
  {
    r := PutAll(m, j, classes);
    r := PutUnderEach(r, g.dag.allSuperNodes[j], classes);
  }

  /** Lines 352-372 for one class `c`: it and its subclasses implement every interface it is cross-linked to, and their super-nodes. */
  method PutImplementers(g: Graph, m: SetMap, c: string) returns (r: SetMap)
    requires WellFormed(g) && c in g.dag.nodes
    ensures NoEmptySets(m) ==> NoEmptySets(r)
    ensures forall k ::
      Values(r, k) == Values(m, k) + (if k in Lifted(g, CrossLinkedNodes(g.dag, c)) then WithSubclasses(g, c) else {})
  {
    var links := CrossLinkedNodes(g.dag, c);
    var classes := WithSubclasses(g, c);
    r := m;
    var rest := links;
    while rest != {}
      invariant rest <= links
      invariant NoEmptySets(m) ==> NoEmptySets(r)
      invariant forall k :: Values(r, k) == Values(m, k) + (if k in Lifted(g, links - rest) then classes else {})
      decreases rest
    {
      var j :| j in rest;
      ghost var before := r;
      r := PutForInterface(g, r, j, classes);
      forall k ensures k in Lifted(g, links - (rest - {j})) <==> k in Lifted(g, links - rest) || k == j || k in g.dag.allSuperNodes[j] {
        assert links - (rest - {j}) == (links - rest) + {j};
      }
      rest := rest - {j};
    }
    assert links - rest == links;
  }

  /** One more class adds its own implementers and nothing else. */
  lemma ImplementersStep(g: Graph, done: set<string>, c: string, k: string)
    requires WellFormed(g) && done <= g.dag.nodes && c in g.dag.nodes
    ensures Implementers(g, done + {c}, k) ==
      Implementers(g, done, k) + (if k in Lifted(g, CrossLinkedNodes(g.dag, c)) then WithSubclasses(g, c) else {})
  {
  }

  /** Lines 348-375: the bulk `initialize` of `interfaceNameToClassNamesSet`, over every standard class. */
  method InitializeImplementers(g: Graph, standard: set<string>) returns (m: SetMap)
    requires WellFormed(g) && standard == NamesOfKind(g, StandardClass)
    ensures m == ImplementersTable(g)
  {
    m := map[];
    var rest := standard;
    while rest != {}
      invariant rest <= standard
      invariant NoEmptySets(m)
      invariant forall k :: Values(m, k) == Implementers(g, standard - rest, k)
      decreases rest
    {
      var c :| c in rest;
      m := PutImplementers(g, m, c);
      forall k ensures Values(m, k) == Implementers(g, standard - (rest - {c}), k) {
        assert standard - (rest - {c}) == (standard - rest) + {c};
        ImplementersStep(g, standard - rest, c, k);
      }
      rest := rest - {c};
    }
    assert standard - rest == standard;
    SameValuesSameMap(m, ImplementersTable(g));
  }

  /** Lines 405-412: the names a node is cross-linked to join `acc`. */
  method AddCrossLinked(g: Graph, acc: set<string>, n: string) returns (r: set<string>)
    requires WellFormed(g)
    ensures r == acc + CrossLinkedNodes(g.dag, n)
  {
    var links := CrossLinkedNodes(g.dag, n);
    r := acc;
    var rest := links;
    while rest != {}
      invariant rest <= links
      invariant r == acc + (links - rest)
      decreases rest
    {
      var t :| t in rest;
      r := r + {t};
      rest := rest - {t};
    }
  }

  /**
   * Lines 399-414: `null` for a name that is no annotation, otherwise the
   * cross-links of every sub-node of the annotation, then its own.
   */
  method CollectAnnotatedClasses(g: Graph, keys: set<string>, a: string) returns (r: Option<set<string>>)
    requires WellFormed(g) && keys == NamesOfKind(g, Annotation)
    ensures r == AnnotatedClasses(g, a)
  {
    if a !in keys {
      return None;
    }
    var subs := g.dag.allSubNodes[a];
    var classNames := {};
    var rest := subs;
    while rest != {}
      invariant rest <= subs
      invariant classNames == set n, t | n in subs - rest && t in CrossLinkedNodes(g.dag, n) :: t
      decreases rest
    {
      var n :| n in rest;
      classNames := AddCrossLinked(g, classNames, n);
      assert subs - (rest - {n}) == (subs - rest) + {n};
      rest := rest - {n};
    }
    assert subs - rest == subs;
    ghost var fromSubs := classNames;
    classNames := AddCrossLinked(g, classNames, a);
    assert classNames == AnnotatedClasses(g, a).value by {
      forall t ensures t in classNames <==> t in AnnotatedClasses(g, a).value {
        if t in CrossLinkedNodes(g.dag, a) {
          assert a in {a} + subs;
        }
        if t in fromSubs {
          var n :| n in subs && t in CrossLinkedNodes(g.dag, n);
          assert n in {a} + subs;
        }
      }
    }
    r := Some(classNames);
  }

  /** Lines 453-463: `null` for a name that is no annotation, otherwise the names of all its sub-nodes. */
  method CollectAnnotatedAnnotations(g: Graph, keys: set<string>, a: string) returns (r: Option<set<string>>)
    requires WellFormed(g) && keys == NamesOfKind(g, Annotation)
    ensures r == AnnotatedAnnotations(g, a)
  {
    if a !in keys {
      return None;
    }
    var subs := g.dag.allSubNodes[a];
    var subNodes := {};
    var rest := subs;
    while rest != {}
      invariant rest <= subs
      invariant subNodes == subs - rest
      decreases rest
    {
      var n :| n in rest;
      subNodes := subNodes + {n};
      rest := rest - {n};
    }
    assert subNodes == subs;
    r := Some(subNodes);
  }

  /** The forward map `invertMultiSet` reads at line 437: every annotation name to its annotated classes. */
  method AnnotatedClassesTableOf(g: Graph, keys: set<string>) returns (m: SetMap)
    requires WellFormed(g) && keys == NamesOfKind(g, Annotation)
    ensures m == AnnotatedClassesTable(g)
  {
    m := map[];
    var rest := keys;
    while rest != {}
      invariant rest <= keys
      invariant m.Keys == keys - rest
      invariant forall a :: a in m ==> m[a] == AnnotatedClasses(g, a).value
      decreases rest
    {
      var a :| a in rest;
      var classes := CollectAnnotatedClasses(g, keys, a);
      m := m[a := classes.value];
      rest := rest - {a};
    }
  }

  /** The forward map `invertMultiSet` reads at line 472: every annotation name to the annotations below it. */
  method MetaAnnotationTableOf(g: Graph, keys: set<string>) returns (m: SetMap)
    requires WellFormed(g) && keys == NamesOfKind(g, Annotation)
    ensures m == MetaAnnotationTable(g)
  {
    m := map[];
    var rest := keys;
    while rest != {}
      invariant rest <= keys
      invariant m.Keys == keys - rest
      invariant forall a :: a in m ==> m[a] == AnnotatedAnnotations(g, a).value
      decreases rest
    {
      var a :| a in rest;
      var annotations := CollectAnnotatedAnnotations(g, keys, a);
      m := m[a := annotations.value];
      rest := rest - {a};
    }
  }

  // ---------------------------------------------------------------------------------------------
  // The builder

  /** `ClassGraphBuilder`: the graph built once, and its indices computed on demand and kept. */
  class ClassGraphBuilder {
    /** The nodes, their edges and closures, and the three kind lists (lines 43-45). */
    const graph: Graph
    /** The key sets of the three name-to-node maps (lines 119-149). */
    const standardClassNames: set<string>
    const interfaceNames: set<string>
    const annotationNames: set<string>
    /** Every value a per-key or fixed-key index has produced, `None` standing for a cached `null`. */
    var cache: map<(Query, string), Option<seq<string>>>
    /** `interfaceNameToClassNamesSet`, once initialised. */
    var implementers: Option<SetMap>
    /** The inverted map behind `classNameToAnnotationNames`, once built. */
    var annotationsOnClass: Option<SetMap>
    /** The inverted map behind `annotationNameToMetaAnnotationNames`, once built. */
    var metaAnnotationsOn: Option<SetMap>

    /** Every cached entry and every initialised table is what the index functions give for the graph. */
    ghost predicate Valid()
      reads this
    {
      && WellFormed(graph)
      && standardClassNames == NamesOfKind(graph, StandardClass)
      && interfaceNames == NamesOfKind(graph, Interface)
      && annotationNames == NamesOfKind(graph, Annotation)
      && (forall e :: e in cache ==> cache[e] == Answer(graph, e.0, e.1))
      && (implementers.Some? ==> implementers.value == ImplementersTable(graph))
      && (annotationsOnClass.Some? ==> annotationsOnClass.value == Invert(AnnotatedClassesTable(graph), annotationNames))
      && (metaAnnotationsOn.Some? ==> metaAnnotationsOn.value == Invert(MetaAnnotationTable(graph), annotationNames))
    }

    /** A table that was built before the call is the same table after it. */
    twostate predicate TablesKept()
      reads this
    {
      && (old(implementers).Some? ==> implementers == old(implementers))
      && (old(annotationsOnClass).Some? ==> annotationsOnClass == old(annotationsOnClass))
      && (old(metaAnnotationsOn).Some? ==> metaAnnotationsOn == old(metaAnnotationsOn))
    }

    /** Lines 47-113: build and close the graph; no index is computed yet. */
    constructor (infos: seq<ClassInfo>)
      ensures Valid()
      ensures graph == Built(infos)
      ensures cache == map[] && implementers.None? && annotationsOnClass.None? && metaAnnotationsOn.None?
    {
      var g := BuildClassGraph(infos);
      graph := g;
      var standard := IndexByName(g, StandardClass);
      var interfaces := IndexByName(g, Interface);
      var annotations := IndexByName(g, Annotation);
      standardClassNames, interfaceNames, annotationNames := standard, interfaces, annotations;
      cache := map[];
      implementers, annotationsOnClass, metaAnnotationsOn := None, None, None;
    }

    /** The key set of the name-to-node map of kind `k`. */
    function NamesFor(k: Kind): (r: set<string>)
      requires Valid()
      reads this
      ensures r == NamesOfKind(graph, k)
    {
      match k
      case StandardClass => standardClassNames
      case Interface => interfaceNames
      case Annotation => annotationNames
    }

    /** Lines 348-375: `interfaceNameToClassNamesSet` is initialised on first use only. */
    method Implementers() returns (table: SetMap)
      requires Valid()
      modifies this
      ensures Valid() && table == ImplementersTable(graph)
      ensures implementers == Some(table)
      ensures cache == old(cache) && annotationsOnClass == old(annotationsOnClass) && metaAnnotationsOn == old(metaAnnotationsOn)
      ensures old(implementers).Some? ==> implementers == old(implementers)
    {
      if implementers.Some? {
        return implementers.value;
      }
      table := InitializeImplementers(graph, standardClassNames);
      implementers := Some(table);
    }

    /** Lines 435-437: the annotated-class sets of every annotation, inverted once. */
    method AnnotationsOnClassTable() returns (table: SetMap)
      requires Valid()
      modifies this
      ensures Valid() && table == Invert(AnnotatedClassesTable(graph), annotationNames)
      ensures annotationsOnClass == Some(table)
      ensures cache == old(cache) && implementers == old(implementers) && metaAnnotationsOn == old(metaAnnotationsOn)
      ensures old(annotationsOnClass).Some? ==> annotationsOnClass == old(annotationsOnClass)
    {
      if annotationsOnClass.Some? {
        return annotationsOnClass.value;
      }
      var forward := AnnotatedClassesTableOf(graph, annotationNames);
      table := InvertMultiSet(forward, annotationNames);
      annotationsOnClass := Some(table);
    }

    /** Lines 470-472: the annotated-annotation sets of every annotation, inverted once. */
    method MetaAnnotationsOnTable() returns (table: SetMap)
      requires Valid()
      modifies this
      ensures Valid() && table == Invert(MetaAnnotationTable(graph), annotationNames)
      ensures metaAnnotationsOn == Some(table)
      ensures cache == old(cache) && implementers == old(implementers) && annotationsOnClass == old(annotationsOnClass)
      ensures old(metaAnnotationsOn).Some? ==> metaAnnotationsOn == old(metaAnnotationsOn)
    {
      if metaAnnotationsOn.Some? {
        return metaAnnotationsOn.value;
      }
      var forward := MetaAnnotationTableOf(graph, annotationNames);
      table := InvertMultiSet(forward, annotationNames);
      metaAnnotationsOn := Some(table);
    }

    /** The `generateValue` (or bulk table lookup) of the index behind `q`. */
    method GenerateValue(q: Query, key: string) returns (v: Option<seq<string>>)
      requires Valid()
      modifies this
      ensures Valid() && v == Answer(graph, q, key)
      ensures cache == old(cache) && TablesKept()
    {
      match q
      case AllClasses =>
        v := Some(SortedCopy(standardClassNames + interfaceNames + annotationNames));
      case AllOfKind(k) =>
        v := Some(SortedCopy(NamesFor(k)));
      case SubclassesOf =>
        v := CollectRelatives(graph, standardClassNames, StandardClass, Down, key);
      case SuperclassesOf =>
        v := CollectRelatives(graph, standardClassNames, StandardClass, Up, key);
      case SubinterfacesOf =>
        v := CollectRelatives(graph, interfaceNames, Interface, Down, key);
      case SuperinterfacesOf =>
        v := CollectRelatives(graph, interfaceNames, Interface, Up, key);
      case ClassesImplementingQuery =>
        var table := Implementers();
        v := SortedValues(Lookup(table, key));
      case ClassesWithAnnotationQuery =>
        var classes := CollectAnnotatedClasses(graph, annotationNames, key);
        v := SortedValues(classes);
      case AnnotationsOnClassQuery =>
        var table := AnnotationsOnClassTable();
        v := SortedValues(Lookup(table, key));
      case MetaAnnotationsOnAnnotationQuery =>
        var table := MetaAnnotationsOnTable();
        v := SortedValues(Lookup(table, key));
      case AnnotationsWithMetaAnnotationQuery =>
        var annotations := CollectAnnotatedAnnotations(graph, annotationNames, key);
        v := SortedValues(annotations);
    }

    /**
     * `LazyMap.get`: a cached value (including a cached `null`) is returned
     * without recomputation; otherwise it is generated and cached. Either way it
     * is what the index function gives, so repeated calls agree.
     */
    method Get(q: Query, key: string) returns (v: Option<seq<string>>)
      requires Valid()
      modifies this
      ensures Valid() && v == Answer(graph, q, key)
      ensures cache == old(cache)[(q, key) := v]
      ensures (q, key) in old(cache) ==> v == old(cache)[(q, key)] && cache == old(cache)
      ensures TablesKept()
    {
      if (q, key) in cache {
        v := cache[(q, key)];
        return;
      }
      v := GenerateValue(q, key);
      cache := cache[(q, key) := v];
    }

    /** Lines 205-207: the index is read under `""` and returned as is. */
    method GetNamesOfAllClasses() returns (r: seq<string>)
      requires Valid()
      modifies this
      ensures Valid() && r == AllNames(graph)
      ensures cache == old(cache)[(AllClasses, "") := Some(r)] && TablesKept()
    {
      var v := Get(AllClasses, "");
      r := v.value;
    }

    /** Lines 213-227: the list of one kind, read under `""`. */
    method GetNamesOfAllOfKind(k: Kind) returns (r: seq<string>)
      requires Valid()
      modifies this
      ensures Valid() && r == AllNamesOfKind(graph, k)
      ensures cache == old(cache)[(AllOfKind(k), "") := Some(r)] && TablesKept()
    {
      var v := Get(AllOfKind(k), "");
      r := v.value;
    }

    /** Every per-name getter (lines 248-497): the index's list, or the empty list for `null`. */
    method GetNamesOf(q: Query, name: string) returns (r: seq<string>)
      requires Valid() && PerName(q)
      modifies this
      ensures Valid() && r == NamesOf(graph, q, name)
      ensures cache == old(cache)[(q, name) := Answer(graph, q, name)] && TablesKept()
    {
      var v := Get(q, name);
      if v.None? {
        r := [];
      } else {
        r := v.value;
      }
    }
  }
}
