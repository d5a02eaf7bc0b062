/**
 * The per-class facts the scanner hands to the class-graph builder, one
 * `ClassInfo` per scanned class, interface or annotation.
 */
module ClassInfos {
  import opened Wrappers

  /**
   * `interfaceNames` and `annotationNames` may be `null` in the source and
   * are therefore optional; `superclassNames` is iterated without a null
   * check, so it is always present.
   */
  datatype ClassInfo = ClassInfo(
    className: string,
    isInterface: bool,
    isAnnotation: bool,
    superclassNames: seq<string>,
    interfaceNames: Option<seq<string>>,
    annotationNames: Option<seq<string>>)

  /** The three node lists a class can be filed under. */
  datatype Kind = StandardClass | Interface | Annotation

  /** Which node list a fact's node is appended to: the annotation flag wins over the interface flag. */
  function KindOf(info: ClassInfo): (k: Kind)
    ensures k == Annotation <==> info.isAnnotation
    ensures k == Interface <==> info.isInterface && !info.isAnnotation
    ensures k == StandardClass <==> !info.isInterface && !info.isAnnotation
  {
    if info.isAnnotation then Annotation
    else if info.isInterface then Interface
    else StandardClass
  }

  /** The declared interface names, a `null` list read as no names. */
  function DeclaredInterfaces(info: ClassInfo): seq<string> {
    match info.interfaceNames
    case None => []
    case Some(names) => names
  }

  /** The declared annotation names, a `null` list read as no names. */
  function DeclaredAnnotations(info: ClassInfo): seq<string> {
    match info.annotationNames
    case None => []
    case Some(names) => names
  }

}
