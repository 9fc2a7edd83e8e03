/** The node hierarchy: algorithms and tools as plain values, the
    three-valued status of an algorithm's execute(), and the two free
    helpers of the kernel (the default getTag and vetoIf). */
module Components {
  import opened Errors

  /** Stands for a C++ class; compared by identity only. */
  type TypeId = nat

  /** A registered algorithm or tool.
      `typeId` is its dynamic type, `bases` the types it derives from,
      `isReader` what its isReader() answers, and `tag` what its getTag()
      returns (None when getTag is not overridden and throws). */
  datatype Component = Component(typeId: TypeId, bases: set<TypeId>, isReader: bool, tag: Option<int>)

  /** dynamic_cast<T*> of the component succeeds. */
  predicate IsA(c: Component, t: TypeId)
  {
    t == c.typeId || t in c.bases
  }

  /** What an algorithm's execute() returns for one cycle. */
  datatype Status = Continue | SkipToNext | EndOfFile

  /** Algorithm::getTag: the overriding value, or the "not implemented"
      error of the default implementation. */
  function GetTag(c: Component): (r: Result<int>)
    ensures r == Err(NotImplemented) <==> c.tag == None
    ensures r.Ok? <==> c.tag.Some?
    ensures c.tag.Some? ==> r.value == c.tag.value
  {
    match c.tag
    case None => Err(NotImplemented)
    case Some(t) => Ok(t)
  }

  /** vetoIf: skip the rest of the cycle exactly when the condition holds;
      it never reports end of input. */
  function VetoIf(cond: bool): (r: Status)
    ensures r == SkipToNext <==> cond
    ensures r == Continue <==> !cond
    ensures r != EndOfFile
  {
    if cond then SkipToNext else Continue
  }
}
