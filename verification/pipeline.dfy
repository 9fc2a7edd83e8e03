/** The Pipeline object: its registry (algorithms, tools, running readers)
    and its two resource maps, with makeAlg/makeTool and the getAlg/getTool
    lookups. Components are identified by their position in their vector,
    which stands for the owning pointer: nothing is ever removed. */
module Pipelines {
  import opened Errors
  import opened Components
  import opened Lookup

  /** An opened ROOT file, known only by a fresh identity and its path. */
  datatype FileRef = FileRef(id: nat, path: string)

  /** The state of a Pipeline.
      `outFiles` maps an output name to its file; None is the null entry
      that getOutFile leaves behind. `running` holds the positions in `algs`
      of the readers still producing. `inPaths` are the inputs given to
      process, `inHandles` the inputs opened so far, by path. `nextFile` is
      the source of fresh file identities. */
  datatype Pipeline = Pipeline(
    outFiles: map<string, Option<FileRef>>,
    algs: seq<Component>,
    running: set<nat>,
    tools: seq<Component>,
    inPaths: seq<string>,
    inHandles: map<string, FileRef>,
    nextFile: nat)

  /** A freshly constructed pipeline. */
  function Empty(): (p: Pipeline)
    ensures Valid(p)
    ensures p.algs == [] && p.tools == [] && p.running == {}
    ensures p.outFiles == map[] && p.inPaths == [] && p.inHandles == map[]
  {
    Pipeline(map[], [], {}, [], [], map[], 0)
  }

  /** A file identity in use by some output or input entry. */
  ghost predicate InUse(p: Pipeline, id: nat)
  {
    || (exists n :: n in p.outFiles && p.outFiles[n] != None && p.outFiles[n].value.id == id)
    || (exists q :: q in p.inHandles && p.inHandles[q].id == id)
  }

  /** The invariant the pipeline keeps: only registered readers are running,
      every file in use has an identity below `nextFile`, and an opened input
      file was opened at its own path. */
  ghost predicate Valid(p: Pipeline)
  {
    && (forall r :: r in p.running ==> r < |p.algs| && p.algs[r].isReader)
    && (forall n :: n in p.outFiles && p.outFiles[n] != None ==> p.outFiles[n].value.id < p.nextFile)
    && (forall q :: q in p.inHandles ==> p.inHandles[q].id < p.nextFile && p.inHandles[q].path == q)
  }

  /** Under the invariant, `nextFile` names no file in use. */
  lemma NextFileIsFresh(p: Pipeline)
    requires Valid(p)
    ensures !InUse(p, p.nextFile)
  {
  }

  /** makeAlg: the algorithm is appended at the end and its position is
      returned; it joins the running readers exactly when it is a reader.
      Tools and files are untouched. */
  function MakeAlg(p: Pipeline, c: Component): (r: (Pipeline, nat))
    ensures r.0.algs == p.algs + [c]
    ensures r.1 == |p.algs| && r.0.algs[r.1] == c
    ensures Valid(p) ==> (r.1 in r.0.running <==> c.isReader)
    ensures forall i :: i != r.1 ==> (i in r.0.running <==> i in p.running)
    ensures r.0.tools == p.tools && r.0.outFiles == p.outFiles
    ensures r.0.inPaths == p.inPaths && r.0.inHandles == p.inHandles && r.0.nextFile == p.nextFile
    ensures Valid(p) ==> Valid(r.0)
  {
    var i := |p.algs|;
    var p' := p.(algs := p.algs + [c]);
    if c.isReader then (p'.(running := p.running + {i}), i) else (p', i)
  }

  /** makeTool: the tool is appended at the end of the tools only; the
      algorithms and the running readers are unchanged. */
  function MakeTool(p: Pipeline, c: Component): (r: (Pipeline, nat))
    ensures r.0.tools == p.tools + [c]
    ensures r.1 == |p.tools| && r.0.tools[r.1] == c
    ensures r.0.algs == p.algs && r.0.running == p.running
    ensures r.0.outFiles == p.outFiles && r.0.inPaths == p.inPaths
    ensures r.0.inHandles == p.inHandles && r.0.nextFile == p.nextFile
    ensures Valid(p) ==> Valid(r.0)
  {
    (p.(tools := p.tools + [c]), |p.tools|)
  }

  /** getAlg with an optional predicate: the first algorithm of type `t`
      the predicate accepts, else "not found". */
  function GetAlg(p: Pipeline, t: TypeId, pred: Option<Pred>): (r: Result<nat>)
    ensures r.Ok? ==> IsFirstMatch(p.algs, t, pred, r.value)
    ensures forall i: nat :: IsFirstMatch(p.algs, t, pred, i) ==> r == Ok(i)
    ensures Rejected(p.algs, t, pred, 0, |p.algs|) ==> r == Err(NotFound(t))
    ensures r.Err? && !Rejected(p.algs, t, pred, 0, |p.algs|) ==>
              exists k: nat :: k < |p.algs| && Rejected(p.algs, t, pred, 0, k)
                          && IsA(p.algs[k], t) && Accepts(pred, p.algs[k]) == Err(r.error)
  {
    GetThing(p.algs, t, pred)
  }

  /** getAlg with a tag: the first algorithm of type `t`, scanning only past
      ones carrying other tags, whose tag is `tag`. */
  function GetAlgByTag(p: Pipeline, t: TypeId, tag: int): (r: Result<nat>)
    ensures r == GetThing(p.algs, t, Some(TagPred(tag)))
    ensures r.Ok? ==> r.value < |p.algs| && IsA(p.algs[r.value], t) && p.algs[r.value].tag == Some(tag)
                      && OtherTags(p.algs, t, tag, 0, r.value)
    ensures forall i :: 0 <= i < |p.algs| && IsA(p.algs[i], t) && p.algs[i].tag == Some(tag) && OtherTags(p.algs, t, tag, 0, i)
                        ==> r == Ok(i)
    ensures OtherTags(p.algs, t, tag, 0, |p.algs|) ==> r == Err(NotFound(t))
    ensures r.Err? ==> r.error == NotFound(t) || r.error == NotImplemented
  {
    GetThingByTag(p.algs, t, tag)
  }

  /** getTool with an optional predicate. */
  function GetTool(p: Pipeline, t: TypeId, pred: Option<Pred>): (r: Result<nat>)
    ensures r.Ok? ==> IsFirstMatch(p.tools, t, pred, r.value)
    ensures forall i: nat :: IsFirstMatch(p.tools, t, pred, i) ==> r == Ok(i)
    ensures Rejected(p.tools, t, pred, 0, |p.tools|) ==> r == Err(NotFound(t))
    ensures r.Err? && !Rejected(p.tools, t, pred, 0, |p.tools|) ==>
              exists k: nat :: k < |p.tools| && Rejected(p.tools, t, pred, 0, k)
                          && IsA(p.tools[k], t) && Accepts(pred, p.tools[k]) == Err(r.error)
  {
    GetThing(p.tools, t, pred)
  }

  /** getTool with a tag. */
  function GetToolByTag(p: Pipeline, t: TypeId, tag: int): (r: Result<nat>)
    ensures r == GetThing(p.tools, t, Some(TagPred(tag)))
    ensures r.Ok? ==> r.value < |p.tools| && IsA(p.tools[r.value], t) && p.tools[r.value].tag == Some(tag)
                      && OtherTags(p.tools, t, tag, 0, r.value)
    ensures forall i :: 0 <= i < |p.tools| && IsA(p.tools[i], t) && p.tools[i].tag == Some(tag) && OtherTags(p.tools, t, tag, 0, i)
                        ==> r == Ok(i)
    ensures OtherTags(p.tools, t, tag, 0, |p.tools|) ==> r == Err(NotFound(t))
    ensures r.Err? ==> r.error == NotFound(t) || r.error == NotImplemented
  {
    GetThingByTag(p.tools, t, tag)
  }

  /** Registering never disturbs an earlier lookup's answer when the new
      algorithm comes after the match: lookups return the earliest one. */
  lemma {:induction false} MakeAlgKeepsEarlierMatch(p: Pipeline, c: Component, t: TypeId, pred: Option<Pred>)
    requires GetAlg(p, t, pred).Ok?
    ensures GetAlg(MakeAlg(p, c).0, t, pred) == GetAlg(p, t, pred)
  {
    FindFromAppend(p.algs, c, t, pred, 0);
  }

  /** Appending after a successful scan leaves its result unchanged. */
  lemma {:induction false} FindFromAppend(vec: seq<Component>, c: Component, t: TypeId, pred: Option<Pred>, from: nat)
    requires from <= |vec|
    requires FindFrom(vec, t, pred, from).Ok?
    ensures FindFrom(vec + [c], t, pred, from) == FindFrom(vec, t, pred, from)
    decreases |vec| - from
  {
    assert (vec + [c])[from] == vec[from];
    if !IsA(vec[from], t) || Accepts(pred, vec[from]) == Ok(false) {
      FindFromAppend(vec, c, t, pred, from + 1);
    }
  }
}
