/** The two keyed resource maps of the Pipeline: named output files
    (makeOutFile/getOutFile) and the lazily filled cache of input files
    (inFileCount/inFile). Creating or opening a ROOT file is modelled as
    handing out a fresh file identity. Each operation returns the new
    pipeline state with its result; when it raises, the state is the old one. */
module Files {
  import opened Errors
  import opened Pipelines

  /** The name of the default output file. */
  const DefaultFile: string := ""

  /** makeOutFile(path, name, reopen). A bound name without `reopen` raises
      "already opened" and changes nothing; otherwise `name` is (re)bound to
      a freshly created file at `path`, which is returned. No other name's
      binding changes in either case. */
  function MakeOutFile(p: Pipeline, path: string, name: string, reopen: bool): (r: (Pipeline, Result<FileRef>))
    ensures name in p.outFiles && !reopen ==> r.0 == p && r.1 == Err(AlreadyOpened(name))
    ensures !(name in p.outFiles && !reopen) ==>
              && r.1.Ok? && r.1.value.path == path
              && name in r.0.outFiles && r.0.outFiles[name] == Some(r.1.value)
              && (Valid(p) ==> !InUse(p, r.1.value.id))
    ensures forall n :: n != name ==> (n in r.0.outFiles <==> n in p.outFiles)
    ensures forall n :: n != name && n in p.outFiles ==> r.0.outFiles[n] == p.outFiles[n]
    ensures r.0.algs == p.algs && r.0.running == p.running && r.0.tools == p.tools
    ensures r.0.inPaths == p.inPaths && r.0.inHandles == p.inHandles
    ensures Valid(p) ==> Valid(r.0)
  {
    if name in p.outFiles && !reopen then
      (p, Err(AlreadyOpened(name)))
    else
      var f := FileRef(p.nextFile, path);
      (p.(outFiles := p.outFiles[name := Some(f)], nextFile := p.nextFile + 1), Ok(f))
  }

  /** getOutFile(name). A bound name yields its file (possibly null) and
      changes nothing; an unbound name gets a null entry, and null is
      returned. */
  function GetOutFile(p: Pipeline, name: string): (r: (Pipeline, Option<FileRef>))
    ensures name in p.outFiles ==> r.0 == p && r.1 == p.outFiles[name]
    ensures name !in p.outFiles ==> r.1 == None
    ensures name in r.0.outFiles && r.0.outFiles[name] == r.1
    ensures forall n :: n != name ==> (n in r.0.outFiles <==> n in p.outFiles)
    ensures forall n :: n != name && n in p.outFiles ==> r.0.outFiles[n] == p.outFiles[n]
    ensures r.0.algs == p.algs && r.0.running == p.running && r.0.tools == p.tools
    ensures r.0.inPaths == p.inPaths && r.0.inHandles == p.inHandles && r.0.nextFile == p.nextFile
    ensures Valid(p) ==> Valid(r.0)
  {
    if name in p.outFiles then (p, p.outFiles[name])
    else (p.(outFiles := p.outFiles[name := None]), None)
  }

  /** A file made under a name is what getOutFile then returns, and the
      lookup changes nothing. */
  lemma MakeThenGet(p: Pipeline, path: string, name: string, reopen: bool)
    requires !(name in p.outFiles && !reopen)
    ensures var (p1, f) := MakeOutFile(p, path, name, reopen);
            GetOutFile(p1, name) == (p1, Some(f.value))
  {
  }

  /** Making a name twice without reopen raises on the second call; with
      reopen the second call succeeds with a file distinct from the first. */
  lemma MakeTwice(p: Pipeline, path1: string, path2: string, name: string)
    requires Valid(p) && name !in p.outFiles
    ensures var (p1, f1) := MakeOutFile(p, path1, name, false);
            && MakeOutFile(p1, path2, name, false) == (p1, Err(AlreadyOpened(name)))
            && MakeOutFile(p1, path2, name, true).1.Ok?
            && MakeOutFile(p1, path2, name, true).1.value != f1.value
  {
  }

  /** Asking for an unbound name leaves a null entry, after which making
      a file under that name without reopen raises "already opened". */
  lemma GetUnboundBlocksMake(p: Pipeline, path: string, name: string)
    requires name !in p.outFiles
    ensures var p1 := GetOutFile(p, name).0;
            MakeOutFile(p1, path, name, false) == (p1, Err(AlreadyOpened(name)))
  {
  }

  /** inFileCount: the number of input paths given to process. */
  function InFileCount(p: Pipeline): (n: nat)
    ensures n == |p.inPaths|
  {
    |p.inPaths|
  }

  /** inFile(i). An index past the inputs raises "out of range". The first
      access to a path opens it and caches it; later accesses to the same
      path return the cached file and change nothing. */
  function InFile(p: Pipeline, i: nat): (r: (Pipeline, Result<FileRef>))
    ensures i >= InFileCount(p) <==> r.1 == Err(OutOfRange(i))
    ensures i >= InFileCount(p) ==> r.0 == p
    ensures i < InFileCount(p) ==>
              && r.1.Ok? && (Valid(p) ==> r.1.value.path == p.inPaths[i])
              && p.inPaths[i] in r.0.inHandles && r.0.inHandles[p.inPaths[i]] == r.1.value
    ensures i < InFileCount(p) && p.inPaths[i] in p.inHandles ==> r.0 == p
    ensures i < InFileCount(p) && p.inPaths[i] !in p.inHandles ==>
              && r.0.inHandles == p.inHandles[p.inPaths[i] := r.1.value]
              && (Valid(p) ==> !InUse(p, r.1.value.id))
    ensures r.0.algs == p.algs && r.0.running == p.running && r.0.tools == p.tools
    ensures r.0.outFiles == p.outFiles && r.0.inPaths == p.inPaths
    ensures Valid(p) ==> Valid(r.0)
  {
    if i >= |p.inPaths| then (p, Err(OutOfRange(i)))
    else
      var path := p.inPaths[i];
      if path in p.inHandles then (p, Ok(p.inHandles[path]))
      else
        var f := FileRef(p.nextFile, path);
        (p.(inHandles := p.inHandles[path := f], nextFile := p.nextFile + 1), Ok(f))
  }

  /** Once an input has been opened, every index holding the same path
      yields the same file, without opening anything again. */
  lemma InFileCached(p: Pipeline, i: nat, j: nat)
    requires i < InFileCount(p) && j < InFileCount(p) && p.inPaths[i] == p.inPaths[j]
    ensures var (p1, f) := InFile(p, i);
            InFile(p1, j) == (p1, f)
  {
  }
}
