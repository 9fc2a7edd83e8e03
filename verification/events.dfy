/** The observable calls Pipeline::process makes on its components, and
    the order they must come in: phase first, then position (or cycle,
    then position, for execute()). */
module Events {
  import opened Pipelines

  /** Whether a connect event concerns an algorithm or a tool. */
  datatype Kind = AlgKind | ToolKind

  /** One call made by process. Bind is do_connect storing the pipeline
      back-reference; Connect is the connect hook it then calls. */
  datatype Event =
    | Load(alg: nat)
    | Bind(kind: Kind, index: nat)
    | Connect(kind: Kind, index: nat)
    | Execute(cycle: nat, alg: nat)
    | CdDefault(file: FileRef)
    | Finalize(alg: nat)

  function Phase(e: Event): nat
  {
    match e
    case Load(_) => 0
    case Bind(k, _) => if k == AlgKind then 1 else 2
    case Connect(k, _) => if k == AlgKind then 1 else 2
    case Execute(_, _) => 3
    case CdDefault(_) => 4
    case Finalize(_) => 5
  }

  function Major(e: Event): nat
  {
    match e
    case Load(i) => i
    case Bind(_, i) => i
    case Connect(_, i) => i
    case Execute(c, _) => c
    case CdDefault(_) => 0
    case Finalize(i) => i
  }

  function Minor(e: Event): nat
  {
    match e
    case Connect(_, _) => 1
    case Execute(_, i) => i
    case _ => 0
  }

  /** `a` must happen before `b`: lexicographic on phase, major, minor. */
  predicate Before(a: Event, b: Event)
  {
    || Phase(a) < Phase(b)
    || (Phase(a) == Phase(b) && Major(a) < Major(b))
    || (Phase(a) == Phase(b) && Major(a) == Major(b) && Minor(a) < Minor(b))
  }

  /** Every event of the trace happens before every later one; in particular
      no event occurs twice. */
  ghost predicate Ordered(s: seq<Event>)
  {
    forall i, j :: 0 <= i < j < |s| ==> Before(s[i], s[j])
  }

  lemma OrderedConcat(a: seq<Event>, b: seq<Event>)
    requires Ordered(a) && Ordered(b)
    requires forall x, y :: x in a && y in b ==> Before(x, y)
    ensures Ordered(a + b)
  {
  }

  /** load(inFiles) on every algorithm, in insertion order. */
  function LoadPhase(n: nat): (s: seq<Event>)
    ensures Ordered(s)
    ensures forall e :: e in s <==> e.Load? && e.alg < n
    decreases n
  {
    if n == 0 then []
    else
      var s' := LoadPhase(n - 1);
      OrderedConcat(s', [Load(n - 1)]);
      s' + [Load(n - 1)]
  }

  /** do_connect on every algorithm or every tool, in insertion order:
      each back-reference is set before that component's connect runs. */
  function ConnectPhase(k: Kind, n: nat): (s: seq<Event>)
    ensures Ordered(s)
    ensures forall e :: e in s <==> (e.Bind? || e.Connect?) && e.kind == k && e.index < n
    decreases n
  {
    if n == 0 then []
    else
      var s' := ConnectPhase(k, n - 1);
      OrderedConcat(s', [Bind(k, n - 1), Connect(k, n - 1)]);
      s' + [Bind(k, n - 1), Connect(k, n - 1)]
  }

  /** finalize on every algorithm, in insertion order. */
  function FinalizePhase(n: nat): (s: seq<Event>)
    ensures Ordered(s)
    ensures forall e :: e in s <==> e.Finalize? && e.alg < n
    decreases n
  {
    if n == 0 then []
    else
      var s' := FinalizePhase(n - 1);
      OrderedConcat(s', [Finalize(n - 1)]);
      s' + [Finalize(n - 1)]
  }

  /** The execute() calls of one cycle, in the order they were made. */
  function ExecuteEvents(cycle: nat, invoked: seq<nat>): (s: seq<Event>)
    ensures |s| == |invoked|
    ensures forall k :: 0 <= k < |s| ==> s[k] == Execute(cycle, invoked[k])
  {
    seq(|invoked|, k requires 0 <= k < |invoked| => Execute(cycle, invoked[k]))
  }
}
