/** SimpleAlg<ReaderT>: an algorithm bound to the first reader of a given
    type, which hands that reader's record to a consume step on the cycles
    where the reader has one ready. PureAlg<ReaderT, func> is this adapter
    with `func` as its consume step. */
module Adapter {
  import opened Errors
  import opened Components
  import opened Lookup
  import opened Pipelines

  /** What the adapter sees of its reader on a cycle: whether the reader
      holds a ready record, and that record. */
  datatype ReaderView<D> = ReaderView(ready: bool, data: D)

  /** One execute() of the adapter: the status it returns, and the record it
      handed to consume, if it called consume at all. */
  datatype Step<D> = Step(status: Status, consumed: Option<D>)

  /** SimpleAlg::connect: bind to the first algorithm of the reader type, in
      insertion order; with none registered the lookup raises "not found". */
  function SimpleConnect(p: Pipeline, readerType: TypeId): (r: Result<nat>)
    ensures r.Ok? ==> r.value < |p.algs| && IsA(p.algs[r.value], readerType)
    ensures r.Ok? ==> forall j :: 0 <= j < r.value ==> !IsA(p.algs[j], readerType)
    ensures r.Err? <==> forall j :: 0 <= j < |p.algs| ==> !IsA(p.algs[j], readerType)
    ensures r.Err? ==> r.error == NotFound(readerType)
  {
    GetAlg(p, readerType, None)
  }

  /** SimpleAlg::execute: consume is called exactly when the reader is
      ready, on the reader's record, and its status is returned; otherwise
      the adapter returns Continue without consuming. */
  function SimpleExecute<D>(reader: ReaderView<D>, consume: D -> Status): (r: Step<D>)
    ensures r.consumed.Some? <==> reader.ready
    ensures r.consumed.Some? ==> r.consumed.value == reader.data && r.status == consume(reader.data)
    ensures r.consumed.None? ==> r.status == Continue
  {
    if reader.ready then Step(consume(reader.data), Some(reader.data))
    else Step(Continue, None)
  }

  /** The positions of the views from `from` on where the reader has a
      record ready, in increasing order. */
  function ReadyFrom<D>(views: seq<ReaderView<D>>, from: nat): (pos: seq<nat>)
    requires from <= |views|
    decreases |views| - from
    ensures forall m :: 0 <= m < |pos| ==> from <= pos[m] < |views| && views[pos[m]].ready
    ensures forall a, b :: 0 <= a < b < |pos| ==> pos[a] < pos[b]
    ensures forall k :: from <= k < |views| && views[k].ready ==> k in pos
  {
    if from == |views| then []
    else if views[from].ready then [from] + ReadyFrom(views, from + 1)
    else ReadyFrom(views, from + 1)
  }

  /** Over a run of cycles from `from` on, the records the adapter
      consumes: the ready records, one per cycle on which one was ready,
      in cycle order. */
  function ConsumedFrom<D>(views: seq<ReaderView<D>>, consume: D -> Status, from: nat): (s: seq<D>)
    requires from <= |views|
    decreases |views| - from
    ensures |s| == |ReadyFrom(views, from)|
    ensures forall m :: 0 <= m < |s| ==> s[m] == views[ReadyFrom(views, from)[m]].data
  {
    if from == |views| then []
    else
      var rest := ConsumedFrom(views, consume, from + 1);
      match SimpleExecute(views[from], consume).consumed
      case Some(d) => [d] + rest
      case None => rest
  }

  /** Over a whole run of cycles: the m-th record consumed is the one ready
      on the m-th cycle that had one; a record is consumed exactly when it
      was ready on some cycle; nothing is consumed when the reader is never
      ready. */
  function ConsumedRecords<D>(views: seq<ReaderView<D>>, consume: D -> Status): (s: seq<D>)
    ensures |s| == |ReadyFrom(views, 0)|
    ensures forall m :: 0 <= m < |s| ==> s[m] == views[ReadyFrom(views, 0)[m]].data
    ensures forall d :: d in s ==> exists k :: 0 <= k < |views| && views[k].ready && views[k].data == d
    ensures forall k :: 0 <= k < |views| && views[k].ready ==> views[k].data in s
    ensures (forall k :: 0 <= k < |views| ==> !views[k].ready) <==> s == []
  {
    var pos := ReadyFrom(views, 0);
    var s := ConsumedFrom(views, consume, 0);
    assert forall k :: 0 <= k < |views| && views[k].ready ==> exists m :: 0 <= m < |pos| && pos[m] == k;
    assert |pos| > 0 ==> pos[0] < |views| && views[pos[0]].ready;
    s
  }
}
