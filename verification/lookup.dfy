/** Pipeline::getThing: the first-match linear scan over an
    insertion-ordered component vector, in its predicate form and its
    tag form. A predicate may itself raise, which getThing propagates. */
module Lookup {
  import opened Errors
  import opened Components

  /** A lookup predicate; Err stands for an exception it raises. */
  type Pred = Component -> Result<bool>

  /** The verdict of the optional predicate: an absent one accepts all. */
  function Accepts(pred: Option<Pred>, c: Component): Result<bool>
  {
    match pred
    case None => Ok(true)
    case Some(f) => f(c)
  }

  /** Every component of type `t` in vec[lo..hi] is rejected by the predicate
      without raising. */
  ghost predicate Rejected(vec: seq<Component>, t: TypeId, pred: Option<Pred>, lo: nat, hi: nat)
    requires hi <= |vec|
  {
    forall j :: lo <= j < hi && IsA(vec[j], t) ==> Accepts(pred, vec[j]) == Ok(false)
  }

  /** `i` is the first component of type `t` that the predicate accepts. */
  ghost predicate IsFirstMatch(vec: seq<Component>, t: TypeId, pred: Option<Pred>, i: nat)
  {
    && i < |vec|
    && IsA(vec[i], t)
    && Accepts(pred, vec[i]) == Ok(true)
    && Rejected(vec, t, pred, 0, i)
  }

  /** The scan of getThing from position `from` on. The index returned is
      the first match; with no match it raises "not found" naming the type;
      when the predicate raises on a component reached before any match,
      that exception is the outcome. */
  function FindFrom(vec: seq<Component>, t: TypeId, pred: Option<Pred>, from: nat): (r: Result<nat>)
    requires from <= |vec|
    decreases |vec| - from
    ensures r.Ok? ==> from <= r.value < |vec| && IsA(vec[r.value], t)
                      && Accepts(pred, vec[r.value]) == Ok(true)
                      && Rejected(vec, t, pred, from, r.value)
    ensures Rejected(vec, t, pred, from, |vec|) ==> r == Err(NotFound(t))
  {
    if from == |vec| then Err(NotFound(t))
    else if !IsA(vec[from], t) then FindFrom(vec, t, pred, from + 1)
    else match Accepts(pred, vec[from])
      case Ok(true) => Ok(from)
      case Ok(false) => FindFrom(vec, t, pred, from + 1)
      case Err(e) => Err(e)
  }

  /** When the scan fails with something other than "not found", the
      predicate raised that exception on the first component of the type
      it did not reject. */
  lemma {:induction false} FindFromRaised(vec: seq<Component>, t: TypeId, pred: Option<Pred>, from: nat)
    requires from <= |vec|
    ensures FindFrom(vec, t, pred, from).Err? && !Rejected(vec, t, pred, from, |vec|) ==>
              exists k: nat :: from <= k < |vec| && Rejected(vec, t, pred, from, k)
                        && IsA(vec[k], t) && Accepts(pred, vec[k]) == Err(FindFrom(vec, t, pred, from).error)
    decreases |vec| - from
  {
    if FindFrom(vec, t, pred, from).Ok? || Rejected(vec, t, pred, from, |vec|) {
    } else if !IsA(vec[from], t) || Accepts(pred, vec[from]) == Ok(false) {
      FindFromRaised(vec, t, pred, from + 1);
      var k: nat :| from + 1 <= k < |vec| && Rejected(vec, t, pred, from + 1, k)
                    && IsA(vec[k], t) && Accepts(pred, vec[k]) == Err(FindFrom(vec, t, pred, from).error);
      assert Rejected(vec, t, pred, from, k);
    } else {
      assert Rejected(vec, t, pred, from, from);
    }
  }

  /** getThing with a predicate, scanning the whole vector. */
  function GetThing(vec: seq<Component>, t: TypeId, pred: Option<Pred>): (r: Result<nat>)
    ensures r.Ok? ==> IsFirstMatch(vec, t, pred, r.value)
    ensures forall i: nat :: IsFirstMatch(vec, t, pred, i) ==> r == Ok(i)
    ensures Rejected(vec, t, pred, 0, |vec|) ==> r == Err(NotFound(t))
    ensures r.Err? && !Rejected(vec, t, pred, 0, |vec|) ==>
              exists k: nat :: k < |vec| && Rejected(vec, t, pred, 0, k)
                          && IsA(vec[k], t) && Accepts(pred, vec[k]) == Err(r.error)
  {
    FindFromRaised(vec, t, pred, 0);
    FirstMatchFound(vec, t, pred);
    FindFrom(vec, t, pred, 0)
  }

  /** A first match that exists is what the scan returns. */
  lemma FirstMatchFound(vec: seq<Component>, t: TypeId, pred: Option<Pred>)
    ensures forall i: nat :: IsFirstMatch(vec, t, pred, i) ==> FindFrom(vec, t, pred, 0) == Ok(i)
  {
    forall i: nat | IsFirstMatch(vec, t, pred, i)
      ensures FindFrom(vec, t, pred, 0) == Ok(i)
    {
      FirstMatchFoundFrom(vec, t, pred, 0, i);
    }
  }

  /** Helper: from any position up to the first match, the scan reaches it. */
  lemma {:induction false} FirstMatchFoundFrom(vec: seq<Component>, t: TypeId, pred: Option<Pred>, from: nat, i: nat)
    requires from <= i < |vec| && IsA(vec[i], t) && Accepts(pred, vec[i]) == Ok(true)
    requires Rejected(vec, t, pred, from, i)
    ensures FindFrom(vec, t, pred, from) == Ok(i)
    decreases i - from
  {
    if from < i {
      assert Rejected(vec, t, pred, from + 1, i);
      FirstMatchFoundFrom(vec, t, pred, from + 1, i);
    }
  }

  /** The predicate the tag form of getThing builds: getTag() == tag. */
  function TagPred(tag: int): Pred
  {
    c => match GetTag(c)
         case Ok(v) => Ok(v == tag)
         case Err(e) => Err(e)
  }

  /** Every component of type `t` in vec[lo..hi] carries a tag other than
      `tag`, so the tag scan passes over it. */
  ghost predicate OtherTags(vec: seq<Component>, t: TypeId, tag: int, lo: nat, hi: nat)
    requires hi <= |vec|
  {
    forall j :: lo <= j < hi && IsA(vec[j], t) ==> vec[j].tag.Some? && vec[j].tag != Some(tag)
  }

  /** The tag form of the scan, stated directly on the components' tags:
      the first component of type `t` whose tag is not a different value
      decides -- it is returned when its tag equals `tag`, and raises
      "not implemented" when it has no tag. */
  function FindTagFrom(vec: seq<Component>, t: TypeId, tag: int, from: nat): (r: Result<nat>)
    requires from <= |vec|
    decreases |vec| - from
    ensures r.Ok? ==> from <= r.value < |vec| && IsA(vec[r.value], t) && vec[r.value].tag == Some(tag)
                      && OtherTags(vec, t, tag, from, r.value)
    ensures r.Err? ==> r.error == NotFound(t) || r.error == NotImplemented
  {
    if from == |vec| then Err(NotFound(t))
    else if !IsA(vec[from], t) then FindTagFrom(vec, t, tag, from + 1)
    else match vec[from].tag
      case None => Err(NotImplemented)
      case Some(v) => if v == tag then Ok(from) else FindTagFrom(vec, t, tag, from + 1)
  }

  /** What decides the tag scan: the first component of the type whose tag
      is not a different value is returned when it carries the tag and
      raises "not implemented" when it has none; with every component of
      the type carrying another tag the scan raises "not found". */
  lemma {:induction false} FindTagFromMeaning(vec: seq<Component>, t: TypeId, tag: int, from: nat)
    requires from <= |vec|
    ensures forall i :: from <= i < |vec| && IsA(vec[i], t) && vec[i].tag == Some(tag) && OtherTags(vec, t, tag, from, i)
                        ==> FindTagFrom(vec, t, tag, from) == Ok(i)
    ensures forall i :: from <= i < |vec| && IsA(vec[i], t) && vec[i].tag == None && OtherTags(vec, t, tag, from, i)
                        ==> FindTagFrom(vec, t, tag, from) == Err(NotImplemented)
    ensures OtherTags(vec, t, tag, from, |vec|) ==> FindTagFrom(vec, t, tag, from) == Err(NotFound(t))
    decreases |vec| - from
  {
    if from < |vec| {
      FindTagFromMeaning(vec, t, tag, from + 1);
      assert forall i :: from < i <= |vec| && OtherTags(vec, t, tag, from, i) ==> OtherTags(vec, t, tag, from + 1, i);
    }
  }

  /** getThing with an integer tag: the predicate form with the predicate
      getTag() == tag. The first component of the type whose tag is not a
      different value decides: it is found when it carries the tag, and
      raises "not implemented" when it has none. */
  function GetThingByTag(vec: seq<Component>, t: TypeId, tag: int): (r: Result<nat>)
    ensures r == GetThing(vec, t, Some(TagPred(tag)))
    ensures r.Ok? ==> r.value < |vec| && IsA(vec[r.value], t) && vec[r.value].tag == Some(tag)
                      && OtherTags(vec, t, tag, 0, r.value)
    ensures forall i :: 0 <= i < |vec| && IsA(vec[i], t) && vec[i].tag == Some(tag) && OtherTags(vec, t, tag, 0, i)
                        ==> r == Ok(i)
    ensures forall i :: 0 <= i < |vec| && IsA(vec[i], t) && vec[i].tag == None && OtherTags(vec, t, tag, 0, i)
                        ==> r == Err(NotImplemented)
    ensures OtherTags(vec, t, tag, 0, |vec|) ==> r == Err(NotFound(t))
    ensures r.Err? ==> r.error == NotFound(t) || r.error == NotImplemented
  {
    TagLookupIsPredicateLookup(vec, t, tag, 0);
    FindTagFromMeaning(vec, t, tag, 0);
    FindTagFrom(vec, t, tag, 0)
  }

  /** Tag lookup is exactly predicate lookup with the predicate getTag() == tag. */
  lemma {:induction false} TagLookupIsPredicateLookup(vec: seq<Component>, t: TypeId, tag: int, from: nat)
    requires from <= |vec|
    ensures FindTagFrom(vec, t, tag, from) == FindFrom(vec, t, Some(TagPred(tag)), from)
    decreases |vec| - from
  {
    if from < |vec| && IsA(vec[from], t) && vec[from].tag != Some(tag) && vec[from].tag.Some? {
      TagLookupIsPredicateLookup(vec, t, tag, from + 1);
    } else if from < |vec| && !IsA(vec[from], t) {
      TagLookupIsPredicateLookup(vec, t, tag, from + 1);
    }
  }

  /** Reaching a component of the requested type that does not implement
      getTag raises "not implemented", never "not found". */
  lemma {:induction false} UntaggedRaisesNotImplemented(vec: seq<Component>, t: TypeId, tag: int, k: nat)
    requires k < |vec| && IsA(vec[k], t) && vec[k].tag == None
    requires forall j :: 0 <= j < k && IsA(vec[j], t) ==> vec[j].tag.Some? && vec[j].tag != Some(tag)
    ensures GetThingByTag(vec, t, tag) == Err(NotImplemented)
  {
    assert OtherTags(vec, t, tag, 0, k);
  }

  /** Two components of a type registered with distinct tags are each found
      by their own tag, and the two lookups return distinct components. */
  lemma DistinctTagsSelectDistinct(vec: seq<Component>, t: TypeId, a: nat, b: nat, ta: int, tb: int)
    requires a < b < |vec|
    requires IsA(vec[a], t) && IsA(vec[b], t)
    requires vec[a].tag == Some(ta) && vec[b].tag == Some(tb) && ta != tb
    requires forall j :: 0 <= j < |vec| && j != a && j != b ==> !IsA(vec[j], t)
    ensures GetThingByTag(vec, t, ta) == Ok(a)
    ensures GetThingByTag(vec, t, tb) == Ok(b)
  {
    assert OtherTags(vec, t, ta, 0, a);
    assert OtherTags(vec, t, tb, 0, b);
  }
}
