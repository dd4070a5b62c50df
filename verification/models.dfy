/** Catalog models as the core sees them: records reached through `Ref`
    handles, so that JavaScript object identity (`===`) is handle equality.
    Only the parts of a model that the modelled rules read or write are kept. */
module Models {
  import opened Wrappers

  /** Object identity of a model. */
  type Ref = nat

  datatype ModelRec = ModelRec(
    uniqueId: Option<string>,
    /** `keepOnTop` trait (false when the model has no layer-ordering traits). */
    keepOnTop: bool,
    /** `supportsReordering` trait (false when the model has no layer-ordering traits). */
    supportsReordering: bool,
    /** For a reference: its resolved target, if any. */
    target: Option<Ref>,
    /** For a dereferenced target: the reference it came from, if any. */
    sourceReference: Option<Ref>,
    knownContainerUniqueIds: seq<string>)

  /** The record read through a handle the heap does not hold. */
  const Blank: ModelRec := ModelRec(None, false, false, None, None, [])

  type Heap = map<Ref, ModelRec>

  function Get(h: Heap, r: Ref): (m: ModelRec)
    ensures r in h ==> m == h[r]
  {
    if r in h then h[r] else Blank
  }

  /** `dereferenceModel`: a reference with a target stands for the target. */
  function Deref(h: Heap, r: Ref): (d: Ref)
    ensures Get(h, r).target.Some? ==> d == Get(h, r).target.value
    ensures Get(h, r).target.None? ==> d == r
  {
    match Get(h, r).target
    case Some(t) => t
    case None => r
  }

  predicate KeepOnTop(h: Heap, r: Ref) {
    Get(h, r).keepOnTop
  }

  predicate SupportsReordering(h: Heap, r: Ref) {
    Get(h, r).supportsReordering
  }

  /** Replace one model's `knownContainerUniqueIds`, leaving every other model alone. */
  function SetContainers(h: Heap, r: Ref, ids: seq<string>): (h': Heap)
    ensures Get(h', r).knownContainerUniqueIds == ids
    ensures Get(h', r) == Get(h, r).(knownContainerUniqueIds := ids)
    ensures forall q :: q != r ==> Get(h', q) == Get(h, q)
  {
    h[r := Get(h, r).(knownContainerUniqueIds := ids)]
  }

  /** `list.indexOf(id) < 0 ? list.push(id)`: append an id only if absent. */
  function AddIfAbsent(ids: seq<string>, id: string): (r: seq<string>)
    ensures id in r
    ensures id in ids ==> r == ids
    ensures id !in ids ==> r == ids + [id]
  {
    if id in ids then ids else ids + [id]
  }
}
