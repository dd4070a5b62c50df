/** The model registry of `Terria`: models by id, share keys (old ids kept
    so that old share links still resolve) and the error channel that
    `raiseErrorToUser` feeds. */
module Registry {
  import opened Wrappers
  import opened Models
  import opened TerriaErrors

  datatype Registry = Registry(
    /** `models`: id to model. */
    models: map<string, Ref>,
    /** `shareKeysMap`: share key to id. */
    shareKeys: map<string, string>,
    /** `modelIdShareKeysMap`: id to its share keys, in the order added. */
    idShareKeys: map<string, seq<string>>)

  const Empty: Registry := Registry(map[], map[], map[])

  /** The two share-key maps describe the same relation, and no key is its own id. */
  ghost predicate Valid(reg: Registry) {
    (forall sk :: sk in reg.shareKeys ==>
      reg.shareKeys[sk] != sk &&
      reg.shareKeys[sk] in reg.idShareKeys && sk in reg.idShareKeys[reg.shareKeys[sk]]) &&
    (forall id, sk :: id in reg.idShareKeys && sk in reg.idShareKeys[id] ==>
      sk in reg.shareKeys && reg.shareKeys[sk] == id)
  }

  lemma EmptyValid()
    ensures Valid(Empty)
  {
  }

  // ---------------------------------------------------------------------
  // Lookups

  /** `getModelById`, without the type test: every model is accepted. */
  function GetModelById(reg: Registry, id: string): (r: Option<Ref>)
    ensures r.Some? <==> id in reg.models
    ensures r.Some? ==> r.value == reg.models[id]
  {
    if id in reg.models then Some(reg.models[id]) else None
  }

  function GetModelIdByShareKey(reg: Registry, shareKey: string): (r: Option<string>)
    ensures r.Some? <==> shareKey in reg.shareKeys
    ensures r.Some? ==> r.value == reg.shareKeys[shareKey]
  {
    if shareKey in reg.shareKeys then Some(reg.shareKeys[shareKey]) else None
  }

  /** `getModelByIdOrShareKey`: a direct id hit first, then the id the share key maps to. */
  function GetModelByIdOrShareKey(reg: Registry, id: string): (r: Option<Ref>)
    ensures id in reg.models ==> r == Some(reg.models[id])
    ensures id !in reg.models && id in reg.shareKeys ==> r == GetModelById(reg, reg.shareKeys[id])
    ensures id !in reg.models && id !in reg.shareKeys ==> r == None
  {
    match GetModelById(reg, id)
    case Some(m) => Some(m)
    case None =>
      match GetModelIdByShareKey(reg, id)
      case Some(target) => GetModelById(reg, target)
      case None => None
  }

  // ---------------------------------------------------------------------
  // Share keys

  /** `addShareKey`: ignored when the key is the id itself or is already
      taken; otherwise both maps gain the pair. */
  function AddShareKey(reg: Registry, id: string, shareKey: string): (r: Registry)
    ensures r.models == reg.models
    ensures id == shareKey || shareKey in reg.shareKeys ==> r == reg
    ensures id != shareKey && shareKey !in reg.shareKeys ==>
      r.shareKeys == reg.shareKeys[shareKey := id] &&
      id in r.idShareKeys &&
      r.idShareKeys[id] == (if id in reg.idShareKeys then reg.idShareKeys[id] else []) + [shareKey] &&
      forall other :: other != id ==> (other in r.idShareKeys <==> other in reg.idShareKeys)
    ensures forall other :: other != id && other in reg.idShareKeys ==>
      r.idShareKeys[other] == reg.idShareKeys[other]
  {
    if id == shareKey || shareKey in reg.shareKeys then reg
    else
      var keys := if id in reg.idShareKeys then reg.idShareKeys[id] else [];
      reg.(shareKeys := reg.shareKeys[shareKey := id],
           idShareKeys := reg.idShareKeys[id := keys + [shareKey]])
  }

  /** `addShareKey` keeps the two maps in step. */
  lemma AddShareKeyValid(reg: Registry, id: string, shareKey: string)
    requires Valid(reg)
    ensures Valid(AddShareKey(reg, id, shareKey))
  {
    var r := AddShareKey(reg, id, shareKey);
    if id != shareKey && shareKey !in reg.shareKeys {
      forall other, sk | other in r.idShareKeys && sk in r.idShareKeys[other]
        ensures sk in r.shareKeys && r.shareKeys[sk] == other
      {
        if other == id {
          if sk != shareKey {
            assert id in reg.idShareKeys && sk in reg.idShareKeys[id];
          }
        } else {
          assert sk in reg.idShareKeys[other];
        }
      }
    }
  }

  /** Once registered, a share key resolves to the model of its id, unless an
      id equal to the key shadows it. */
  lemma ShareKeyResolves(reg: Registry, id: string, shareKey: string)
    requires id != shareKey && shareKey !in reg.shareKeys && shareKey !in reg.models
    ensures GetModelByIdOrShareKey(AddShareKey(reg, id, shareKey), shareKey) == GetModelById(reg, id)
  {
  }

  /** A share key already taken keeps its first id. */
  lemma ShareKeyFirstWins(reg: Registry, id: string, shareKey: string)
    requires shareKey in reg.shareKeys
    ensures GetModelIdByShareKey(AddShareKey(reg, id, shareKey), shareKey) ==
            GetModelIdByShareKey(reg, shareKey)
  {
  }

  /** `shareKeys?.forEach(k => addShareKey(id, k))`. */
  function AddShareKeys(reg: Registry, id: string, shareKeys: seq<string>): (r: Registry)
    ensures r.models == reg.models
    ensures forall sk :: sk in reg.shareKeys ==> sk in r.shareKeys && r.shareKeys[sk] == reg.shareKeys[sk]
    ensures forall k :: 0 <= k < |shareKeys| && shareKeys[k] != id ==> shareKeys[k] in r.shareKeys
    ensures forall k :: 0 <= k < |shareKeys| && shareKeys[k] != id && shareKeys[k] !in reg.shareKeys ==>
      r.shareKeys[shareKeys[k]] == id
    ensures forall sk :: sk in r.shareKeys ==> sk in reg.shareKeys || sk in shareKeys
    decreases |shareKeys|
  {
    if shareKeys == [] then reg
    else AddShareKeys(AddShareKey(reg, id, shareKeys[0]), id, shareKeys[1..])
  }

  lemma {:induction false} AddShareKeysValid(reg: Registry, id: string, shareKeys: seq<string>)
    requires Valid(reg)
    ensures Valid(AddShareKeys(reg, id, shareKeys))
    decreases |shareKeys|
  {
    if shareKeys != [] {
      AddShareKeyValid(reg, id, shareKeys[0]);
      AddShareKeysValid(AddShareKey(reg, id, shareKeys[0]), id, shareKeys[1..]);
    }
  }

  // ---------------------------------------------------------------------
  // addModel

  datatype AddModelError =
    /** `DeveloperError`: a model without a `uniqueId` cannot be added. */
    | MissingUniqueId
    /** `RuntimeError`: a model with the specified id already exists. */
    | DuplicateId(id: string)

  /** `addModel(model, shareKeys)`. */
  function AddModel(reg: Registry, h: Heap, model: Ref, shareKeys: seq<string>): (r: Result<Registry, AddModelError>)
    ensures Get(h, model).uniqueId.None? <==> r == Err(MissingUniqueId)
    ensures Get(h, model).uniqueId.Some? && Get(h, model).uniqueId.value in reg.models <==>
      r.Err? && r.error.DuplicateId?
    ensures r.Err? && r.error.DuplicateId? ==> Some(r.error.id) == Get(h, model).uniqueId
    ensures r.Ok? ==>
      var id := Get(h, model).uniqueId.value;
      r.value.models == reg.models[id := model] &&
      (forall k :: 0 <= k < |shareKeys| && shareKeys[k] != id ==> shareKeys[k] in r.value.shareKeys) &&
      (forall k :: 0 <= k < |shareKeys| && shareKeys[k] != id && shareKeys[k] !in reg.shareKeys ==>
        r.value.shareKeys[shareKeys[k]] == id) &&
      (forall sk :: sk in r.value.shareKeys ==> sk in reg.shareKeys || sk in shareKeys) &&
      (forall sk :: sk in reg.shareKeys ==> sk in r.value.shareKeys && r.value.shareKeys[sk] == reg.shareKeys[sk])
  {
    match Get(h, model).uniqueId
    case None => Err(MissingUniqueId)
    case Some(id) =>
      if id in reg.models then Err(DuplicateId(id))
      else Ok(AddShareKeys(reg.(models := reg.models[id := model]), id, shareKeys))
  }

  /** A model just added is found by its id, and the registry stays consistent. */
  lemma AddModelFound(reg: Registry, h: Heap, model: Ref, shareKeys: seq<string>)
    requires Valid(reg)
    requires AddModel(reg, h, model, shareKeys).Ok?
    ensures var r := AddModel(reg, h, model, shareKeys).value;
      Valid(r) && GetModelById(r, Get(h, model).uniqueId.value) == Some(model)
  {
    var id := Get(h, model).uniqueId.value;
    AddShareKeysValid(reg.(models := reg.models[id := model]), id, shareKeys);
  }

  /** Adding the same model twice fails the second time. */
  lemma AddModelTwice(reg: Registry, h: Heap, model: Ref, shareKeys: seq<string>)
    requires AddModel(reg, h, model, shareKeys).Ok?
    ensures AddModel(AddModel(reg, h, model, shareKeys).value, h, model, shareKeys) ==
            Err(DuplicateId(Get(h, model).uniqueId.value))
  {
  }

  // ---------------------------------------------------------------------
  // raiseErrorToUser

  /** What `raiseErrorToUser` leaves behind: the events raised so far, and the
      error object it built, with its flag as the call left it (`None` when
      errors are ignored and nothing was built). */
  datatype Raised = Raised(events: seq<TerriaError>, error: Option<TerriaError>)

  predicate IgnoreErrors(userProperties: map<string, string>) {
    "ignoreErrors" in userProperties && userProperties["ignoreErrors"] == "1"
  }

  /** `raiseErrorToUser(error)`: nothing when the `ignoreErrors` user
      property is "1"; otherwise the error goes through `TerriaError.from`
      and, unless already marked raised, is marked and emitted once. */
  function RaiseErrorToUser(userProperties: map<string, string>, events: seq<TerriaError>, error: Thrown): (r: Raised)
    ensures IgnoreErrors(userProperties) ==> r == Raised(events, None)
    ensures !IgnoreErrors(userProperties) ==> r.error.Some? && r.error.value.raisedToUser
    ensures !IgnoreErrors(userProperties) && From(error, None).raisedToUser ==>
      r.events == events && r.error == Some(From(error, None))
    ensures !IgnoreErrors(userProperties) && !From(error, None).raisedToUser ==>
      r.events == events + [r.error.value] &&
      r.error.value.(raisedToUser := false) == From(error, None)
  {
    if IgnoreErrors(userProperties) then Raised(events, None)
    else
      var e := From(error, None);
      if e.raisedToUser then Raised(events, Some(e))
      else
        var marked := SetRaisedToUser(e, true);
        Raised(events + [marked], Some(marked))
  }

  /** Raising the same error object a second time emits nothing more. */
  lemma RaiseTwiceEmitsOnce(userProperties: map<string, string>, events: seq<TerriaError>, error: Thrown)
    requires !IgnoreErrors(userProperties)
    ensures var first := RaiseErrorToUser(userProperties, events, error);
      RaiseErrorToUser(userProperties, first.events, ThrownTerria(first.error.value)) == first
  {
  }

  /** Because the setter marks only the node itself, a child of an error that
      was raised is raised again on its own: two events for one failure. */
  lemma RaiseParentThenChild(userProperties: map<string, string>, events: seq<TerriaError>, child: TerriaError)
    requires !IgnoreErrors(userProperties)
    requires !child.raisedToUser
    ensures var parent := Combine([child], MessageOverride("failed")).value;
      var first := RaiseErrorToUser(userProperties, events, ThrownTerria(parent));
      var second := RaiseErrorToUser(userProperties, first.events, ThrownTerria(child));
      |second.events| == |events| + 2
  {
  }
}
