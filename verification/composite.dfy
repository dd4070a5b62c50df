/** `CompositeCatalogItem`: a catalog item made of other items. Its `members`
    trait is a list of ids like a group's; adding a member registers the
    model when the registry does not know it yet, and the composite's map
    items are its mappable members' map items, in member order. */
module Composite {
  import opened Wrappers
  import opened Models
  import Registry
  import Groups

  /** A map item of a member; what it draws is not modelled. */
  type MapItem = nat

  /** The registry, the composite's `members` trait and the models. */
  datatype CompositeState = CompositeState(reg: Registry.Registry, group: Groups.Group, heap: Heap)

  /** `add(stratumId, member)`: a model without an id is refused; a model the
      registry does not know is registered first (without share keys); the id
      is appended to the stratum's list, which is created when missing. */
  function Add(s: CompositeState, stratumId: string, member: Ref): (r: Result<CompositeState, Groups.GroupError>)
    ensures Get(s.heap, member).uniqueId.None? <==> r.Err?
    ensures r.Err? ==> r.error == Groups.NoUniqueId
    ensures r.Ok? ==>
      var id := Get(s.heap, member).uniqueId.value;
      r.value.heap == s.heap &&
      r.value.group == Groups.AppendMember(s.group, stratumId, id) &&
      (id in s.reg.models ==> r.value.reg == s.reg) &&
      (id !in s.reg.models ==> r.value.reg.models == s.reg.models[id := member] &&
                               r.value.reg.shareKeys == s.reg.shareKeys)
  {
    match Get(s.heap, member).uniqueId
    case None => Err(Groups.NoUniqueId)
    case Some(id) =>
      var reg := if Registry.GetModelById(s.reg, id).Some? then s.reg
                 else Registry.AddModel(s.reg, s.heap, member, []).value;
      Ok(CompositeState(reg, Groups.AppendMember(s.group, stratumId, id), s.heap))
  }

  /** After `add` into the stratum `members` reads, the last member model is
      the one registered under the member's id, which is the member itself
      when the registry did not know the id. */
  lemma AddAppendsMember(s: CompositeState, stratumId: string, member: Ref)
    requires Add(s, stratumId, member).Ok?
    requires |s.group.order| > 0 && s.group.order[0] == stratumId
    ensures var r := Add(s, stratumId, member).value;
      var id := Get(s.heap, member).uniqueId.value;
      var models := Groups.MemberModels(r.reg, r.group);
      |models| > 0 && models[|models| - 1] == r.reg.models[id] &&
      (id !in s.reg.models ==> models[|models| - 1] == member)
  {
    var r := Add(s, stratumId, member).value;
    var id := Get(s.heap, member).uniqueId.value;
    var current := if stratumId in s.group.strata then s.group.strata[stratumId] else [];
    assert Groups.Members(r.group) == Some(current + [Groups.Id(id)]);
    Groups.ResolveMembersAppend(r.reg, current, [Groups.Id(id)]);
    assert Groups.ResolveMembers(r.reg, [Groups.Id(id)]) == [r.reg.models[id]];
  }

  /** Adding a model the registry already holds under its id leaves the registry alone. */
  lemma AddKnownKeepsRegistry(s: CompositeState, stratumId: string, member: Ref)
    requires Get(s.heap, member).uniqueId.Some?
    requires Get(s.heap, member).uniqueId.value in s.reg.models
    ensures Add(s, stratumId, member).Ok? && Add(s, stratumId, member).value.reg == s.reg
  {
  }

  // ---------------------------------------------------------------------
  // mapItems

  /** The map items of each mappable model; a model absent from the map is
      not mappable and contributes nothing. */
  type Mappable = map<Ref, seq<MapItem>>

  /** The items a list of member models contributes, concatenated in order. */
  function CollectMapItems(mappable: Mappable, models: seq<Ref>): (r: seq<MapItem>)
    ensures forall x :: x in r <==>
      exists i :: 0 <= i < |models| && models[i] in mappable && x in mappable[models[i]]
    decreases |models|
  {
    if models == [] then []
    else
      var rest := CollectMapItems(mappable, models[1..]);
      assert forall i :: 0 < i < |models| ==> models[i] == models[1..][i - 1];
      (if models[0] in mappable then mappable[models[0]] else []) + rest
  }

  /** `mapItems`: every mappable member's items, in member order. */
  function MapItems(s: CompositeState, mappable: Mappable): (r: seq<MapItem>)
    ensures forall x :: x in r <==>
      exists m :: m in Groups.MemberModels(s.reg, s.group) && m in mappable && x in mappable[m]
  {
    var models := Groups.MemberModels(s.reg, s.group);
    var r := CollectMapItems(mappable, models);
    assert forall x :: x in r ==>
      exists m :: m in models && m in mappable && x in mappable[m];
    assert forall x, m :: m in models && m in mappable && x in mappable[m] ==> x in r by {
      forall x, m | m in models && m in mappable && x in mappable[m]
        ensures x in r
      {
        var i :| 0 <= i < |models| && models[i] == m;
      }
    }
    r
  }

  /** Collecting distributes over concatenation of member lists. */
  lemma {:induction false} CollectMapItemsAppend(mappable: Mappable, a: seq<Ref>, b: seq<Ref>)
    ensures CollectMapItems(mappable, a + b) == CollectMapItems(mappable, a) + CollectMapItems(mappable, b)
    decreases |a|
  {
    if a == [] {
      assert a + b == b;
    } else {
      assert (a + b)[0] == a[0];
      assert (a + b)[1..] == a[1..] + b;
      CollectMapItemsAppend(mappable, a[1..], b);
    }
  }

  /** The number of items is the sum over the mappable members. */
  function ItemCount(mappable: Mappable, models: seq<Ref>): nat
    decreases |models|
  {
    if models == [] then 0
    else (if models[0] in mappable then |mappable[models[0]]| else 0) + ItemCount(mappable, models[1..])
  }

  lemma {:induction false} CollectMapItemsCount(mappable: Mappable, models: seq<Ref>)
    ensures |CollectMapItems(mappable, models)| == ItemCount(mappable, models)
    decreases |models|
  {
    if models != [] {
      CollectMapItemsCount(mappable, models[1..]);
    }
  }
}
