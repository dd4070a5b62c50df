/** `GroupMixin`: a catalog group whose `members` trait is a list of model
    ids, set per stratum. The group adds, removes and reorders ids, resolves
    them to models through the registry, records itself in each member's
    `knownContainerUniqueIds`, and derives share keys for members whose id
    was built from the group's id. */
module Groups {
  import opened Wrappers
  import opened Strings
  import opened Models
  import opened TerriaErrors
  import Registry

  /** An entry of `members`: a model id, or a marker that the id was removed
      in this stratum. */
  datatype MemberRef = Id(id: string) | Removed(removedId: string)

  /** The `members` trait of a group: one optional list per stratum, and the
      strata ids from top to bottom. */
  datatype Group = Group(uniqueId: Option<string>, strata: map<string, seq<MemberRef>>, order: seq<string>)

  /** `getTrait(stratumId, "members")`. */
  function StratumMembers(g: Group, stratumId: string): Option<seq<MemberRef>> {
    if stratumId in g.strata then Some(g.strata[stratumId]) else None
  }

  /** The `members` trait value: the list of the topmost stratum that sets one. */
  function Members(g: Group): Option<seq<MemberRef>> {
    TopMost(g.strata, g.order)
  }

  function TopMost(strata: map<string, seq<MemberRef>>, order: seq<string>): (r: Option<seq<MemberRef>>)
    ensures r.None? <==> forall i :: 0 <= i < |order| ==> order[i] !in strata
    ensures r.Some? ==>
      exists i :: 0 <= i < |order| && order[i] in strata && r.value == strata[order[i]] &&
        forall j :: 0 <= j < i ==> order[j] !in strata
  {
    if order == [] then None
    else if order[0] in strata then Some(strata[order[0]])
    else
      var r := TopMost(strata, order[1..]);
      if r.Some? then
        var i :| 0 <= i < |order[1..]| && order[1..][i] in strata && r.value == strata[order[1..][i]] &&
          forall j :: 0 <= j < i ==> order[1..][j] !in strata;
        assert order[i + 1] == order[1..][i];
        r
      else r
  }

  // ---------------------------------------------------------------------
  // memberModels

  /** `memberModels` over a list: removal markers and ids the registry does
      not know are dropped; the rest resolve in order. */
  function ResolveMembers(reg: Registry.Registry, members: seq<MemberRef>): (r: seq<Ref>)
    ensures |r| <= |members|
    ensures forall m :: m in r <==>
      exists i :: 0 <= i < |members| && members[i].Id? && members[i].id in reg.models && reg.models[members[i].id] == m
  {
    if members == [] then []
    else
      var rest := ResolveMembers(reg, members[1..]);
      assert forall i :: 0 < i < |members| ==> members[i] == members[1..][i - 1];
      match members[0]
      case Id(id) => if id in reg.models then [reg.models[id]] + rest else rest
      case Removed(_) => rest
  }

  /** Resolution distributes over concatenation, so appending ids appends their models. */
  lemma {:induction false} ResolveMembersAppend(reg: Registry.Registry, a: seq<MemberRef>, b: seq<MemberRef>)
    ensures ResolveMembers(reg, a + b) == ResolveMembers(reg, a) + ResolveMembers(reg, b)
    decreases |a|
  {
    if a == [] {
      assert a + b == b;
    } else {
      assert (a + b)[0] == a[0];
      assert (a + b)[1..] == a[1..] + b;
      ResolveMembersAppend(reg, a[1..], b);
    }
  }

  /** Resolution reads only the registry's models, not its share keys. */
  lemma {:induction false} ResolveMembersReadsModels(reg: Registry.Registry, reg': Registry.Registry, members: seq<MemberRef>)
    requires reg.models == reg'.models
    ensures ResolveMembers(reg, members) == ResolveMembers(reg', members)
    decreases |members|
  {
    if members != [] {
      ResolveMembersReadsModels(reg, reg', members[1..]);
    }
  }

  /** `memberModels`: empty when `members` is undefined. */
  function MemberModels(reg: Registry.Registry, g: Group): (r: seq<Ref>)
    ensures Members(g).None? ==> r == []
    ensures Members(g).Some? ==> r == ResolveMembers(reg, Members(g).value)
  {
    match Members(g)
    case None => []
    case Some(ms) => ResolveMembers(reg, ms)
  }

  // ---------------------------------------------------------------------
  // add, remove, moveMemberToIndex

  datatype GroupError =
    /** A member without a `uniqueId` cannot be added or reordered. */
    | NoUniqueId
    /** `members[newIndex]` is undefined. */
    | InvalidIndex(newIndex: int)
    /** The member is not in `members`. */
    | NotAMember(id: string)

  /** `push` onto the stratum's list, or create the list `[id]`. */
  function AppendMember(g: Group, stratumId: string, id: string): (r: Group)
    ensures r.uniqueId == g.uniqueId && r.order == g.order
    ensures StratumMembers(r, stratumId) ==
      Some((if stratumId in g.strata then g.strata[stratumId] else []) + [Id(id)])
    ensures forall s :: s != stratumId ==> StratumMembers(r, s) == StratumMembers(g, s)
  {
    var current := if stratumId in g.strata then g.strata[stratumId] else [];
    g.(strata := g.strata[stratumId := current + [Id(id)]])
  }

  /** A group and the models it touches. */
  datatype GroupState = GroupState(group: Group, heap: Heap)

  /** `add(stratumId, member)`: the id is appended (no deduplication) and,
      when the group has an id, that id is added once to the member's
      `knownContainerUniqueIds`. */
  function Add(s: GroupState, stratumId: string, member: Ref): (r: Result<GroupState, GroupError>)
    ensures Get(s.heap, member).uniqueId.None? <==> r.Err?
    ensures r.Err? ==> r.error == NoUniqueId
    ensures r.Ok? ==> r.value.group == AppendMember(s.group, stratumId, Get(s.heap, member).uniqueId.value)
    ensures r.Ok? && s.group.uniqueId.Some? ==>
      r.value.heap == SetContainers(s.heap, member,
        AddIfAbsent(Get(s.heap, member).knownContainerUniqueIds, s.group.uniqueId.value))
    ensures r.Ok? && s.group.uniqueId.None? ==> r.value.heap == s.heap
  {
    match Get(s.heap, member).uniqueId
    case None => Err(NoUniqueId)
    case Some(id) =>
      var g := AppendMember(s.group, stratumId, id);
      var h := match s.group.uniqueId
        case Some(gid) => SetContainers(s.heap, member, AddIfAbsent(Get(s.heap, member).knownContainerUniqueIds, gid))
        case None => s.heap;
      Ok(GroupState(g, h))
  }

  /** When the stratum added to is the one `members` reads, the member's
      model (if registered) becomes the last of `memberModels`. */
  lemma AddAppendsMemberModel(reg: Registry.Registry, s: GroupState, stratumId: string, member: Ref)
    requires Add(s, stratumId, member).Ok?
    requires |s.group.order| > 0 && s.group.order[0] == stratumId
    requires Get(s.heap, member).uniqueId.value in reg.models
    ensures var g := Add(s, stratumId, member).value.group;
      MemberModels(reg, g) ==
        (if stratumId in s.group.strata then ResolveMembers(reg, s.group.strata[stratumId]) else []) +
        [reg.models[Get(s.heap, member).uniqueId.value]]
  {
    var id := Get(s.heap, member).uniqueId.value;
    var current := if stratumId in s.group.strata then s.group.strata[stratumId] else [];
    ResolveMembersAppend(reg, current, [Id(id)]);
  }

  /** The index of the first `Id(id)` entry, or -1. */
  function IndexOfId(ms: seq<MemberRef>, id: string): (r: int)
    ensures -1 <= r < |ms|
    ensures r >= 0 ==> ms[r] == Id(id) && Id(id) !in ms[..r]
    ensures r == -1 <==> Id(id) !in ms
  {
    if ms == [] then -1
    else if ms[0] == Id(id) then 0
    else
      var k := IndexOfId(ms[1..], id);
      assert k >= 0 ==> ms[1..][..k] == ms[1..k + 1];
      if k == -1 then -1 else k + 1
  }

  /** `remove(stratumId, member)`: the first occurrence of the id in that
      stratum's list goes; nothing happens without an id, a list or an occurrence. */
  function Remove(g: Group, h: Heap, stratumId: string, member: Ref): (r: Group)
    ensures (Get(h, member).uniqueId.None? || stratumId !in g.strata ||
             Id(Get(h, member).uniqueId.value) !in g.strata[stratumId]) ==> r == g
    ensures Get(h, member).uniqueId.Some? && stratumId in g.strata &&
            Id(Get(h, member).uniqueId.value) in g.strata[stratumId] ==>
      var ms := g.strata[stratumId];
      var i := IndexOfId(ms, Get(h, member).uniqueId.value);
      r == g.(strata := g.strata[stratumId := ms[..i] + ms[i + 1..]])
  {
    match Get(h, member).uniqueId
    case None => g
    case Some(id) =>
      if stratumId !in g.strata then g
      else
        var ms := g.strata[stratumId];
        var i := IndexOfId(ms, id);
        if i == -1 then g else g.(strata := g.strata[stratumId := ms[..i] + ms[i + 1..]])
  }

  /** Adding a member that was not in the stratum and removing it again gives the group back. */
  lemma RemoveUndoesAdd(s: GroupState, stratumId: string, member: Ref)
    requires Add(s, stratumId, member).Ok?
    requires stratumId in s.group.strata
    requires Id(Get(s.heap, member).uniqueId.value) !in s.group.strata[stratumId]
    ensures var r := Add(s, stratumId, member).value;
      Remove(r.group, s.heap, stratumId, member) == s.group
  {
    var id := Get(s.heap, member).uniqueId.value;
    var ms := s.group.strata[stratumId];
    var added := ms + [Id(id)];
    assert IndexOfId(added, id) == |ms| by {
      IndexOfIdAppend(ms, id);
    }
    assert added[..|ms|] == ms;
    assert added[|ms| + 1..] == [];
    var r := Add(s, stratumId, member).value;
    assert r.group == s.group.(strata := s.group.strata[stratumId := added]);
    assert added[|ms|] == Id(id);
    assert Remove(r.group, s.heap, stratumId, member) ==
      r.group.(strata := r.group.strata[stratumId := added[..|ms|] + added[|ms| + 1..]]);
    assert s.group.strata[stratumId := added][stratumId := ms] == s.group.strata;
    assert added[..|ms|] + added[|ms| + 1..] == ms;
  }

  lemma {:induction false} IndexOfIdAppend(ms: seq<MemberRef>, id: string)
    requires Id(id) !in ms
    ensures IndexOfId(ms + [Id(id)], id) == |ms|
    decreases |ms|
  {
    if ms != [] {
      assert (ms + [Id(id)])[1..] == ms[1..] + [Id(id)];
      IndexOfIdAppend(ms[1..], id);
    }
  }

  /** `splice(moveFrom, 1)` then `splice(newIndex, 0, moved)`. */
  function MoveEntry(ms: seq<MemberRef>, from: nat, to: nat): (r: seq<MemberRef>)
    requires from < |ms| && to < |ms|
    ensures |r| == |ms|
    ensures r[to] == ms[from]
    ensures r[..to] + r[to + 1..] == ms[..from] + ms[from + 1..]
  {
    var rest := ms[..from] + ms[from + 1..];
    var r := rest[..to] + [ms[from]] + rest[to..];
    assert r[..to] == rest[..to];
    assert r[to + 1..] == rest[to..];
    r
  }

  /** Moving is a permutation. */
  lemma MoveEntryPermutes(ms: seq<MemberRef>, from: nat, to: nat)
    requires from < |ms| && to < |ms|
    ensures multiset(MoveEntry(ms, from, to)) == multiset(ms)
  {
    var r := MoveEntry(ms, from, to);
    assert r == r[..to] + [r[to]] + r[to + 1..];
    assert ms == ms[..from] + [ms[from]] + ms[from + 1..];
    calc {
      multiset(r);
      multiset(r[..to]) + multiset{r[to]} + multiset(r[to + 1..]);
      multiset(r[..to] + r[to + 1..]) + multiset{ms[from]};
      multiset(ms[..from] + ms[from + 1..]) + multiset{ms[from]};
      multiset(ms[..from]) + multiset{ms[from]} + multiset(ms[from + 1..]);
      multiset(ms);
    }
  }

  /** `moveMemberToIndex(stratumId, member, newIndex)`: the checks run in
      the source's order (no id, no entry at `newIndex`, not a member); the
      reordered copy of `members` is written to the given stratum. */
  function MoveMemberToIndex(g: Group, h: Heap, stratumId: string, member: Ref, newIndex: int): (r: Result<Group, GroupError>)
    ensures Get(h, member).uniqueId.None? ==> r == Err(NoUniqueId)
    ensures Get(h, member).uniqueId.Some? && !(0 <= newIndex < |Members(g).GetOr([])|) ==>
      r == Err(InvalidIndex(newIndex))
    ensures Get(h, member).uniqueId.Some? && 0 <= newIndex < |Members(g).GetOr([])| &&
            Id(Get(h, member).uniqueId.value) !in Members(g).GetOr([]) ==>
      r == Err(NotAMember(Get(h, member).uniqueId.value))
    ensures r.Ok? ==>
      var ms := Members(g).GetOr([]);
      var id := Get(h, member).uniqueId.value;
      StratumMembers(r.value, stratumId) == Some(MoveEntry(ms, IndexOfId(ms, id), newIndex)) &&
      forall s :: s != stratumId ==> StratumMembers(r.value, s) == StratumMembers(g, s)
  {
    match Get(h, member).uniqueId
    case None => Err(NoUniqueId)
    case Some(id) =>
      var ms := Members(g).GetOr([]);
      var from := IndexOfId(ms, id);
      if !(0 <= newIndex < |ms|) then Err(InvalidIndex(newIndex))
      else if from == -1 then Err(NotAMember(id))
      else Ok(g.(strata := g.strata[stratumId := MoveEntry(ms, from, newIndex)]))
  }

  /** A successful move writes a permutation of `members` with the member at
      `newIndex` and every other entry in its original order. */
  lemma MoveMemberPermutes(g: Group, h: Heap, stratumId: string, member: Ref, newIndex: int)
    requires MoveMemberToIndex(g, h, stratumId, member, newIndex).Ok?
    ensures var ms := Members(g).GetOr([]);
      var written := MoveMemberToIndex(g, h, stratumId, member, newIndex).value.strata[stratumId];
      var from := IndexOfId(ms, Get(h, member).uniqueId.value);
      multiset(written) == multiset(ms) &&
      written[newIndex] == Id(Get(h, member).uniqueId.value) &&
      written[..newIndex] + written[newIndex + 1..] == ms[..from] + ms[from + 1..]
  {
    var id := Get(h, member).uniqueId.value;
    var ms := Members(g).GetOr([]);
    var from := IndexOfId(ms, id);
    assert 0 <= from && 0 <= newIndex < |ms|;
    var moved := MoveEntry(ms, from, newIndex);
    assert MoveMemberToIndex(g, h, stratumId, member, newIndex).value == g.(strata := g.strata[stratumId := moved]);
    MoveEntryPermutes(ms, from, newIndex);
  }

  // ---------------------------------------------------------------------
  // Container ids and share keys

  /** Add `id` once to the `knownContainerUniqueIds` of each model listed. */
  function AddContainerToAll(h: Heap, models: seq<Ref>, id: string): (r: Heap)
    ensures forall m :: m in models ==> id in Get(r, m).knownContainerUniqueIds
    ensures forall m :: m !in models ==> Get(r, m) == Get(h, m)
    ensures forall m :: m in models ==>
      Get(r, m).(knownContainerUniqueIds := Get(h, m).knownContainerUniqueIds) == Get(h, m)
    decreases |models|
  {
    if models == [] then h
    else
      var m := models[0];
      var h' := SetContainers(h, m, AddIfAbsent(Get(h, m).knownContainerUniqueIds, id));
      var r := AddContainerToAll(h', models[1..], id);
      assert forall x :: x in models[1..] ==> x in models;
      r
  }

  /** Each listed model's list is its old list with `id` appended if it was absent. */
  lemma {:induction false} AddContainerToAllAdds(h: Heap, models: seq<Ref>, id: string)
    ensures forall m :: m in models ==>
      Get(AddContainerToAll(h, models, id), m).knownContainerUniqueIds ==
        AddIfAbsent(Get(h, m).knownContainerUniqueIds, id)
    decreases |models|
  {
    if models != [] {
      var m0 := models[0];
      var h' := SetContainers(h, m0, AddIfAbsent(Get(h, m0).knownContainerUniqueIds, id));
      AddContainerToAllAdds(h', models[1..], id);
      forall m | m in models
        ensures Get(AddContainerToAll(h, models, id), m).knownContainerUniqueIds ==
          AddIfAbsent(Get(h, m).knownContainerUniqueIds, id)
      {
        if m == m0 && m in models[1..] {
          var once := AddIfAbsent(Get(h, m).knownContainerUniqueIds, id);
          assert AddIfAbsent(once, id) == once;
        }
      }
    }
  }

  /** `refreshKnownContainerUniqueIds(uniqueId)`: nothing for an undefined
      or empty id; otherwise every member model lists it once. */
  function RefreshKnownContainerUniqueIds(reg: Registry.Registry, g: Group, h: Heap, uniqueId: Option<string>): (r: Heap)
    ensures uniqueId.None? || uniqueId.value == "" ==> r == h
    ensures uniqueId.Some? && uniqueId.value != "" ==>
      forall m :: m in MemberModels(reg, g) ==> uniqueId.value in Get(r, m).knownContainerUniqueIds
    ensures uniqueId.Some? && uniqueId.value != "" ==>
      forall m :: m in MemberModels(reg, g) ==>
        Get(r, m) == Get(h, m).(knownContainerUniqueIds := AddIfAbsent(Get(h, m).knownContainerUniqueIds, uniqueId.value))
    ensures forall m :: m !in MemberModels(reg, g) ==> Get(r, m) == Get(h, m)
  {
    match uniqueId
    case None => h
    case Some(id) =>
      if id == "" then h
      else
        AddContainerToAllAdds(h, MemberModels(reg, g), id);
        AddContainerToAll(h, MemberModels(reg, g), id)
  }

  /** Adding a container id that is already listed changes nothing. */
  lemma {:induction false} AddContainerToAllNoop(h: Heap, models: seq<Ref>, id: string)
    requires forall m :: m in models ==> id in Get(h, m).knownContainerUniqueIds
    ensures AddContainerToAll(h, models, id) == h
    decreases |models|
  {
    if models != [] {
      var m := models[0];
      var h' := SetContainers(h, m, AddIfAbsent(Get(h, m).knownContainerUniqueIds, id));
      assert h' == h;
      AddContainerToAllNoop(h', models[1..], id);
    }
  }

  /** Refreshing twice is the same as refreshing once. */
  lemma RefreshIdempotent(reg: Registry.Registry, g: Group, h: Heap, uniqueId: Option<string>)
    ensures var once := RefreshKnownContainerUniqueIds(reg, g, h, uniqueId);
      RefreshKnownContainerUniqueIds(reg, g, once, uniqueId) == once
  {
    var once := RefreshKnownContainerUniqueIds(reg, g, h, uniqueId);
    if uniqueId.Some? && uniqueId.value != "" {
      AddContainerToAllNoop(once, MemberModels(reg, g), uniqueId.value);
    }
  }

  /** For one member id: register the id with the group id's first
      occurrence replaced by each of the group's share keys. */
  function AddMemberShareKeys(reg: Registry.Registry, memberId: string, groupId: string, shareKeys: seq<string>): (r: Registry.Registry)
    ensures r.models == reg.models
    ensures forall sk :: sk in reg.shareKeys ==> sk in r.shareKeys && r.shareKeys[sk] == reg.shareKeys[sk]
    ensures forall k :: 0 <= k < |shareKeys| && ReplaceFirst(memberId, groupId, shareKeys[k]) != memberId ==>
      ReplaceFirst(memberId, groupId, shareKeys[k]) in r.shareKeys
    decreases |shareKeys|
  {
    if shareKeys == [] then reg
    else
      var next := Registry.AddShareKey(reg, memberId, ReplaceFirst(memberId, groupId, shareKeys[0]));
      AddMemberShareKeys(next, memberId, groupId, shareKeys[1..])
  }

  /** Some share key of the group turns the member id `id` into `key`. */
  ghost predicate Derives(id: string, groupId: string, shareKeys: seq<string>, key: string) {
    exists k :: 0 <= k < |shareKeys| && ReplaceFirst(id, groupId, shareKeys[k]) == key
  }

  /** Every key `AddMemberShareKeys` adds maps to the member and is derived
      from one of the share keys; every derived key that was free (and is
      not the member id itself) now maps to the member. */
  lemma {:induction false} AddMemberShareKeysMaps(reg: Registry.Registry, memberId: string, groupId: string, shareKeys: seq<string>)
    ensures var r := AddMemberShareKeys(reg, memberId, groupId, shareKeys);
      (forall sk :: sk in r.shareKeys && sk !in reg.shareKeys ==>
        r.shareKeys[sk] == memberId && Derives(memberId, groupId, shareKeys, sk)) &&
      (forall k :: (0 <= k < |shareKeys| && ReplaceFirst(memberId, groupId, shareKeys[k]) != memberId &&
                    ReplaceFirst(memberId, groupId, shareKeys[k]) !in reg.shareKeys) ==>
        r.shareKeys[ReplaceFirst(memberId, groupId, shareKeys[k])] == memberId)
    decreases |shareKeys|
  {
    if shareKeys != [] {
      var key := ReplaceFirst(memberId, groupId, shareKeys[0]);
      var next := Registry.AddShareKey(reg, memberId, key);
      var rest := shareKeys[1..];
      AddMemberShareKeysMaps(next, memberId, groupId, rest);
      var r := AddMemberShareKeys(reg, memberId, groupId, shareKeys);
      assert r == AddMemberShareKeys(next, memberId, groupId, rest);
      forall sk | sk in r.shareKeys && sk !in reg.shareKeys
        ensures r.shareKeys[sk] == memberId && Derives(memberId, groupId, shareKeys, sk)
      {
        if sk in next.shareKeys {
          assert sk == key;
          assert ReplaceFirst(memberId, groupId, shareKeys[0]) == sk;
        } else {
          var k :| 0 <= k < |rest| && ReplaceFirst(memberId, groupId, rest[k]) == sk;
          assert rest[k] == shareKeys[k + 1];
        }
      }
      forall k | (0 <= k < |shareKeys| && ReplaceFirst(memberId, groupId, shareKeys[k]) != memberId &&
                  ReplaceFirst(memberId, groupId, shareKeys[k]) !in reg.shareKeys)
        ensures r.shareKeys[ReplaceFirst(memberId, groupId, shareKeys[k])] == memberId
      {
        var sk := ReplaceFirst(memberId, groupId, shareKeys[k]);
        if sk in next.shareKeys {
          assert sk == key;
        } else {
          assert k > 0 && rest[k - 1] == shareKeys[k];
        }
      }
    }
  }

  /** The member ids that `addShareKeysToMembers` derives keys for: those containing the group id. */
  function DerivingMembers(h: Heap, models: seq<Ref>, groupId: string): (r: seq<string>)
    ensures forall i :: 0 <= i < |r| ==> Includes(r[i], groupId)
    ensures forall i :: 0 <= i < |r| ==> exists m :: m in models && Get(h, m).uniqueId == Some(r[i])
    ensures forall m :: m in models && Get(h, m).uniqueId.Some? && Includes(Get(h, m).uniqueId.value, groupId) ==>
      Get(h, m).uniqueId.value in r
  {
    if models == [] then []
    else
      var id := Get(h, models[0]).uniqueId;
      (if id.Some? && Includes(id.value, groupId) then [id.value] else []) + DerivingMembers(h, models[1..], groupId)
  }

  function AddShareKeysForAll(reg: Registry.Registry, ids: seq<string>, groupId: string, shareKeys: seq<string>): (r: Registry.Registry)
    ensures r.models == reg.models
    decreases |ids|
  {
    if ids == [] then reg
    else AddShareKeysForAll(AddMemberShareKeys(reg, ids[0], groupId, shareKeys), ids[1..], groupId, shareKeys)
  }

  /** Across all members: keys already registered keep their ids, and every
      new key maps to one of the members and is derived from its id. */
  lemma {:induction false} AddShareKeysForAllMaps(reg: Registry.Registry, ids: seq<string>, groupId: string, shareKeys: seq<string>)
    ensures var r := AddShareKeysForAll(reg, ids, groupId, shareKeys);
      (forall sk :: sk in reg.shareKeys ==> sk in r.shareKeys && r.shareKeys[sk] == reg.shareKeys[sk]) &&
      (forall sk :: sk in r.shareKeys && sk !in reg.shareKeys ==>
        r.shareKeys[sk] in ids && Derives(r.shareKeys[sk], groupId, shareKeys, sk))
    decreases |ids|
  {
    if ids != [] {
      var next := AddMemberShareKeys(reg, ids[0], groupId, shareKeys);
      AddMemberShareKeysMaps(reg, ids[0], groupId, shareKeys);
      AddShareKeysForAllMaps(next, ids[1..], groupId, shareKeys);
      assert forall x :: x in ids[1..] ==> x in ids;
    }
  }

  /** A free derived key of exactly one member id ends up mapping to that id,
      whatever the order of the members. */
  lemma {:induction false} AddShareKeysForAllSole(reg: Registry.Registry, ids: seq<string>, groupId: string,
                                                  shareKeys: seq<string>, i: nat, key: string)
    requires i < |ids|
    requires Derives(ids[i], groupId, shareKeys, key) && key != ids[i] && key !in reg.shareKeys
    requires forall j :: 0 <= j < |ids| && Derives(ids[j], groupId, shareKeys, key) ==> ids[j] == ids[i]
    ensures var r := AddShareKeysForAll(reg, ids, groupId, shareKeys);
      key in r.shareKeys && r.shareKeys[key] == ids[i]
    decreases |ids|
  {
    var next := AddMemberShareKeys(reg, ids[0], groupId, shareKeys);
    AddMemberShareKeysMaps(reg, ids[0], groupId, shareKeys);
    if ids[0] == ids[i] {
      var k :| 0 <= k < |shareKeys| && ReplaceFirst(ids[i], groupId, shareKeys[k]) == key;
      assert next.shareKeys[key] == ids[i];
      AddShareKeysForAllMaps(next, ids[1..], groupId, shareKeys);
    } else {
      assert key !in next.shareKeys;
      assert ids[1..][i - 1] == ids[i];
      forall j | 0 <= j < |ids[1..]| && Derives(ids[1..][j], groupId, shareKeys, key)
        ensures ids[1..][j] == ids[1..][i - 1]
      {
        assert ids[1..][j] == ids[j + 1];
      }
      AddShareKeysForAllSole(next, ids[1..], groupId, shareKeys, i - 1, key);
    }
  }

  /** `addShareKeysToMembers`: nothing without a non-empty group id or
      without share keys for it; otherwise derived keys for each member
      whose id contains the group id. */
  function AddShareKeysToMembers(reg: Registry.Registry, g: Group, h: Heap): (r: Registry.Registry)
    ensures r.models == reg.models
    ensures g.uniqueId.None? || g.uniqueId.value == "" ==> r == reg
    ensures g.uniqueId.Some? && (g.uniqueId.value !in reg.idShareKeys || reg.idShareKeys[g.uniqueId.value] == []) ==> r == reg
  {
    match g.uniqueId
    case None => reg
    case Some(groupId) =>
      if groupId == "" || groupId !in reg.idShareKeys || reg.idShareKeys[groupId] == [] then reg
      else AddShareKeysForAll(reg, DerivingMembers(h, MemberModels(reg, g), groupId), groupId, reg.idShareKeys[groupId])
  }

  /** Every key `addShareKeysToMembers` adds maps to a member whose id
      contains the group id, and is derived from that id by one of the
      group's share keys; registered keys keep their ids. */
  lemma AddShareKeysToMembersOnlyDerived(reg: Registry.Registry, g: Group, h: Heap)
    requires g.uniqueId.Some? && g.uniqueId.value in reg.idShareKeys
    ensures var r := AddShareKeysToMembers(reg, g, h);
      var groupId := g.uniqueId.value;
      (forall sk :: sk in reg.shareKeys ==> sk in r.shareKeys && r.shareKeys[sk] == reg.shareKeys[sk]) &&
      (forall sk :: sk in r.shareKeys && sk !in reg.shareKeys ==>
        r.shareKeys[sk] in DerivingMembers(h, MemberModels(reg, g), groupId) &&
        Derives(r.shareKeys[sk], groupId, reg.idShareKeys[groupId], sk))
  {
    var groupId := g.uniqueId.value;
    AddShareKeysForAllMaps(reg, DerivingMembers(h, MemberModels(reg, g), groupId), groupId, reg.idShareKeys[groupId]);
  }

  /** After `addShareKeysToMembers`, a member can be found by the key derived
      from its id with any of the group's share keys, as long as that key
      was free and no other member derives the same key. */
  lemma AddShareKeysToMembersResolves(reg: Registry.Registry, g: Group, h: Heap, m: Ref, k: nat)
    requires g.uniqueId.Some? && g.uniqueId.value != "" && g.uniqueId.value in reg.idShareKeys
    requires k < |reg.idShareKeys[g.uniqueId.value]|
    requires m in MemberModels(reg, g) && Get(h, m).uniqueId.Some?
    requires Includes(Get(h, m).uniqueId.value, g.uniqueId.value)
    requires var groupId := g.uniqueId.value;
      var memberId := Get(h, m).uniqueId.value;
      var key := ReplaceFirst(memberId, groupId, reg.idShareKeys[groupId][k]);
      key != memberId && key !in reg.models && key !in reg.shareKeys &&
      forall x :: (x in DerivingMembers(h, MemberModels(reg, g), groupId) &&
                   Derives(x, groupId, reg.idShareKeys[groupId], key)) ==> x == memberId
    ensures var groupId := g.uniqueId.value;
      var memberId := Get(h, m).uniqueId.value;
      var key := ReplaceFirst(memberId, groupId, reg.idShareKeys[groupId][k]);
      Registry.GetModelByIdOrShareKey(AddShareKeysToMembers(reg, g, h), key) == Registry.GetModelById(reg, memberId)
  {
    var groupId := g.uniqueId.value;
    var memberId := Get(h, m).uniqueId.value;
    var keys := reg.idShareKeys[groupId];
    var key := ReplaceFirst(memberId, groupId, keys[k]);
    var ids := DerivingMembers(h, MemberModels(reg, g), groupId);
    assert memberId in ids;
    var i :| 0 <= i < |ids| && ids[i] == memberId;
    assert Derives(ids[i], groupId, keys, key);
    AddShareKeysForAllSole(reg, ids, groupId, keys, i, key);
  }

  /** Group "g1" once shared as "g0", with member "g1/item": the member can
      be found by the old key "g0/item". */
  lemma ShareKeyDerivationExample()
    ensures var reg := Registry.Registry(map["g1" := 1, "g1/item" := 2], map["g0" := "g1"], map["g1" := ["g0"]]);
      var g := Group(Some("g1"), map["definition" := [Id("g1/item")]], ["definition"]);
      var h := map[2 := Blank.(uniqueId := Some("g1/item"))];
      var r := AddShareKeysToMembers(reg, g, h);
      Registry.GetModelByIdOrShareKey(r, "g0/item") == Some(2)
  {
    var reg := Registry.Registry(map["g1" := 1, "g1/item" := 2], map["g0" := "g1"], map["g1" := ["g0"]]);
    var g := Group(Some("g1"), map["definition" := [Id("g1/item")]], ["definition"]);
    var h := map[2 := Blank.(uniqueId := Some("g1/item"))];
    assert MemberModels(reg, g) == [2];
    assert OccursAt("g1/item", "g1", 0);
    assert Includes("g1/item", "g1");
    assert DerivingMembers(h, [2], "g1") == ["g1/item"];
    ReplaceFirstOfPrefix("g1", "/item", "g0");
    assert "g1" + "/item" == "g1/item";
    assert "g0" + "/item" == "g0/item";
    assert ReplaceFirst("g1/item", "g1", "g0") == "g0/item";
    var added := Registry.AddShareKey(reg, "g1/item", "g0/item");
    assert AddMemberShareKeys(reg, "g1/item", "g1", ["g0"]) == added;
    assert AddShareKeysForAll(reg, ["g1/item"], "g1", ["g0"]) == added;
    assert AddShareKeysToMembers(reg, g, h) == added;
    assert added.shareKeys["g0/item"] == "g1/item";
  }

  // ---------------------------------------------------------------------
  // loadMembers, addMembersFromJson

  /** The state `loadMembers` reads and writes. */
  datatype Catalog = Catalog(reg: Registry.Registry, group: Group, heap: Heap)

  /** `loadMembers`: load the metadata (for a catalog member), then the
      members. `loaded` is the catalog once the member loader has run,
      whether it finished or threw: the models it created and registered,
      and the group's members as it set them. The finally block refreshes
      container ids and share keys on whatever state was reached, which is
      `c` itself when the metadata failed and the loader never ran. The
      first failure is rethrown. */
  function LoadMembers(c: Catalog, metadata: Option<Thrown>, load: Option<Thrown>, loaded: Catalog): (r: (Catalog, Option<Thrown>))
    ensures r.1 == (if metadata.Some? then metadata else load)
    ensures var s := if metadata.Some? then c else loaded;
      r.0.group == s.group && r.0.reg.models == s.reg.models &&
      r.0.heap == RefreshKnownContainerUniqueIds(s.reg, s.group, s.heap, s.group.uniqueId) &&
      r.0.reg == AddShareKeysToMembers(s.reg, s.group, r.0.heap)
    ensures r.0.group.uniqueId.Some? && r.0.group.uniqueId.value != "" ==>
      forall m :: m in MemberModels(r.0.reg, r.0.group) ==>
        r.0.group.uniqueId.value in Get(r.0.heap, m).knownContainerUniqueIds
  {
    var s := if metadata.Some? then c else loaded;
    var h := RefreshKnownContainerUniqueIds(s.reg, s.group, s.heap, s.group.uniqueId);
    var reg := AddShareKeysToMembers(s.reg, s.group, h);
    ResolveMembersReadsModels(reg, s.reg, Members(s.group).GetOr([]));
    (Catalog(reg, s.group, h), if metadata.Some? then metadata else load)
  }

  /** A loader that registers a new member "g/a" and lists it: the refresh
      after the load records "g" in that member, which the registry before
      the load did not know. */
  lemma LoadMembersSeesLoadedMembers()
    ensures var c := Catalog(Registry.Registry(map["g" := 1], map[], map[]),
                             Group(Some("g"), map[], ["definition"]),
                             map[1 := Blank.(uniqueId := Some("g"))]);
      var loaded := Catalog(Registry.Registry(map["g" := 1, "g/a" := 2], map[], map[]),
                            Group(Some("g"), map["definition" := [Id("g/a")]], ["definition"]),
                            map[1 := Blank.(uniqueId := Some("g")), 2 := Blank.(uniqueId := Some("g/a"))]);
      var r := LoadMembers(c, None, None, loaded);
      MemberModels(c.reg, loaded.group) == [] &&
      r.1 == None && MemberModels(r.0.reg, r.0.group) == [2] &&
      Get(r.0.heap, 2).knownContainerUniqueIds == ["g"]
  {
    var loaded := Catalog(Registry.Registry(map["g" := 1, "g/a" := 2], map[], map[]),
                          Group(Some("g"), map["definition" := [Id("g/a")]], ["definition"]),
                          map[1 := Blank.(uniqueId := Some("g")), 2 := Blank.(uniqueId := Some("g/a"))]);
    assert Members(loaded.group) == Some([Id("g/a")]);
    assert MemberModels(loaded.reg, loaded.group) == [2];
    assert MemberModels(Registry.Registry(map["g" := 1], map[], map[]), loaded.group) == [];
  }

  /** Even when loading fails, every member model lists the group afterwards. */
  lemma LoadMembersRefreshesOnFailure(c: Catalog, metadata: Option<Thrown>, load: Option<Thrown>, loaded: Catalog)
    requires c.group.uniqueId.Some? && c.group.uniqueId.value != ""
    requires metadata.Some?
    ensures var r := LoadMembers(c, metadata, load, loaded);
      r.1 == metadata &&
      forall m :: m in MemberModels(c.reg, c.group) ==> c.group.uniqueId.value in Get(r.0.heap, m).knownContainerUniqueIds
  {
  }

  /** Why `addMembersFromJson` threw part-way. */
  datatype AddFailure =
    /** `add` read `uniqueId` of `undefined`: an id did not resolve (a `TypeError`). */
    | UnresolvedId(id: string)
    /** `add` threw its `DeveloperError`: the model has no `uniqueId`. */
    | MemberWithoutId

  /** What `addMembersFromJson` ends with: either it returned (with an
      optional error) or it threw, after the adds before the failing one ran. */
  datatype AddMembersOutcome =
    | Returned(state: GroupState, error: Option<TerriaError>)
    | Threw(state: GroupState, failure: AddFailure)

  /** `add` for each id in turn, resolved through the registry. */
  function AddResolved(s: GroupState, reg: Registry.Registry, stratumId: string, ids: seq<string>): (r: Result<GroupState, (GroupState, AddFailure)>)
    ensures (forall i :: 0 <= i < |ids| ==> Registry.GetModelById(reg, ids[i]).None?) && ids != [] ==>
      r == Err((s, UnresolvedId(ids[0])))
    ensures (exists i :: 0 <= i < |ids| && Registry.GetModelById(reg, ids[i]).None?) ==> r.Err?
    decreases |ids|
  {
    if ids == [] then Ok(s)
    else
      match Registry.GetModelById(reg, ids[0])
      case None => Err((s, UnresolvedId(ids[0])))
      case Some(m) =>
        match Add(s, stratumId, m)
        case Ok(s') =>
          var r := AddResolved(s', reg, stratumId, ids[1..]);
          assert forall i :: 0 < i < |ids| ==> ids[i] == ids[1..][i - 1];
          r
        case Err(_) => Err((s, MemberWithoutId))
  }

  /** Every id is registered, to a model that carries that id. */
  predicate RegisteredAs(reg: Registry.Registry, h: Heap, ids: seq<string>) {
    forall i :: 0 <= i < |ids| ==> ids[i] in reg.models && Get(h, reg.models[ids[i]]).uniqueId == Some(ids[i])
  }

  /** The ids as `members` entries. */
  function IdRefs(ids: seq<string>): (r: seq<MemberRef>)
    ensures |r| == |ids| && forall i :: 0 <= i < |ids| ==> r[i] == Id(ids[i])
  {
    seq(|ids|, i requires 0 <= i < |ids| => Id(ids[i]))
  }

  lemma IdRefsCons(ids: seq<string>)
    requires ids != []
    ensures IdRefs(ids) == [Id(ids[0])] + IdRefs(ids[1..])
  {
    assert forall i :: 0 < i < |ids| ==> IdRefs(ids)[i] == IdRefs(ids[1..])[i - 1];
  }

  /** One step of `AddResolved` on a resolving id: `add` succeeds, appends
      the id, keeps every model id and recorded container, and records the
      group in the member. */
  lemma AddResolvedStep(s: GroupState, reg: Registry.Registry, stratumId: string, ids: seq<string>)
    requires ids != [] && RegisteredAs(reg, s.heap, ids)
    ensures Add(s, stratumId, reg.models[ids[0]]).Ok?
    ensures var s' := Add(s, stratumId, reg.models[ids[0]]).value;
      AddResolved(s, reg, stratumId, ids) == AddResolved(s', reg, stratumId, ids[1..]) &&
      RegisteredAs(reg, s'.heap, ids[1..]) &&
      s'.group == AppendMember(s.group, stratumId, ids[0]) &&
      (forall q :: Get(s'.heap, q).uniqueId == Get(s.heap, q).uniqueId) &&
      (forall q, x :: x in Get(s.heap, q).knownContainerUniqueIds ==> x in Get(s'.heap, q).knownContainerUniqueIds) &&
      (s.group.uniqueId.Some? ==> s.group.uniqueId.value in Get(s'.heap, reg.models[ids[0]]).knownContainerUniqueIds)
  {
    var s' := Add(s, stratumId, reg.models[ids[0]]).value;
    forall k | 0 <= k < |ids[1..]|
      ensures ids[1..][k] in reg.models && Get(s'.heap, reg.models[ids[1..][k]]).uniqueId == Some(ids[1..][k])
    {
      assert ids[1..][k] == ids[k + 1];
    }
  }

  /** `g1` is `g0` with `added` appended to the stratum's list (created if
      absent), and nothing else changed. */
  ghost predicate Extends(g0: Group, g1: Group, stratumId: string, added: seq<MemberRef>) {
    g1.uniqueId == g0.uniqueId && g1.order == g0.order &&
    StratumMembers(g1, stratumId) == Some(StratumMembers(g0, stratumId).GetOr([]) + added) &&
    forall t :: t != stratumId ==> StratumMembers(g1, t) == StratumMembers(g0, t)
  }

  lemma ExtendsTrans(g0: Group, g1: Group, g2: Group, stratumId: string, a: seq<MemberRef>, b: seq<MemberRef>)
    requires Extends(g0, g1, stratumId, a) && Extends(g1, g2, stratumId, b)
    ensures Extends(g0, g2, stratumId, a + b)
  {
    var x := StratumMembers(g0, stratumId).GetOr([]);
    assert StratumMembers(g1, stratumId).GetOr([]) == x + a;
    assert (x + a) + b == x + (a + b);
  }

  /** When every id resolves, each is added in turn: the stratum's list gains
      the ids in order and no other stratum changes. */
  lemma {:induction false} AddResolvedAppends(s: GroupState, reg: Registry.Registry, stratumId: string, ids: seq<string>)
    requires RegisteredAs(reg, s.heap, ids)
    ensures AddResolved(s, reg, stratumId, ids).Ok?
    ensures ids == [] ==> AddResolved(s, reg, stratumId, ids).value == s
    ensures ids != [] ==> Extends(s.group, AddResolved(s, reg, stratumId, ids).value.group, stratumId, IdRefs(ids))
    decreases |ids|
  {
    if ids != [] {
      AddResolvedStep(s, reg, stratumId, ids);
      var s' := Add(s, stratumId, reg.models[ids[0]]).value;
      AddResolvedAppends(s', reg, stratumId, ids[1..]);
      assert Extends(s.group, s'.group, stratumId, [Id(ids[0])]);
      IdRefsCons(ids);
      if ids[1..] == [] {
        assert IdRefs(ids) == [Id(ids[0])];
        assert AddResolved(s, reg, stratumId, ids).value == s';
        assert Extends(s.group, s'.group, stratumId, IdRefs(ids));
      } else {
        ExtendsTrans(s.group, s'.group, AddResolved(s', reg, stratumId, ids[1..]).value.group,
                     stratumId, [Id(ids[0])], IdRefs(ids[1..]));
      }
    }
  }

  /** When every id resolves, a group with an id is recorded in every added
      model; model ids never change and no recorded container is lost. */
  lemma {:induction false} AddResolvedRecords(s: GroupState, reg: Registry.Registry, stratumId: string, ids: seq<string>)
    requires RegisteredAs(reg, s.heap, ids)
    ensures AddResolved(s, reg, stratumId, ids).Ok?
    ensures var h := AddResolved(s, reg, stratumId, ids).value.heap;
      (forall q :: Get(h, q).uniqueId == Get(s.heap, q).uniqueId) &&
      (forall q, x :: x in Get(s.heap, q).knownContainerUniqueIds ==> x in Get(h, q).knownContainerUniqueIds)
    ensures s.group.uniqueId.Some? ==> forall i :: 0 <= i < |ids| ==>
      s.group.uniqueId.value in Get(AddResolved(s, reg, stratumId, ids).value.heap, reg.models[ids[i]]).knownContainerUniqueIds
    decreases |ids|
  {
    if ids != [] {
      AddResolvedStep(s, reg, stratumId, ids);
      var s' := Add(s, stratumId, reg.models[ids[0]]).value;
      AddResolvedRecords(s', reg, stratumId, ids[1..]);
      if s.group.uniqueId.Some? {
        var h := AddResolved(s, reg, stratumId, ids).value.heap;
        forall i | 0 <= i < |ids|
          ensures s.group.uniqueId.value in Get(h, reg.models[ids[i]]).knownContainerUniqueIds
        {
          if i > 0 {
            assert ids[i] == ids[1..][i - 1];
          }
        }
      }
    }
  }

  /** At the first id that does not resolve, `add` reads `uniqueId` of
      `undefined` and throws; the ids before it have been added. */
  lemma {:induction false} AddResolvedStopsAt(s: GroupState, reg: Registry.Registry, stratumId: string, ids: seq<string>, i: nat)
    requires i < |ids| && RegisteredAs(reg, s.heap, ids[..i]) && ids[i] !in reg.models
    ensures AddResolved(s, reg, stratumId, ids[..i]).Ok?
    ensures AddResolved(s, reg, stratumId, ids) ==
            Err((AddResolved(s, reg, stratumId, ids[..i]).value, UnresolvedId(ids[i])))
    decreases i
  {
    AddResolvedAppends(s, reg, stratumId, ids[..i]);
    if i > 0 {
      AddResolvedStep(s, reg, stratumId, ids[..i]);
      assert ids[..i][0] == ids[0];
      var s' := Add(s, stratumId, reg.models[ids[0]]).value;
      assert ids[1..][..i - 1] == ids[..i][1..];
      AddResolvedStopsAt(s', reg, stratumId, ids[1..], i - 1);
    }
  }

  /** The message `addMembersFromJson` wraps a decoding error with. */
  function FromJsonErrorMessage(g: Group): string {
    "Failed to add members from JSON for model `" + g.uniqueId.GetOr("undefined") + "`"
  }

  /** `addMembersFromJson(stratumId, json)`: `decoded` is the members trait's
      `fromJson` result (ids, error); every decoded id is added, and a
      decoding error is wrapped. */
  function AddMembersFromJson(s: GroupState, reg: Registry.Registry, stratumId: string,
                              decoded: (Option<seq<string>>, Option<TerriaError>)): (r: AddMembersOutcome)
    ensures decoded.0.None? ==> r == Returned(s, if decoded.1.Some? then
      Some(From(ThrownTerria(decoded.1.value), Some(MessageOverride(FromJsonErrorMessage(s.group))))) else None)
    ensures r.Returned? && decoded.1.Some? ==>
      r.error == Some(CreateParentError(decoded.1.value, Some(MessageOverride(FromJsonErrorMessage(s.group)))))
    ensures r.Returned? && decoded.1.None? ==> r.error.None?
    ensures (decoded.0.Some? &&
             exists i :: 0 <= i < |decoded.0.value| && Registry.GetModelById(reg, decoded.0.value[i]).None?) ==>
      r.Threw?
  {
    var added := if decoded.0.Some? then AddResolved(s, reg, stratumId, decoded.0.value) else Ok(s);
    match added
    case Err((partial, failure)) => Threw(partial, failure)
    case Ok(s') =>
      Returned(s', if decoded.1.Some? then
        Some(From(ThrownTerria(decoded.1.value), Some(MessageOverride(FromJsonErrorMessage(s.group))))) else None)
  }

  /** When every decoded id resolves, `addMembersFromJson` returns with the
      ids appended to the stratum in order, and the wrapped decoding error
      if there was one. */
  lemma AddMembersFromJsonAdds(s: GroupState, reg: Registry.Registry, stratumId: string,
                               ids: seq<string>, error: Option<TerriaError>)
    requires ids != [] && RegisteredAs(reg, s.heap, ids)
    ensures var r := AddMembersFromJson(s, reg, stratumId, (Some(ids), error));
      r.Returned? && Extends(s.group, r.state.group, stratumId, IdRefs(ids)) &&
      (s.group.uniqueId.Some? ==> forall i :: 0 <= i < |ids| ==>
        s.group.uniqueId.value in Get(r.state.heap, reg.models[ids[i]]).knownContainerUniqueIds) &&
      (r.error.None? <==> error.None?)
  {
    AddResolvedAppends(s, reg, stratumId, ids);
    AddResolvedRecords(s, reg, stratumId, ids);
  }

  /** At the first decoded id that does not resolve, `addMembersFromJson`
      throws, with the ids before it added. */
  lemma AddMembersFromJsonThrowsAt(s: GroupState, reg: Registry.Registry, stratumId: string,
                                   ids: seq<string>, error: Option<TerriaError>, i: nat)
    requires i < |ids| && RegisteredAs(reg, s.heap, ids[..i]) && ids[i] !in reg.models
    ensures AddResolved(s, reg, stratumId, ids[..i]).Ok?
    ensures AddMembersFromJson(s, reg, stratumId, (Some(ids), error)) ==
            Threw(AddResolved(s, reg, stratumId, ids[..i]).value, UnresolvedId(ids[i]))
  {
    AddResolvedStopsAt(s, reg, stratumId, ids, i);
  }
}
