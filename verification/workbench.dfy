/** The workbench: the ordered list of active models.

    The list stores models as added (a reference stays a reference); the
    `items` view dereferences every entry. Insertion keeps four blocks in
    order, driven by each item's `supportsReordering` and `keepOnTop`:
    non-reorderable items above reorderable ones, and within each class the
    `keepOnTop` items first. */
module Workbench {
  import opened Wrappers
  import opened Models
  import opened TerriaErrors

  // ---------------------------------------------------------------------
  // The stored list and its dereferenced view

  /** The `items` getter: every stored entry dereferenced. */
  function Items(h: Heap, stored: seq<Ref>): (items: seq<Ref>)
    ensures |items| == |stored|
    ensures forall i :: 0 <= i < |stored| ==> items[i] == Deref(h, stored[i])
  {
    seq(|stored|, i requires 0 <= i < |stored| => Deref(h, stored[i]))
  }

  /** The `items` setter: the list is replaced verbatim, without any ordering rule. */
  function SetItems(h: Heap, stored: seq<Ref>, newItems: seq<Ref>): (s: seq<Ref>)
    ensures Items(h, s) == Items(h, newItems)
    ensures |s| == |newItems|
  {
    newItems
  }

  /** The `findIndex` test of `indexOf`: `model` is an entry of `items`. */
  predicate Matches(h: Heap, model: Ref, item: Ref) {
    model == item || Deref(h, model) == Deref(h, item)
  }

  /** `indexOf`: position of the first entry of `items` that is the item or
      dereferences to the same model, or -1. */
  function IndexOf(h: Heap, stored: seq<Ref>, item: Ref): (r: int)
    ensures -1 <= r < |stored|
    ensures r >= 0 ==> Matches(h, Deref(h, stored[r]), item)
    ensures r >= 0 ==> forall j :: 0 <= j < r ==> !Matches(h, Deref(h, stored[j]), item)
    ensures r == -1 ==> forall j :: 0 <= j < |stored| ==> !Matches(h, Deref(h, stored[j]), item)
  {
    if |stored| == 0 then -1
    else if Matches(h, Deref(h, stored[0]), item) then 0
    else
      var k := IndexOf(h, stored[1..], item);
      if k == -1 then -1 else k + 1
  }

  predicate Contains(h: Heap, stored: seq<Ref>, item: Ref) {
    IndexOf(h, stored, item) >= 0
  }

  lemma ContainsIff(h: Heap, stored: seq<Ref>, item: Ref)
    ensures Contains(h, stored, item) <==>
      exists j :: 0 <= j < |stored| && Matches(h, Deref(h, stored[j]), item)
  {
  }

  /** `remove`: delete the first matching entry; nothing if none matches. */
  function Remove(h: Heap, stored: seq<Ref>, item: Ref): (s: seq<Ref>)
    ensures !Contains(h, stored, item) ==> s == stored
    ensures Contains(h, stored, item) ==>
      var i := IndexOf(h, stored, item);
      |s| == |stored| - 1 && s[..i] == stored[..i] && s[i..] == stored[i + 1..]
  {
    var i := IndexOf(h, stored, item);
    if i < 0 then stored else stored[..i] + stored[i + 1..]
  }

  // ---------------------------------------------------------------------
  // Ordering flags and the four-block invariant

  datatype Flags = Flags(reorderable: bool, onTop: bool)

  function FlagsOf(h: Heap, r: Ref): Flags {
    Flags(SupportsReordering(h, r), KeepOnTop(h, r))
  }

  /** Flags of every entry of `items`. */
  function ItemFlags(h: Heap, stored: seq<Ref>): (fs: seq<Flags>)
    ensures |fs| == |stored|
    ensures forall i :: 0 <= i < |stored| ==> fs[i] == FlagsOf(h, Deref(h, stored[i]))
  {
    seq(|stored|, i requires 0 <= i < |stored| => FlagsOf(h, Deref(h, stored[i])))
  }

  /** Block number: 0 non-reorderable keepOnTop, 1 non-reorderable other,
      2 reorderable keepOnTop, 3 reorderable other. */
  function Rank(f: Flags): nat {
    (if f.reorderable then 2 else 0) + (if f.onTop then 0 else 1)
  }

  ghost predicate Ordered(fs: seq<Flags>) {
    forall i, j :: 0 <= i < j < |fs| ==> Rank(fs[i]) <= Rank(fs[j])
  }

  /** First loop, reorderable item: advance past non-reorderable entries. */
  function SkipFixed(fs: seq<Flags>, i: nat): (j: nat)
    requires i <= |fs|
    ensures i <= j <= |fs|
    ensures forall k :: i <= k < j ==> !fs[k].reorderable
    ensures j == |fs| || fs[j].reorderable
    decreases |fs| - i
  {
    if i < |fs| && !fs[i].reorderable then SkipFixed(fs, i + 1) else i
  }

  /** First loop, non-reorderable item: step back above reorderable entries. */
  function RetreatReorderable(fs: seq<Flags>, i: nat): (j: nat)
    requires i <= |fs|
    ensures j <= i
    ensures forall k :: j <= k < i ==> fs[k].reorderable
    ensures j == 0 || !fs[j - 1].reorderable
  {
    if i > 0 && fs[i - 1].reorderable then RetreatReorderable(fs, i - 1) else i
  }

  /** Second loop, item not kept on top: advance past keepOnTop entries of its class. */
  function SkipOnTop(fs: seq<Flags>, i: nat, cls: bool): (j: nat)
    requires i <= |fs|
    ensures i <= j <= |fs|
    ensures forall k :: i <= k < j ==> fs[k].onTop && fs[k].reorderable == cls
    ensures j == |fs| || !(fs[j].onTop && fs[j].reorderable == cls)
    decreases |fs| - i
  {
    if i < |fs| && fs[i].onTop && fs[i].reorderable == cls then SkipOnTop(fs, i + 1, cls) else i
  }

  /** Second loop, keepOnTop item: step back above the other entries of its class. */
  function RetreatOther(fs: seq<Flags>, i: nat, cls: bool): (j: nat)
    requires i <= |fs|
    ensures j <= i
    ensures forall k :: j <= k < i ==> !fs[k].onTop && fs[k].reorderable == cls
    ensures j == 0 || !(!fs[j - 1].onTop && fs[j - 1].reorderable == cls)
  {
    if i > 0 && !fs[i - 1].onTop && fs[i - 1].reorderable == cls then RetreatOther(fs, i - 1, cls) else i
  }

  /** The first loop of `insertItem`: reorderable items go below the non-reorderable ones. */
  function ClassIndex(fs: seq<Flags>, t: Flags, index: nat): (i: nat)
    requires index <= |fs|
    ensures i <= |fs|
  {
    if t.reorderable then SkipFixed(fs, index) else RetreatReorderable(fs, index)
  }

  /** The position `insertItem` computes for an item with flags `t`, asked for at `index`:
      after the first loop, the second keeps keepOnTop items first within a class. */
  function InsertionIndex(fs: seq<Flags>, t: Flags, index: nat): (k: nat)
    requires index <= |fs|
    ensures k <= |fs|
  {
    var i := ClassIndex(fs, t, index);
    if !t.onTop then SkipOnTop(fs, i, t.reorderable) else RetreatOther(fs, i, t.reorderable)
  }

  /** On an ordered list the computed position splits it into the blocks at
      or above the new item's and those at or below it. */
  lemma InsertionIndexSplits(fs: seq<Flags>, t: Flags, index: nat)
    requires index <= |fs|
    requires Ordered(fs)
    ensures var k := InsertionIndex(fs, t, index);
      (forall j :: 0 <= j < k ==> Rank(fs[j]) <= Rank(t)) &&
      (forall j :: k <= j < |fs| ==> Rank(t) <= Rank(fs[j]))
  {
    if t.reorderable && !t.onTop {
      SplitsReorderable(fs, t, index);
    } else if t.reorderable {
      SplitsReorderableOnTop(fs, t, index);
    } else if !t.onTop {
      SplitsFixed(fs, t, index);
    } else {
      SplitsFixedOnTop(fs, t, index);
    }
  }

  lemma SplitsReorderable(fs: seq<Flags>, t: Flags, index: nat)
    requires t.reorderable && !t.onTop
    requires index <= |fs|
    requires Ordered(fs)
    ensures var k := InsertionIndex(fs, t, index);
      (forall j :: 0 <= j < k ==> Rank(fs[j]) <= Rank(t)) &&
      (forall j :: k <= j < |fs| ==> Rank(t) <= Rank(fs[j]))
  {
    var i := ClassIndex(fs, t, index);
    var k := InsertionIndex(fs, t, index);
    assert i == |fs| || fs[i].reorderable;
    assert k == SkipOnTop(fs, i, t.reorderable);
    if k < |fs| {
      assert Rank(fs[k]) == 3 by {
        if k > i {
          assert Rank(fs[k - 1]) == 2;
        }
      }
    }
  }

  lemma SplitsReorderableOnTop(fs: seq<Flags>, t: Flags, index: nat)
    requires t.reorderable && t.onTop
    requires index <= |fs|
    requires Ordered(fs)
    ensures var k := InsertionIndex(fs, t, index);
      (forall j :: 0 <= j < k ==> Rank(fs[j]) <= Rank(t)) &&
      (forall j :: k <= j < |fs| ==> Rank(t) <= Rank(fs[j]))
  {
    var i := ClassIndex(fs, t, index);
    var k := InsertionIndex(fs, t, index);
    assert i == |fs| || fs[i].reorderable;
    assert k == RetreatOther(fs, i, t.reorderable);
    assert forall j :: k <= j < i ==> Rank(fs[j]) == 3;
    if k > 0 {
      assert Rank(fs[k - 1]) != 3;
    }
    if i < |fs| {
      assert Rank(fs[i]) >= 2;
    }
  }

  lemma SplitsFixed(fs: seq<Flags>, t: Flags, index: nat)
    requires !t.reorderable && !t.onTop
    requires index <= |fs|
    requires Ordered(fs)
    ensures var k := InsertionIndex(fs, t, index);
      (forall j :: 0 <= j < k ==> Rank(fs[j]) <= Rank(t)) &&
      (forall j :: k <= j < |fs| ==> Rank(t) <= Rank(fs[j]))
  {
    var i := ClassIndex(fs, t, index);
    var k := InsertionIndex(fs, t, index);
    assert i == 0 || !fs[i - 1].reorderable;
    assert k == SkipOnTop(fs, i, t.reorderable);
    assert forall j :: i <= j < k ==> Rank(fs[j]) == 0;
    if i > 0 {
      assert Rank(fs[i - 1]) <= 1;
    }
    if k < |fs| {
      assert Rank(fs[k]) != 0;
    }
  }

  lemma SplitsFixedOnTop(fs: seq<Flags>, t: Flags, index: nat)
    requires !t.reorderable && t.onTop
    requires index <= |fs|
    requires Ordered(fs)
    ensures var k := InsertionIndex(fs, t, index);
      (forall j :: 0 <= j < k ==> Rank(fs[j]) <= Rank(t)) &&
      (forall j :: k <= j < |fs| ==> Rank(t) <= Rank(fs[j]))
  {
    var i := ClassIndex(fs, t, index);
    var k := InsertionIndex(fs, t, index);
    assert i == 0 || !fs[i - 1].reorderable;
    assert k == RetreatOther(fs, i, t.reorderable);
    assert forall j :: k <= j < i ==> Rank(fs[j]) == 1;
    if k > 0 {
      assert Rank(fs[k - 1]) == 0 by {
        if k < i {
          assert Rank(fs[k]) == 1;
        }
      }
    }
  }

  /** Placing an item at the computed position keeps an ordered list ordered. */
  lemma InsertKeepsOrder(fs: seq<Flags>, t: Flags, index: nat)
    requires index <= |fs|
    requires Ordered(fs)
    ensures var k := InsertionIndex(fs, t, index); Ordered(fs[..k] + [t] + fs[k..])
  {
    var k := InsertionIndex(fs, t, index);
    InsertionIndexSplits(fs, t, index);
    var gs := fs[..k] + [t] + fs[k..];
    forall i, j | 0 <= i < j < |gs|
      ensures Rank(gs[i]) <= Rank(gs[j])
    {
      if j < k {
        assert gs[i] == fs[i] && gs[j] == fs[j];
      } else if j == k {
        assert gs[i] == fs[i];
      } else if i == k {
        assert gs[j] == fs[j - 1];
      } else if i < k {
        assert gs[i] == fs[i] && gs[j] == fs[j - 1];
      } else {
        assert gs[i] == fs[i - 1] && gs[j] == fs[j - 1];
      }
    }
  }

  /** When no item is keepOnTop and every item is reorderable, the position asked for is kept. */
  lemma InsertionIndexPlain(fs: seq<Flags>, index: nat)
    requires index <= |fs|
    requires forall i :: 0 <= i < |fs| ==> fs[i] == Flags(true, false)
    ensures InsertionIndex(fs, Flags(true, false), index) == index
  {
  }

  // ---------------------------------------------------------------------
  // insertItem, moveItemToIndex

  /** What the list stores for an item: its source reference if it has one. */
  function StoredFor(h: Heap, item: Ref): Ref {
    match Get(h, item).sourceReference
    case Some(s) => s
    case None => item
  }

  /** The position at which `insertItem` would place a new item. */
  function InsertPosition(h: Heap, stored: seq<Ref>, item: Ref, index: nat): (k: nat)
    requires index <= |stored|
    ensures k <= |stored|
  {
    InsertionIndex(ItemFlags(h, stored), FlagsOf(h, Deref(h, item)), index)
  }

  /** `insertItem(item, index)`: nothing if the item, or what it dereferences
      to, is already present; otherwise its stored form goes in at the
      position the ordering rules compute. */
  function InsertItem(h: Heap, stored: seq<Ref>, item: Ref, index: nat): (s: seq<Ref>)
    requires index <= |stored|
    ensures Contains(h, stored, item) ==> s == stored
    ensures !Contains(h, stored, item) ==>
      exists k :: 0 <= k <= |stored| && s == stored[..k] + [StoredFor(h, item)] + stored[k..]
  {
    if Contains(h, stored, item) then stored
    else
      var k := InsertPosition(h, stored, item, index);
      stored[..k] + [StoredFor(h, item)] + stored[k..]
  }

  /** The item's stored form dereferences to the same model as the item (a
      target's `sourceReference` points back at it), and that model is not
      itself a reference with a target. */
  predicate LinkConsistent(h: Heap, item: Ref) {
    Deref(h, StoredFor(h, item)) == Deref(h, item) && Get(h, Deref(h, item)).target.None?
  }

  lemma ItemFlagsSplice(h: Heap, stored: seq<Ref>, k: nat, x: Ref)
    requires k <= |stored|
    ensures ItemFlags(h, stored[..k] + [x] + stored[k..]) ==
      ItemFlags(h, stored)[..k] + [FlagsOf(h, Deref(h, x))] + ItemFlags(h, stored)[k..]
  {
  }

  /** After inserting a new item the workbench contains it. */
  lemma InsertItemContains(h: Heap, stored: seq<Ref>, item: Ref, index: nat)
    requires index <= |stored|
    requires LinkConsistent(h, item)
    ensures Contains(h, InsertItem(h, stored, item, index), item)
  {
    var s := InsertItem(h, stored, item, index);
    if !Contains(h, stored, item) {
      var k := InsertPosition(h, stored, item, index);
      assert s[k] == StoredFor(h, item);
      assert Matches(h, Deref(h, s[k]), item);
      ContainsIff(h, s, item);
    }
  }

  /** `insertItem` keeps the four-block order of `items`. */
  lemma InsertItemKeepsOrder(h: Heap, stored: seq<Ref>, item: Ref, index: nat)
    requires index <= |stored|
    requires LinkConsistent(h, item)
    requires Ordered(ItemFlags(h, stored))
    ensures Ordered(ItemFlags(h, InsertItem(h, stored, item, index)))
  {
    if !Contains(h, stored, item) {
      var k := InsertPosition(h, stored, item, index);
      InsertKeepsOrder(ItemFlags(h, stored), FlagsOf(h, Deref(h, item)), index);
      ItemFlagsSplice(h, stored, k, StoredFor(h, item));
    }
  }

  /** With only reorderable, non-keepOnTop models around, a new item lands
      exactly at the requested index. */
  lemma InsertItemAtRequestedIndex(h: Heap, stored: seq<Ref>, item: Ref, index: nat)
    requires index <= |stored|
    requires !Contains(h, stored, item)
    requires FlagsOf(h, Deref(h, item)) == Flags(true, false)
    requires forall i :: 0 <= i < |stored| ==> FlagsOf(h, Deref(h, stored[i])) == Flags(true, false)
    ensures InsertItem(h, stored, item, index) == stored[..index] + [StoredFor(h, item)] + stored[index..]
  {
    InsertionIndexPlain(ItemFlags(h, stored), index);
  }

  /** After `remove`, position `a` holds the item that was at `a`, or at
      `a + 1` from the removed item's index on. */
  lemma RemoveAt(h: Heap, stored: seq<Ref>, item: Ref, a: nat)
    requires Contains(h, stored, item) && a < |Remove(h, stored, item)|
    ensures Remove(h, stored, item)[a] == stored[if a < IndexOf(h, stored, item) then a else a + 1]
  {
    var i := IndexOf(h, stored, item);
    var s := Remove(h, stored, item);
    if a < i { assert s[..i][a] == stored[..i][a]; }
    else { assert s[i..][a - i] == stored[i + 1..][a - i]; }
  }

  lemma RemoveKeepsOrder(h: Heap, stored: seq<Ref>, item: Ref)
    requires Ordered(ItemFlags(h, stored))
    ensures Ordered(ItemFlags(h, Remove(h, stored, item)))
  {
    if Contains(h, stored, item) {
      var i := IndexOf(h, stored, item);
      var s := Remove(h, stored, item);
      var fs := ItemFlags(h, stored);
      var gs := ItemFlags(h, s);
      forall a, b | 0 <= a < b < |gs|
        ensures Rank(gs[a]) <= Rank(gs[b])
      {
        RemoveAt(h, stored, item, a);
        RemoveAt(h, stored, item, b);
        assert gs[a] == fs[if a < i then a else a + 1];
        assert gs[b] == fs[if b < i then b else b + 1];
      }
    }
  }

  /** `moveItemToIndex`: nothing for an absent item; otherwise remove, then
      insert again at the new index through the same ordering rules. */
  function MoveItemToIndex(h: Heap, stored: seq<Ref>, item: Ref, newIndex: nat): (s: seq<Ref>)
    requires Contains(h, stored, item) ==> newIndex < |stored|
    ensures !Contains(h, stored, item) ==> s == stored
    ensures Contains(h, stored, item) ==>
      s == InsertItem(h, Remove(h, stored, item), item, newIndex)
  {
    if !Contains(h, stored, item) then stored
    else InsertItem(h, Remove(h, stored, item), item, newIndex)
  }

  /** Moving keeps the four-block order, so a keepOnTop item never ends up
      below a non-keepOnTop item of its class. */
  lemma MoveKeepsOrder(h: Heap, stored: seq<Ref>, item: Ref, newIndex: nat)
    requires Contains(h, stored, item) ==> newIndex < |stored|
    requires LinkConsistent(h, item)
    requires Ordered(ItemFlags(h, stored))
    ensures Ordered(ItemFlags(h, MoveItemToIndex(h, stored, item, newIndex)))
  {
    if Contains(h, stored, item) {
      RemoveKeepsOrder(h, stored, item);
      InsertItemKeepsOrder(h, Remove(h, stored, item), item, newIndex);
    }
  }

  /** Moving an item whose entry is its own stored form, with no other entry
      for it, keeps the same entries: the multiset of stored models is unchanged. */
  lemma MoveKeepsEntries(h: Heap, stored: seq<Ref>, item: Ref, newIndex: nat)
    requires Contains(h, stored, item) ==> newIndex < |stored|
    requires Contains(h, stored, item) ==> stored[IndexOf(h, stored, item)] == StoredFor(h, item)
    requires !Contains(h, Remove(h, stored, item), item)
    ensures multiset(MoveItemToIndex(h, stored, item, newIndex)) == multiset(stored)
  {
    if Contains(h, stored, item) {
      var i := IndexOf(h, stored, item);
      var r := Remove(h, stored, item);
      MultisetCut(stored, i);
      assert r == stored[..i] + stored[i + 1..];
      var s := MoveItemToIndex(h, stored, item, newIndex);
      var k :| 0 <= k <= |r| && s == r[..k] + [StoredFor(h, item)] + r[k..];
      MultisetSplice(r, k, StoredFor(h, item));
    }
  }

  lemma MultisetCut(a: seq<Ref>, i: nat)
    requires i < |a|
    ensures multiset(a[..i] + a[i + 1..]) + multiset{a[i]} == multiset(a)
  {
    assert a == a[..i] + [a[i]] + a[i + 1..];
  }

  lemma MultisetSplice(a: seq<Ref>, k: nat, x: Ref)
    requires k <= |a|
    ensures multiset(a[..k] + [x] + a[k..]) == multiset(a) + multiset{x}
  {
    assert a == a[..k] + a[k..];
  }

  /** With only reorderable, non-keepOnTop models, a moved item ends up
      exactly at the new index and the others keep their order. */
  lemma MoveToRequestedIndex(h: Heap, stored: seq<Ref>, item: Ref, newIndex: nat)
    requires Contains(h, stored, item) && newIndex < |stored|
    requires !Contains(h, Remove(h, stored, item), item)
    requires FlagsOf(h, Deref(h, item)) == Flags(true, false)
    requires forall i :: 0 <= i < |stored| ==> FlagsOf(h, Deref(h, stored[i])) == Flags(true, false)
    ensures var r := Remove(h, stored, item);
      MoveItemToIndex(h, stored, item, newIndex) == r[..newIndex] + [StoredFor(h, item)] + r[newIndex..]
  {
    var r := Remove(h, stored, item);
    var i := IndexOf(h, stored, item);
    assert r == stored[..i] + stored[i + 1..];
    forall j | 0 <= j < |r|
      ensures FlagsOf(h, Deref(h, r[j])) == Flags(true, false)
    {
      if j < i { assert r[j] == stored[j]; } else { assert r[j] == stored[j + 1]; }
    }
    InsertItemAtRequestedIndex(h, r, item, newIndex);
  }

  // ---------------------------------------------------------------------
  // add

  /** Outcome of one asynchronous load. */
  datatype Load = Loaded | LoadFailed(error: Thrown)

  /** What `add` finds out about a model through its mixins and asynchronous
      loads; the loads themselves (network) are outside the model. */
  datatype LoadPlan = LoadPlan(
    isReference: bool,
    loadReference: Load,
    /** The reference's `target` once `loadReference` has settled. */
    loadedTarget: Option<Ref>,
    /** The reference's target is a group that is neither mappable nor chartable. */
    targetIsGroupOnly: bool,
    isCatalogMember: bool,
    loadMetadata: Load,
    isMappable: bool,
    loadMapItems: Load)

  const NoLoads: LoadPlan := LoadPlan(false, Loaded, None, false, false, Loaded, false, Loaded)

  type Plans = map<Ref, LoadPlan>

  function PlanOf(plans: Plans, r: Ref): LoadPlan {
    if r in plans then plans[r] else NoLoads
  }

  /** The metadata and map-item loads of a plan both succeed (or are not made). */
  predicate LoadsSucceed(p: LoadPlan) {
    !(p.isCatalogMember && p.loadMetadata.LoadFailed?) && !(p.isMappable && p.loadMapItems.LoadFailed?)
  }

  /** The heap once `loadReference` has given `item` its target: only that
      reference's `target` changes. The target model, with its traits and its
      `sourceReference`, is part of the heap already. */
  function LoadReference(h: Heap, item: Ref, target: Option<Ref>): (h': Heap)
    ensures Get(h', item) == Get(h, item).(target := target)
    ensures forall r :: r != item ==> Get(h', r) == Get(h, r)
    ensures Get(h, item).target == target ==> h' == h
  {
    if Get(h, item).target == target then h else h[item := Get(h, item).(target := target)]
  }

  /** Every reference `add` may load already has the target its load settles on. */
  ghost predicate Preloaded(h: Heap, plans: Plans) {
    forall r :: PlanOf(plans, r).isReference ==> Get(h, r).target == PlanOf(plans, r).loadedTarget
  }

  /** The generic error `add` throws for a failure that is not a `TerriaError`. */
  const AddItemError: TerriaError :=
    New(Options(Key("workbench.addItemErrorMessage", []), Some(Key("workbench.addItemErrorTitle", [])),
                None, None, None, None))

  /** The `catch` of `add`: a `TerriaError` is rethrown as is, anything else
      becomes the generic error. */
  function CatchAdd(e: Thrown): (r: TerriaError)
    ensures e.ThrownTerria? ==> r == e.terria
    ensures !e.ThrownTerria? ==>
      r.title == Key("workbench.addItemErrorTitle", []) &&
      r.message == Key("workbench.addItemErrorMessage", []) && r.originalError == []
  {
    if e.ThrownTerria? then e.terria else AddItemError
  }

  /** The state `add` leaves: the heap (with the targets of the references it
      loaded), the stored list, and the error it rejects with, if any. */
  datatype AddOutcome = AddOutcome(heap: Heap, stored: seq<Ref>, error: Option<TerriaError>)

  /** The `catch` branch: the item is removed again and the error rethrown. */
  function Fail(h: Heap, stored: seq<Ref>, item: Ref, e: Thrown): (o: AddOutcome)
    ensures o.heap == h
    ensures o.stored == Remove(h, stored, item)
    ensures o.error == Some(CatchAdd(e))
  {
    AddOutcome(h, Remove(h, stored, item), Some(CatchAdd(e)))
  }

  /** The metadata and map-item loads that end `add`. */
  function LoadRest(h: Heap, plans: Plans, stored: seq<Ref>, item: Ref): (o: AddOutcome)
    ensures o.heap == h
    ensures o.error.None? <==> LoadsSucceed(PlanOf(plans, item))
    ensures o.error.None? ==> o.stored == stored
    ensures o.error.Some? ==> o.stored == Remove(h, stored, item)
  {
    var p := PlanOf(plans, item);
    if p.isCatalogMember && p.loadMetadata.LoadFailed? then Fail(h, stored, item, p.loadMetadata.error)
    else if p.isMappable && p.loadMapItems.LoadFailed? then Fail(h, stored, item, p.loadMapItems.error)
    else AddOutcome(h, stored, None)
  }

  /** Everything `add` does after its synchronous `insertItem`. The reference
      is loaded only now, so the insert placed it by its own flags. A
      reference whose target is a plain group is removed again; one with any
      other target hands over to `add(target)`, whose rejection is not caught
      (`return` without `await` leaves the `try`). `fuel` bounds that chain
      of references. */
  function Continue(h: Heap, plans: Plans, stored: seq<Ref>, item: Ref, fuel: nat): (o: AddOutcome)
    decreases fuel, 0
  {
    var p := PlanOf(plans, item);
    if p.isReference then
      if p.loadReference.LoadFailed? then Fail(h, stored, item, p.loadReference.error)
      else
        var loaded := LoadReference(h, item, p.loadedTarget);
        match p.loadedTarget
        case Some(t) =>
          if p.targetIsGroupOnly then LoadRest(loaded, plans, Remove(loaded, stored, item), item)
          else if fuel == 0 then AddOutcome(loaded, stored, None)
          else Add(loaded, plans, stored, t, fuel - 1)
        case None => LoadRest(loaded, plans, stored, item)
    else LoadRest(h, plans, stored, item)
  }

  /** `add` for one model: `insertItem` first, with the heap as it is before any load. */
  function Add(h: Heap, plans: Plans, stored: seq<Ref>, item: Ref, fuel: nat): (o: AddOutcome)
    decreases fuel, 1
  {
    Continue(h, plans, InsertItem(h, stored, item, 0), item, fuel)
  }

  /** When every reference involved already has its target, `add` changes no
      model and every outcome keeps the four-block order, whatever the other
      loads do. */
  lemma {:induction false} AddKeepsOrder(h: Heap, plans: Plans, stored: seq<Ref>, item: Ref, fuel: nat)
    requires Preloaded(h, plans)
    requires forall r :: LinkConsistent(h, r)
    requires Ordered(ItemFlags(h, stored))
    ensures Add(h, plans, stored, item, fuel).heap == h
    ensures Ordered(ItemFlags(h, Add(h, plans, stored, item, fuel).stored))
    decreases fuel, 1
  {
    InsertItemKeepsOrder(h, stored, item, 0);
    ContinueKeepsOrder(h, plans, InsertItem(h, stored, item, 0), item, fuel);
  }

  lemma {:induction false} ContinueKeepsOrder(h: Heap, plans: Plans, stored: seq<Ref>, item: Ref, fuel: nat)
    requires Preloaded(h, plans)
    requires forall r :: LinkConsistent(h, r)
    requires Ordered(ItemFlags(h, stored))
    ensures Continue(h, plans, stored, item, fuel).heap == h
    ensures Ordered(ItemFlags(h, Continue(h, plans, stored, item, fuel).stored))
    decreases fuel, 0
  {
    var p := PlanOf(plans, item);
    if p.isReference && p.loadReference.LoadFailed? {
      RemoveKeepsOrder(h, stored, item);
    } else if p.isReference {
      assert Get(h, item).target == p.loadedTarget;
      assert LoadReference(h, item, p.loadedTarget) == h;
      if p.loadedTarget.Some? {
        if p.targetIsGroupOnly {
          RemoveKeepsOrder(h, stored, item);
          LoadRestKeepsOrder(h, plans, Remove(h, stored, item), item);
        } else if fuel > 0 {
          AddKeepsOrder(h, plans, stored, p.loadedTarget.value, fuel - 1);
        }
      } else {
        LoadRestKeepsOrder(h, plans, stored, item);
      }
    } else {
      LoadRestKeepsOrder(h, plans, stored, item);
    }
  }

  lemma LoadRestKeepsOrder(h: Heap, plans: Plans, stored: seq<Ref>, item: Ref)
    requires Ordered(ItemFlags(h, stored))
    ensures Ordered(ItemFlags(h, LoadRest(h, plans, stored, item).stored))
  {
    RemoveKeepsOrder(h, stored, item);
  }

  /** Inserting a model the list does not contain and then removing it gives the list back. */
  lemma RemoveUndoesInsert(h: Heap, stored: seq<Ref>, item: Ref, index: nat)
    requires index <= |stored|
    requires !Contains(h, stored, item)
    requires LinkConsistent(h, item)
    ensures Remove(h, InsertItem(h, stored, item, index), item) == stored
  {
    var k := InsertPosition(h, stored, item, index);
    var s := InsertItem(h, stored, item, index);
    SplicedIndexOf(h, stored, k, StoredFor(h, item), item);
    assert s[..k] == stored[..k];
    assert s[k + 1..] == stored[k..];
  }

  /** In a list with no entry for `item`, a spliced-in entry for it is the first match. */
  lemma SplicedIndexOf(h: Heap, stored: seq<Ref>, k: nat, x: Ref, item: Ref)
    requires k <= |stored|
    requires !Contains(h, stored, item)
    requires Matches(h, Deref(h, x), item)
    ensures IndexOf(h, stored[..k] + [x] + stored[k..], item) == k
  {
    var s := stored[..k] + [x] + stored[k..];
    assert s[k] == x;
    assert forall j :: 0 <= j < k ==> s[j] == stored[j];
    assert IndexOf(h, stored, item) == -1;
  }

  /** A failed `add` of a model that was not on the workbench, with every
      reference involved already loaded, leaves the workbench exactly as it was. */
  lemma FailedAddRestores(h: Heap, plans: Plans, stored: seq<Ref>, item: Ref, fuel: nat)
    requires Preloaded(h, plans)
    requires !Contains(h, stored, item)
    requires LinkConsistent(h, item)
    requires Add(h, plans, stored, item, fuel).error.Some?
    ensures Add(h, plans, stored, item, fuel).stored == stored
  {
    RemoveUndoesInsert(h, stored, item, 0);
    var p := PlanOf(plans, item);
    if p.isReference && p.loadReference.Loaded? {
      assert LoadReference(h, item, p.loadedTarget) == h;
      if p.loadedTarget.Some? && !p.targetIsGroupOnly && fuel > 0 {
        FailedTargetAddRestores(h, plans, stored, item, fuel - 1);
      }
    }
  }

  /** The hand-over to `add(target)` of a loaded reference just inserted:
      the target is already present through the reference, and a failure
      removes that entry again. */
  lemma FailedTargetAddRestores(h: Heap, plans: Plans, stored: seq<Ref>, item: Ref, fuel: nat)
    requires Preloaded(h, plans)
    requires !Contains(h, stored, item)
    requires LinkConsistent(h, item)
    requires Get(h, item).target.Some?
    requires Add(h, plans, InsertItem(h, stored, item, 0), Get(h, item).target.value, fuel).error.Some?
    ensures Add(h, plans, InsertItem(h, stored, item, 0), Get(h, item).target.value, fuel).stored == stored
  {
    var t := Get(h, item).target.value;
    var s := InsertItem(h, stored, item, 0);
    var k := InsertPosition(h, stored, item, 0);
    assert s[k] == StoredFor(h, item);
    assert Matches(h, Deref(h, s[k]), t);
    ContainsIff(h, s, t);
    SplicedIndexOf(h, stored, k, StoredFor(h, item), t);
    assert InsertItem(h, s, t, 0) == s;
    assert Get(h, t).target.None?;
    assert Add(h, plans, s, t, fuel).stored == Remove(h, s, t);
    assert s[..k] == stored[..k];
    assert s[k + 1..] == stored[k..];
  }


  /** An `add` that succeeds for a model that is not a reference changes no
      model and leaves it on the workbench, wherever it was placed. */
  lemma SucceededAddContains(h: Heap, plans: Plans, stored: seq<Ref>, item: Ref, fuel: nat)
    requires LinkConsistent(h, item)
    requires !PlanOf(plans, item).isReference
    requires Add(h, plans, stored, item, fuel).error.None?
    ensures Add(h, plans, stored, item, fuel).heap == h
    ensures Contains(h, Add(h, plans, stored, item, fuel).stored, item)
  {
    InsertItemContains(h, stored, item, 0);
  }

  /** The synchronous part of `add(items)`: the array is reversed and every
      `insertItem` runs, at index 0, before any load completes. */
  function InsertAll(h: Heap, stored: seq<Ref>, items: seq<Ref>): (s: seq<Ref>)
    ensures |s| <= |stored| + |items|
    decreases |items|
  {
    if items == [] then stored else InsertAll(h, InsertItem(h, stored, items[0], 0), items[1..])
  }

  /** An insert never loses an entry: whatever the list contained, it still contains. */
  lemma InsertItemKeepsContains(h: Heap, stored: seq<Ref>, item: Ref, index: nat, other: Ref)
    requires index <= |stored|
    requires Contains(h, stored, other)
    ensures Contains(h, InsertItem(h, stored, item, index), other)
  {
    var j := IndexOf(h, stored, other);
    if !Contains(h, stored, item) {
      var k := InsertPosition(h, stored, item, index);
      var s := stored[..k] + [StoredFor(h, item)] + stored[k..];
      var j' := if j < k then j else j + 1;
      assert s[j'] == stored[j];
      assert Matches(h, Deref(h, s[j']), other);
      ContainsIff(h, s, other);
    }
  }

  /** After the inserts of `add(items)` the list contains everything it
      contained and every model of the array. */
  lemma {:induction false} InsertAllContains(h: Heap, stored: seq<Ref>, items: seq<Ref>, x: Ref)
    requires forall i :: 0 <= i < |items| ==> LinkConsistent(h, items[i])
    requires Contains(h, stored, x) || x in items
    ensures Contains(h, InsertAll(h, stored, items), x)
    decreases |items|
  {
    if items != [] {
      var next := InsertItem(h, stored, items[0], 0);
      if Contains(h, stored, x) {
        InsertItemKeepsContains(h, stored, items[0], 0, x);
      } else if x == items[0] {
        InsertItemContains(h, stored, items[0], 0);
      }
      if !Contains(h, next, x) {
        assert x in items[1..];
      }
      assert forall i :: 0 <= i < |items[1..]| ==> LinkConsistent(h, items[1..][i]);
      InsertAllContains(h, next, items[1..], x);
    }
  }

  function Reverse(s: seq<Ref>): (r: seq<Ref>)
    ensures |r| == |s|
    ensures forall i :: 0 <= i < |s| ==> r[i] == s[|s| - 1 - i]
  {
    if s == [] then [] else Reverse(s[1..]) + [s[0]]
  }

  lemma ReverseReverse(s: seq<Ref>)
    ensures Reverse(Reverse(s)) == s
  {
    var r := Reverse(Reverse(s));
    assert forall i :: 0 <= i < |s| ==> r[i] == s[i];
  }

  /** The continuations of `add(items)`, taken in the order the loads settle
      (here: the order of the reversed array). Every continuation runs, each
      on the list the previous ones left; `Promise.all` rejects with the
      first error. */
  function ContinueAll(h: Heap, plans: Plans, stored: seq<Ref>, items: seq<Ref>, fuel: nat): (o: AddOutcome)
    ensures items == [] ==> o == AddOutcome(h, stored, None)
    ensures items != [] && Continue(h, plans, stored, items[0], fuel).error.Some? ==>
      o.error == Continue(h, plans, stored, items[0], fuel).error
    decreases |items|
  {
    if items == [] then AddOutcome(h, stored, None)
    else
      var first := Continue(h, plans, stored, items[0], fuel);
      var rest := ContinueAll(first.heap, plans, first.stored, items[1..], fuel);
      AddOutcome(rest.heap, rest.stored, if first.error.Some? then first.error else rest.error)
  }

  /** Running the continuations of `a + b` is running those of `a`, then
      those of `b` on what `a` left; the error is `a`'s first if it has one. */
  lemma {:induction false} ContinueAllAppend(h: Heap, plans: Plans, stored: seq<Ref>, a: seq<Ref>, b: seq<Ref>, fuel: nat)
    ensures var x := ContinueAll(h, plans, stored, a, fuel);
      var y := ContinueAll(x.heap, plans, x.stored, b, fuel);
      ContinueAll(h, plans, stored, a + b, fuel) ==
        AddOutcome(y.heap, y.stored, if x.error.Some? then x.error else y.error)
    decreases |a|
  {
    if a != [] {
      assert (a + b)[0] == a[0];
      assert (a + b)[1..] == a[1..] + b;
      var first := Continue(h, plans, stored, a[0], fuel);
      ContinueAllAppend(first.heap, plans, first.stored, a[1..], b, fuel);
    } else {
      assert a + b == b;
    }
  }

  /** Models that are not references and whose loads succeed leave the list
      and the heap alone: their continuations only load. */
  lemma {:induction false} ContinueAllPlain(h: Heap, plans: Plans, stored: seq<Ref>, items: seq<Ref>, fuel: nat)
    requires forall i :: 0 <= i < |items| ==>
      !PlanOf(plans, items[i]).isReference && LoadsSucceed(PlanOf(plans, items[i]))
    ensures ContinueAll(h, plans, stored, items, fuel) == AddOutcome(h, stored, None)
    decreases |items|
  {
    if items != [] {
      assert forall i :: 0 <= i < |items[1..]| ==> items[1..][i] == items[i + 1];
      ContinueAllPlain(h, plans, stored, items[1..], fuel);
    }
  }

  /** `add(items)` for an array of models. */
  function AddAll(h: Heap, plans: Plans, stored: seq<Ref>, items: seq<Ref>, fuel: nat): (o: AddOutcome)
  {
    var rev := Reverse(items);
    ContinueAll(h, plans, InsertAll(h, stored, rev), rev, fuel)
  }

  /** A model with no target, no source reference, reorderable and not kept on top. */
  predicate Plain(h: Heap, x: Ref) {
    Get(h, x).target.None? && Get(h, x).sourceReference.None? && FlagsOf(h, x) == Flags(true, false)
  }

  /** A plain model is not matched by another plain model put in front. */
  lemma PlainNotInFront(h: Heap, stored: seq<Ref>, x: Ref, y: Ref)
    requires Plain(h, x) && Plain(h, y) && x != y
    requires !Contains(h, stored, y)
    ensures !Contains(h, [x] + stored, y)
  {
    var next := [x] + stored;
    ContainsIff(h, stored, y);
    assert forall j :: 1 <= j < |next| ==> next[j] == stored[j - 1];
    ContainsIff(h, next, y);
  }

  /** Inserting distinct plain models one by one at index 0 in front of plain
      entries puts them in front in reverse order. */
  lemma {:induction false} InsertAllPlain(h: Heap, stored: seq<Ref>, xs: seq<Ref>)
    requires forall i :: 0 <= i < |xs| ==> Plain(h, xs[i]) && !Contains(h, stored, xs[i])
    requires forall i, j :: 0 <= i < j < |xs| ==> xs[i] != xs[j]
    requires forall i :: 0 <= i < |stored| ==> FlagsOf(h, Deref(h, stored[i])) == Flags(true, false)
    ensures InsertAll(h, stored, xs) == Reverse(xs) + stored
    decreases |xs|
  {
    if xs != [] {
      var x := xs[0];
      var next := [x] + stored;
      InsertItemAtRequestedIndex(h, stored, x, 0);
      assert InsertItem(h, stored, x, 0) == next;
      var ys := xs[1..];
      forall i | 0 <= i < |ys|
        ensures Plain(h, ys[i]) && !Contains(h, next, ys[i])
      {
        assert ys[i] == xs[i + 1];
        PlainNotInFront(h, stored, x, ys[i]);
      }
      InsertAllPlain(h, next, ys);
      assert Reverse(xs) == Reverse(ys) + [x];
    }
  }

  /** `add([x1, ..., xn])` of distinct plain models whose loads succeed puts
      them at the front in the array's order and reports no error. */
  lemma AddAllKeepsArrayOrder(h: Heap, plans: Plans, stored: seq<Ref>, items: seq<Ref>, fuel: nat)
    requires forall i :: 0 <= i < |items| ==> Plain(h, items[i]) && !Contains(h, stored, items[i])
    requires forall i, j :: 0 <= i < j < |items| ==> items[i] != items[j]
    requires forall i :: 0 <= i < |stored| ==> FlagsOf(h, Deref(h, stored[i])) == Flags(true, false)
    requires forall i :: 0 <= i < |items| ==>
      !PlanOf(plans, items[i]).isReference && LoadsSucceed(PlanOf(plans, items[i]))
    ensures AddAll(h, plans, stored, items, fuel) == AddOutcome(h, items + stored, None)
  {
    var rev := Reverse(items);
    assert forall i :: 0 <= i < |rev| ==> rev[i] == items[|items| - 1 - i];
    InsertAllPlain(h, stored, rev);
    ReverseReverse(items);
    ContinueAllPlain(h, plans, items + stored, rev, fuel);
  }

  // ---------------------------------------------------------------------
  // Worked examples: four layers A=1, B=2, C=3, D=4, all reorderable

  function Layer(id: string, onTop: bool, reorderable: bool): ModelRec {
    ModelRec(Some(id), onTop, reorderable, None, None, [])
  }

  /** C is kept on top; D is kept on top too. */
  const OnTopHeap: Heap := map[1 := Layer("A", false, true), 2 := Layer("B", false, true),
                               3 := Layer("C", true, true), 4 := Layer("D", true, true)]

  /** C does not support reordering; D is kept on top. */
  const FixedHeap: Heap := map[1 := Layer("A", false, true), 2 := Layer("B", false, true),
                               3 := Layer("C", false, false), 4 := Layer("D", true, true)]

  lemma ExampleFlags()
    ensures forall r :: 1 <= r <= 4 ==> Deref(OnTopHeap, r) == r && Deref(FixedHeap, r) == r
    ensures forall r :: 1 <= r <= 4 ==> StoredFor(OnTopHeap, r) == r && StoredFor(FixedHeap, r) == r
    ensures FlagsOf(OnTopHeap, 1) == FlagsOf(OnTopHeap, 2) == Flags(true, false)
    ensures FlagsOf(OnTopHeap, 3) == FlagsOf(OnTopHeap, 4) == Flags(true, true)
    ensures FlagsOf(FixedHeap, 1) == FlagsOf(FixedHeap, 2) == Flags(true, false)
    ensures FlagsOf(FixedHeap, 3) == Flags(false, false)
    ensures FlagsOf(FixedHeap, 4) == Flags(true, true)
  {
  }

  /** Distinct layers never match each other. */
  lemma ExampleAbsent(h: Heap, stored: seq<Ref>, item: Ref)
    requires h == OnTopHeap || h == FixedHeap
    requires 1 <= item <= 4
    requires forall i :: 0 <= i < |stored| ==> 1 <= stored[i] <= 4 && stored[i] != item
    ensures !Contains(h, stored, item)
  {
    ExampleFlags();
    ContainsIff(h, stored, item);
  }

  lemma OnTopAddSteps()
    ensures InsertItem(OnTopHeap, [], 3, 0) == [3]
    ensures InsertItem(OnTopHeap, [3], 2, 0) == [3, 2]
    ensures InsertItem(OnTopHeap, [3, 2], 1, 0) == [3, 1, 2]
  {
    var h := OnTopHeap;
    ExampleFlags();
    ExampleAbsent(h, [], 3);
    ExampleAbsent(h, [3], 2);
    ExampleAbsent(h, [3, 2], 1);
    assert ItemFlags(h, [3]) == [Flags(true, true)];
    assert InsertPosition(h, [3], 2, 0) == 1;
    assert ItemFlags(h, [3, 2]) == [Flags(true, true), Flags(true, false)];
    assert InsertPosition(h, [3, 2], 1, 0) == 1;
  }

  lemma OnTopMoveDownSteps()
    ensures Remove(OnTopHeap, [3, 1, 2], 1) == [3, 2]
    ensures InsertItem(OnTopHeap, [3, 2], 1, 2) == [3, 2, 1]
  {
    var h := OnTopHeap;
    ExampleFlags();
    assert IndexOf(h, [3, 1, 2], 1) == 1;
    ExampleAbsent(h, [3, 2], 1);
    assert ItemFlags(h, [3, 2]) == [Flags(true, true), Flags(true, false)];
    assert InsertPosition(h, [3, 2], 1, 2) == 2;
  }

  lemma OnTopRemoveTopStep()
    ensures Remove(OnTopHeap, [3, 1, 2], 3) == [1, 2]
  {
    ExampleFlags();
    assert IndexOf(OnTopHeap, [3, 1, 2], 3) == 0;
  }

  lemma OnTopReinsertStep()
    ensures InsertItem(OnTopHeap, [1, 2], 3, 2) == [3, 1, 2]
  {
    var h := OnTopHeap;
    ExampleFlags();
    ExampleAbsent(h, [1, 2], 3);
    var fs := [Flags(true, false), Flags(true, false)];
    assert ItemFlags(h, [1, 2]) == fs;
    assert SkipFixed(fs, 2) == 2;
    assert RetreatOther(fs, 2, true) == 0;
    assert InsertPosition(h, [1, 2], 3, 2) == 0;
  }

  lemma OnTopMoveTopSteps()
    ensures Remove(OnTopHeap, [3, 1, 2], 3) == [1, 2]
    ensures InsertItem(OnTopHeap, [1, 2], 3, 2) == [3, 1, 2]
  {
    OnTopRemoveTopStep();
    OnTopReinsertStep();
  }

  lemma OnTopInsertStep()
    ensures InsertItem(OnTopHeap, [3, 1, 2], 4, 0) == [4, 3, 1, 2]
  {
    var h := OnTopHeap;
    ExampleFlags();
    ExampleAbsent(h, [3, 1, 2], 4);
    assert ItemFlags(h, [3, 1, 2]) == [Flags(true, true), Flags(true, false), Flags(true, false)];
    assert InsertPosition(h, [3, 1, 2], 4, 0) == 0;
  }

  /** With C kept on top, `add([A, B, C])` gives C, A, B. */
  lemma AddWithKeepOnTopExample()
    ensures AddAll(OnTopHeap, map[], [], [1, 2, 3], 0).stored == [3, 1, 2]
  {
    var h := OnTopHeap;
    OnTopAddSteps();
    assert Reverse([1, 2, 3]) == [3, 2, 1];
    assert InsertAll(h, [], [3, 2, 1]) == [3, 1, 2];
    assert ContinueAll(h, map[], [3, 1, 2], [3, 2, 1], 0).stored == [3, 1, 2];
  }

  /** Then moving A to index 2 gives C, B, A; C cannot be moved down; a
      keepOnTop D goes first. */
  lemma MoveWithKeepOnTopExample()
    ensures MoveItemToIndex(OnTopHeap, [3, 1, 2], 1, 2) == [3, 2, 1]
    ensures MoveItemToIndex(OnTopHeap, [3, 1, 2], 3, 2) == [3, 1, 2]
    ensures Add(OnTopHeap, map[], [3, 1, 2], 4, 0).stored == [4, 3, 1, 2]
  {
    OnTopMoveDownSteps();
    OnTopMoveTopSteps();
    OnTopInsertStep();
  }

  lemma FixedAddSteps()
    ensures InsertItem(FixedHeap, [], 3, 0) == [3]
    ensures InsertItem(FixedHeap, [3], 2, 0) == [3, 2]
    ensures InsertItem(FixedHeap, [3, 2], 1, 0) == [3, 1, 2]
  {
    var h := FixedHeap;
    ExampleFlags();
    ExampleAbsent(h, [], 3);
    ExampleAbsent(h, [3], 2);
    ExampleAbsent(h, [3, 2], 1);
    assert ItemFlags(h, [3]) == [Flags(false, false)];
    assert InsertPosition(h, [3], 2, 0) == 1;
    assert ItemFlags(h, [3, 2]) == [Flags(false, false), Flags(true, false)];
    assert InsertPosition(h, [3, 2], 1, 0) == 1;
  }

  lemma FixedRemoveStep()
    ensures Remove(FixedHeap, [3, 1, 2], 3) == [1, 2]
  {
    ExampleFlags();
    assert IndexOf(FixedHeap, [3, 1, 2], 3) == 0;
  }

  lemma FixedMoveStep()
    ensures InsertItem(FixedHeap, [1, 2], 3, 2) == [3, 1, 2]
  {
    var h := FixedHeap;
    ExampleFlags();
    ExampleAbsent(h, [1, 2], 3);
    var fs := [Flags(true, false), Flags(true, false)];
    assert ItemFlags(h, [1, 2]) == fs;
    assert RetreatReorderable(fs, 2) == 0;
    assert SkipOnTop(fs, 0, false) == 0;
    assert InsertPosition(h, [1, 2], 3, 2) == 0;
  }

  lemma FixedAddOnTopStep()
    ensures InsertItem(FixedHeap, [3, 1, 2], 4, 0) == [3, 4, 1, 2]
  {
    var h := FixedHeap;
    ExampleFlags();
    ExampleAbsent(h, [3, 1, 2], 4);
    var gs := [Flags(false, false), Flags(true, false), Flags(true, false)];
    assert ItemFlags(h, [3, 1, 2]) == gs;
    assert SkipFixed(gs, 0) == 1;
    assert RetreatOther(gs, 1, true) == 1;
    assert InsertPosition(h, [3, 1, 2], 4, 0) == 1;
  }

  lemma FixedAddAllStep()
    ensures AddAll(FixedHeap, map[], [], [1, 2, 3], 0).stored == [3, 1, 2]
  {
    var h := FixedHeap;
    FixedAddSteps();
    assert Reverse([1, 2, 3]) == [3, 2, 1];
    assert InsertAll(h, [3, 1, 2], []) == [3, 1, 2];
    assert InsertAll(h, [3, 2], [1]) == [3, 1, 2];
    assert InsertAll(h, [3], [2, 1]) == [3, 1, 2];
    assert InsertAll(h, [], [3, 2, 1]) == [3, 1, 2];
    assert ContinueAll(h, map[], [3, 1, 2], [3, 2, 1], 0).stored == [3, 1, 2];
  }

  /** With C not reorderable, `add([A, B, C])` gives C, A, B; C cannot be
      moved down; a keepOnTop D goes below C. */
  lemma AddNonReorderableExample()
    ensures var h := FixedHeap;
      var s := AddAll(h, map[], [], [1, 2, 3], 0).stored;
      s == [3, 1, 2] &&
      MoveItemToIndex(h, s, 3, 2) == [3, 1, 2] &&
      Add(h, map[], s, 4, 0).stored == [3, 4, 1, 2]
  {
    FixedAddAllStep();
    FixedRemoveStep();
    FixedMoveStep();
    FixedAddOnTopStep();
    assert Contains(FixedHeap, [3, 1, 2], 3);
  }

  // ---------------------------------------------------------------------
  // A reference loaded during `add`: C=3 (reorderable, keepOnTop) and A=1
  // (reorderable) are on the workbench; R=5 has no layer traits and no
  // target yet; its load resolves it to T=6, reorderable.

  const RefHeap: Heap := map[1 := Layer("A", false, true), 3 := Layer("C", true, true),
                             5 := ModelRec(Some("R"), false, false, None, None, []),
                             6 := ModelRec(Some("T"), false, true, None, Some(5), [])]

  const RefPlans: Plans := map[5 := NoLoads.(isReference := true, loadedTarget := Some(6))]

  lemma RefInsertStep()
    ensures InsertItem(RefHeap, [3, 1], 5, 0) == [5, 3, 1]
  {
    var h := RefHeap;
    ContainsIff(h, [3, 1], 5);
    var fs := [Flags(true, true), Flags(true, false)];
    assert ItemFlags(h, [3, 1]) == fs;
    assert FlagsOf(h, Deref(h, 5)) == Flags(false, false);
    assert SkipOnTop(fs, 0, false) == 0;
    assert InsertPosition(h, [3, 1], 5, 0) == 0;
  }

  /** `insertItem` runs before `loadReference`, so R is placed by its own
      flags, above C. Once loaded it stands for T, a reorderable layer
      without keepOnTop, above the keepOnTop C: the list that was in order
      is no longer, though every model is consistent with its links. */
  lemma UnloadedReferenceOutOfOrder()
    ensures Ordered(ItemFlags(RefHeap, [3, 1]))
    ensures var o := Add(RefHeap, RefPlans, [3, 1], 5, 1);
      o.error.None? && o.stored == [5, 3, 1] &&
      LinkConsistent(o.heap, 5) && LinkConsistent(o.heap, 6) &&
      !Ordered(ItemFlags(o.heap, o.stored))
  {
    var h := RefHeap;
    RefInsertStep();
    var loaded := LoadReference(h, 5, Some(6));
    assert Deref(loaded, 5) == 6;
    assert Matches(loaded, Deref(loaded, 5), 6);
    ContainsIff(loaded, [5, 3, 1], 6);
    assert InsertItem(loaded, [5, 3, 1], 6, 0) == [5, 3, 1];
    var o := Add(h, RefPlans, [3, 1], 5, 1);
    assert o == Add(loaded, RefPlans, [5, 3, 1], 6, 0);
    assert o.stored == [5, 3, 1];
    var gs := ItemFlags(o.heap, o.stored);
    assert gs[0] == Flags(true, false) && gs[1] == Flags(true, true);
    assert Rank(gs[0]) > Rank(gs[1]);
  }
}
