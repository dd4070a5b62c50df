/** `ObjectArrayTrait`: a trait whose value is an array of nested objects,
    each stratum contributing its own array. Reading the trait merges the
    strata top to bottom by object id, honouring removal markers; decoding
    from JSON checks each element's properties against the element traits
    type and collects the errors. */
module ObjectArrayTrait {
  import opened Wrappers
  import opened Strings
  import opened Json
  import opened TerriaErrors

  // ---------------------------------------------------------------------
  // getValue

  /** An element of a stratum's array as `getValue` sees it: its object id
      (what `getObjectId` computes from the id property or the index) and
      whether the type's `isRemoval` calls it a removal marker. */
  datatype Element = Element(id: string, marksRemoval: bool)

  /** The strata sorted top to bottom; `None` where a stratum sets no array. */
  type Strata = seq<Option<seq<Element>>>

  /** Every element, stratum after stratum, in the order `getValue` visits them. */
  function Entries(strata: Strata): (es: seq<Element>)
    decreases |strata|
  {
    if strata == [] then []
    else Entries(strata[..|strata| - 1]) + strata[|strata| - 1].GetOr([])
  }

  /** An element removes its id when the type defines `isRemoval` and says so. */
  predicate Removes(hasIsRemoval: bool, e: Element) {
    hasIsRemoval && e.marksRemoval
  }

  /** The two sets `getValue` builds; `ids` keeps the insertion order of a `Set`. */
  datatype Collected = Collected(ids: seq<string>, removed: set<string>)

  /** One element's visit. */
  function Visit(c: Collected, hasIsRemoval: bool, e: Element): Collected {
    if Removes(hasIsRemoval, e) then c.(removed := c.removed + {e.id})
    else if e.id in c.removed || e.id in c.ids then c
    else c.(ids := c.ids + [e.id])
  }

  /** The sets after visiting `es` from the left. */
  function Scan(es: seq<Element>, hasIsRemoval: bool): Collected
    decreases |es|
  {
    if es == [] then Collected([], {})
    else Visit(Scan(es[..|es| - 1], hasIsRemoval), hasIsRemoval, es[|es| - 1])
  }

  /** `i` is the first position of id `x`. */
  ghost predicate FirstAt(es: seq<Element>, x: string, i: int) {
    0 <= i < |es| && es[i].id == x && forall j :: 0 <= j < i ==> es[j].id != x
  }

  /** The first element with id `x` exists and is not a removal marker. */
  ghost predicate Kept(es: seq<Element>, hasIsRemoval: bool, x: string) {
    exists i :: FirstAt(es, x, i) && !Removes(hasIsRemoval, es[i])
  }

  ghost predicate NoDuplicates(ids: seq<string>) {
    forall a, b :: 0 <= a < b < |ids| ==> ids[a] != ids[b]
  }

  /** Ids appear in the order of their first positions. */
  ghost predicate FirstSeenOrder(es: seq<Element>, ids: seq<string>) {
    forall a, b, ia, ib :: 0 <= a < b < |ids| && FirstAt(es, ids[a], ia) && FirstAt(es, ids[b], ib) ==> ia < ib
  }

  lemma FirstAtUnique(es: seq<Element>, x: string, i: int, j: int)
    requires FirstAt(es, x, i) && FirstAt(es, x, j)
    ensures i == j
  {
  }

  lemma FirstAtExtend(p: seq<Element>, e: Element, x: string, i: int)
    ensures FirstAt(p + [e], x, i) <==>
      FirstAt(p, x, i) || (i == |p| && e.id == x && forall j :: 0 <= j < |p| ==> p[j].id != x)
  {
    var es := p + [e];
    assert forall j :: 0 <= j < |p| ==> es[j] == p[j];
  }

  /** The removed ids are exactly those some marker carries. */
  lemma {:induction false} ScanRemoved(es: seq<Element>, hasIsRemoval: bool)
    ensures forall x :: x in Scan(es, hasIsRemoval).removed <==>
      exists i :: 0 <= i < |es| && es[i].id == x && Removes(hasIsRemoval, es[i])
    decreases |es|
  {
    if es != [] {
      var p := es[..|es| - 1];
      var e := es[|es| - 1];
      ScanRemoved(p, hasIsRemoval);
      var c0 := Scan(p, hasIsRemoval);
      var c := Scan(es, hasIsRemoval);
      forall x ensures x in c.removed <==> exists i :: 0 <= i < |es| && es[i].id == x && Removes(hasIsRemoval, es[i]) {
        if x in c0.removed {
          var i :| 0 <= i < |p| && p[i].id == x && Removes(hasIsRemoval, p[i]);
          assert es[i] == p[i];
        }
        if exists i :: 0 <= i < |es| && es[i].id == x && Removes(hasIsRemoval, es[i]) {
          var i :| 0 <= i < |es| && es[i].id == x && Removes(hasIsRemoval, es[i]);
          if i < |p| {
            assert p[i] == es[i];
          }
        }
      }
    }
  }

  /** The collected ids are distinct. */
  lemma {:induction false} ScanNoDuplicates(es: seq<Element>, hasIsRemoval: bool)
    ensures NoDuplicates(Scan(es, hasIsRemoval).ids)
    decreases |es|
  {
    if es != [] {
      ScanNoDuplicates(es[..|es| - 1], hasIsRemoval);
    }
  }

  /** An id is collected exactly when its first element is not a marker. */
  lemma {:induction false} ScanKept(es: seq<Element>, hasIsRemoval: bool)
    ensures forall x :: x in Scan(es, hasIsRemoval).ids <==> Kept(es, hasIsRemoval, x)
    decreases |es|
  {
    if es != [] {
      var p := es[..|es| - 1];
      var e := es[|es| - 1];
      assert es == p + [e];
      ScanKept(p, hasIsRemoval);
      ScanRemoved(p, hasIsRemoval);
      var c0 := Scan(p, hasIsRemoval);
      forall x ensures x in Scan(es, hasIsRemoval).ids <==> Kept(es, hasIsRemoval, x) {
        KeptExtend(p, e, hasIsRemoval, x);
        if x == e.id && x !in c0.removed && x !in c0.ids {
          NotSeen(p, hasIsRemoval, x);
        }
      }
    }
  }

  /** The collected ids come in the order of their first positions. */
  lemma {:induction false} ScanOrder(es: seq<Element>, hasIsRemoval: bool)
    ensures FirstSeenOrder(es, Scan(es, hasIsRemoval).ids)
    decreases |es|
  {
    if es != [] {
      var p := es[..|es| - 1];
      var e := es[|es| - 1];
      assert es == p + [e];
      ScanOrder(p, hasIsRemoval);
      ScanKept(p, hasIsRemoval);
      ScanRemoved(p, hasIsRemoval);
      var c0 := Scan(p, hasIsRemoval);
      var c := Scan(es, hasIsRemoval);
      forall a, b, ia, ib | 0 <= a < b < |c.ids| && FirstAt(es, c.ids[a], ia) && FirstAt(es, c.ids[b], ib)
        ensures ia < ib
      {
        assert c.ids == c0.ids || (c.ids == c0.ids + [e.id] && e.id !in c0.removed && e.id !in c0.ids);
        var y := c0.ids[a];
        assert y in c0.ids;
        var k :| FirstAt(p, y, k) && !Removes(hasIsRemoval, p[k]);
        FirstAtExtend(p, e, y, k);
        FirstAtUnique(es, y, k, ia);
        if b < |c0.ids| {
          var z := c0.ids[b];
          assert z in c0.ids;
          var m :| FirstAt(p, z, m) && !Removes(hasIsRemoval, p[m]);
          FirstAtExtend(p, e, z, m);
          FirstAtUnique(es, z, m, ib);
          assert FirstAt(p, y, ia) && FirstAt(p, z, ib);
        } else {
          NotSeen(p, hasIsRemoval, e.id);
          FirstAtExtend(p, e, e.id, |p|);
          FirstAtUnique(es, e.id, |p|, ib);
        }
      }
    }
  }

  /** An id neither collected nor removed has not been seen at all. */
  lemma NotSeen(p: seq<Element>, hasIsRemoval: bool, x: string)
    requires forall y :: y in Scan(p, hasIsRemoval).removed <==>
      exists i :: 0 <= i < |p| && p[i].id == y && Removes(hasIsRemoval, p[i])
    requires forall y :: y in Scan(p, hasIsRemoval).ids <==> Kept(p, hasIsRemoval, y)
    requires x !in Scan(p, hasIsRemoval).removed && x !in Scan(p, hasIsRemoval).ids
    ensures forall j :: 0 <= j < |p| ==> p[j].id != x
  {
    forall j | 0 <= j < |p|
      ensures p[j].id != x
    {
      Seen(p, hasIsRemoval, x, j);
    }
  }

  /** An id that occurs was either removed or collected. */
  lemma Seen(p: seq<Element>, hasIsRemoval: bool, x: string, j: int)
    requires 0 <= j < |p|
    requires forall y :: y in Scan(p, hasIsRemoval).removed <==>
      exists i :: 0 <= i < |p| && p[i].id == y && Removes(hasIsRemoval, p[i])
    requires forall y :: y in Scan(p, hasIsRemoval).ids <==> Kept(p, hasIsRemoval, y)
    ensures p[j].id == x ==> x in Scan(p, hasIsRemoval).removed || x in Scan(p, hasIsRemoval).ids
  {
    if p[j].id == x {
      var f := FirstOf(p, x, j);
      if Removes(hasIsRemoval, p[f]) {
        assert 0 <= f < |p| && p[f].id == x && Removes(hasIsRemoval, p[f]);
      } else {
        assert Kept(p, hasIsRemoval, x);
      }
    }
  }

  /** The first position of an id that occurs at `j`. */
  lemma FirstOf(p: seq<Element>, x: string, j: int) returns (f: int)
    requires 0 <= j < |p| && p[j].id == x
    ensures FirstAt(p, x, f) && f <= j
    decreases j
  {
    if exists k :: 0 <= k < j && p[k].id == x {
      var k :| 0 <= k < j && p[k].id == x;
      f := FirstOf(p, x, k);
    } else {
      f := j;
    }
  }

  lemma KeptExtend(p: seq<Element>, e: Element, hasIsRemoval: bool, x: string)
    ensures x != e.id ==> (Kept(p + [e], hasIsRemoval, x) <==> Kept(p, hasIsRemoval, x))
    ensures x == e.id && (exists j :: 0 <= j < |p| && p[j].id == x) ==>
      (Kept(p + [e], hasIsRemoval, x) <==> Kept(p, hasIsRemoval, x))
    ensures x == e.id && (forall j :: 0 <= j < |p| ==> p[j].id != x) ==>
      (Kept(p + [e], hasIsRemoval, x) <==> !Removes(hasIsRemoval, e))
  {
    var es := p + [e];
    if Kept(p, hasIsRemoval, x) {
      var i :| FirstAt(p, x, i) && !Removes(hasIsRemoval, p[i]);
      FirstAtExtend(p, e, x, i);
      assert es[i] == p[i];
    }
    if Kept(es, hasIsRemoval, x) {
      var i :| FirstAt(es, x, i) && !Removes(hasIsRemoval, es[i]);
      FirstAtExtend(p, e, x, i);
      if i < |p| {
        assert es[i] == p[i];
      }
    }
    if x == e.id && forall j :: 0 <= j < |p| ==> p[j].id != x {
      FirstAtExtend(p, e, x, |p|);
    }
  }

  /** `getValue`: the ids of the objects the trait's value holds, in order
      (each id then maps to one memoised nested model). */
  method GetValue(strata: Strata, hasIsRemoval: bool) returns (ids: seq<string>)
    ensures NoDuplicates(ids)
    ensures forall x :: x in ids <==> Kept(Entries(strata), hasIsRemoval, x)
    ensures FirstSeenOrder(Entries(strata), ids)
  {
    ids := [];
    var removed: set<string> := {};
    ghost var seen: seq<Element> := [];
    for s := 0 to |strata|
      invariant seen == Entries(strata[..s])
      invariant Collected(ids, removed) == Scan(seen, hasIsRemoval)
    {
      assert strata[..s + 1][..s] == strata[..s];
      if strata[s].Some? {
        var objectArray := strata[s].value;
        assert seen + objectArray[..0] == seen;
        for i := 0 to |objectArray|
          invariant Collected(ids, removed) == Scan(seen + objectArray[..i], hasIsRemoval)
        {
          var o := objectArray[i];
          assert (seen + objectArray[..i + 1])[..|seen| + i] == seen + objectArray[..i];
          if hasIsRemoval && o.marksRemoval {
            removed := removed + {o.id};
          } else if o.id in removed {
          } else if o.id !in ids {
            ids := ids + [o.id];
          }
        }
        assert objectArray[..|objectArray|] == objectArray;
        seen := seen + objectArray;
      }
    }
    assert strata[..|strata|] == strata;
    ScanNoDuplicates(seen, hasIsRemoval);
    ScanKept(seen, hasIsRemoval);
    ScanOrder(seen, hasIsRemoval);
  }

  /** Without `isRemoval` nothing is hidden: every id that occurs is collected. */
  lemma NoIsRemovalKeepsAll(es: seq<Element>, x: string)
    ensures Kept(es, false, x) <==> exists i :: 0 <= i < |es| && es[i].id == x
  {
    if exists i :: 0 <= i < |es| && es[i].id == x {
      var i :| 0 <= i < |es| && es[i].id == x;
      var f := FirstOf(es, x, i);
    }
  }

  /** An id that occurs only in removal markers is never collected. */
  lemma OnlyMarkersNeverKept(es: seq<Element>, hasIsRemoval: bool, x: string)
    requires hasIsRemoval
    requires forall i :: 0 <= i < |es| && es[i].id == x ==> es[i].marksRemoval
    ensures !Kept(es, hasIsRemoval, x)
  {
  }

  /** A marker in a higher stratum hides the id below; an id collected
      higher up survives a marker below it. */
  lemma RemovalExamples()
    ensures Kept(Entries([Some([Element("a", true)]), Some([Element("a", false), Element("b", false)])]), true, "b")
    ensures !Kept(Entries([Some([Element("a", true)]), Some([Element("a", false), Element("b", false)])]), true, "a")
    ensures Kept(Entries([Some([Element("a", false)]), None, Some([Element("a", true)])]), true, "a")
  {
    var s1: Strata := [Some([Element("a", true)]), Some([Element("a", false), Element("b", false)])];
    assert s1[..1] == [Some([Element("a", true)])];
    assert s1[..1][..0] == [];
    assert Entries(s1[..1]) == [Element("a", true)];
    var e1 := Entries(s1);
    assert e1 == [Element("a", true), Element("a", false), Element("b", false)];
    assert FirstAt(e1, "b", 2);
    assert FirstAt(e1, "a", 0);
    var s2: Strata := [Some([Element("a", false)]), None, Some([Element("a", true)])];
    assert s2[..2] == [Some([Element("a", false)]), None];
    assert s2[..2][..1] == [Some([Element("a", false)])];
    assert s2[..2][..1][..0] == [];
    assert Entries(s2[..2][..1]) == [Element("a", false)];
    assert Entries(s2[..2]) == [Element("a", false)];
    var e2 := Entries(s2);
    assert e2 == [Element("a", false), Element("a", true)];
    assert FirstAt(e2, "a", 0);
  }

  // ---------------------------------------------------------------------
  // fromJson

  /** A nested trait's `fromJson` result: the value (possibly `undefined`)
      and the error, if any, that `catchError` pushes. */
  datatype SubResult = SubResult(value: Option<Json>, error: Option<TerriaError>)

  /** The element traits type: its traits by name, each with its own decoder. */
  datatype ElementType = ElementType(traits: map<string, Json -> SubResult>)

  /** A decoded element: the properties set on the stratum instance, in key order. */
  type Stratum = seq<(string, Option<Json>)>

  /** `Object.keys(jsonElement)` with the values read back: an object's
      bindings, the indices of an array or a string, none for a number or a
      boolean; `None` for `null`, on which `Object.keys` throws. */
  function Properties(j: Json): (r: Option<seq<(string, Json)>>)
    ensures r.None? <==> j.JNull?
  {
    match j
    case JNull => None
    case JBool(_) => Some([])
    case JNum(_) => Some([])
    case JStr(s) => Some(seq(|s|, i requires 0 <= i < |s| => (NatToString(i), JStr([s[i]]))))
    case JArr(items) => Some(seq(|items|, i requires 0 <= i < |items| => (NatToString(i), items[i])))
    case JObj(fields) => Some(fields)
  }

  /** `typeof` of a JSON value. */
  function TypeOf(j: Json): string {
    match j
    case JNull => "object"
    case JBool(_) => "boolean"
    case JNum(_) => "number"
    case JStr(_) => "string"
    case JArr(_) => "object"
    case JObj(_) => "object"
  }

  function InvalidPropertyError(traitId: string, j: Json): TerriaError {
    New(Options(
      Plain("Property " + traitId + " is expected to be an array but instead it is of type " + TypeOf(j) + "."),
      Some(Plain("Invalid property")), None, None, None, None))
  }

  function UnknownPropertyError(traitId: string, propertyName: string): TerriaError {
    New(Options(
      Plain(propertyName + " is not a valid sub-property of elements of " + traitId + "."),
      Some(Plain("Unknown property")), None, None, None, None))
  }

  /** The property names the type knows, in key order. */
  function KnownKeys(t: ElementType, props: seq<(string, Json)>): (ks: seq<string>)
    ensures forall k :: k in ks <==> exists i :: 0 <= i < |props| && props[i].0 == k && k in t.traits
    decreases |props|
  {
    if props == [] then []
    else
      var rest := KnownKeys(t, props[1..]);
      assert forall i :: 0 < i < |props| ==> props[i] == props[1..][i - 1];
      (if props[0].0 in t.traits then [props[0].0] else []) + rest
  }

  /** The properties the type knows, name and value, in key order. */
  function KnownProps(t: ElementType, props: seq<(string, Json)>): (kp: seq<(string, Json)>)
    ensures |kp| <= |props|
    ensures forall i :: 0 <= i < |kp| ==> kp[i].0 in t.traits
    decreases |props|
  {
    if props == [] then []
    else
      var rest := KnownProps(t, props[1..]);
      var own := if props[0].0 in t.traits then [props[0]] else [];
      assert forall i :: |own| <= i < |own + rest| ==> (own + rest)[i] == rest[i - |own|];
      own + rest
  }

  /** The known properties are exactly the element's properties whose key
      the type knows. */
  lemma {:induction false} KnownPropsExact(t: ElementType, props: seq<(string, Json)>)
    ensures forall p :: p in KnownProps(t, props) <==> p in props && p.0 in t.traits
    decreases |props|
  {
    if props != [] {
      KnownPropsExact(t, props[1..]);
      assert forall p :: p in props <==> p == props[0] || p in props[1..];
    }
  }

  /** The known properties carry the known keys, position by position. */
  lemma {:induction false} KnownKeysOfProps(t: ElementType, props: seq<(string, Json)>)
    ensures |KnownProps(t, props)| == |KnownKeys(t, props)|
    ensures forall i :: 0 <= i < |KnownProps(t, props)| ==> KnownProps(t, props)[i].0 == KnownKeys(t, props)[i]
    decreases |props|
  {
    if props != [] {
      KnownKeysOfProps(t, props[1..]);
      if props[0].0 in t.traits {
        var kp := KnownProps(t, props);
        assert kp == [props[0]] + KnownProps(t, props[1..]);
        assert KnownKeys(t, props) == [props[0].0] + KnownKeys(t, props[1..]);
        assert forall i :: 0 < i < |kp| ==> kp[i] == KnownProps(t, props[1..])[i - 1];
      }
    }
  }

  /** How many property names the type does not know. */
  function UnknownCount(t: ElementType, props: seq<(string, Json)>): nat
    decreases |props|
  {
    if props == [] then 0
    else (if props[0].0 in t.traits then 0 else 1) + UnknownCount(t, props[1..])
  }

  /** How many known properties fail to decode. */
  function SubErrorCount(t: ElementType, props: seq<(string, Json)>): nat
    decreases |props|
  {
    if props == [] then 0
    else
      var failed := props[0].0 in t.traits && t.traits[props[0].0](props[0].1).error.Some?;
      (if failed then 1 else 0) + SubErrorCount(t, props[1..])
  }

  /** One element: each property either decodes through its trait or, when
      the type does not know it, adds an error and is skipped. */
  function DecodeElement(t: ElementType, traitId: string, props: seq<(string, Json)>): (r: (Stratum, seq<TerriaError>))
    ensures |r.0| == |KnownKeys(t, props)|
    ensures forall i :: 0 <= i < |r.0| ==> r.0[i].0 == KnownKeys(t, props)[i]
    ensures |r.0| == |KnownProps(t, props)|
    ensures forall i :: 0 <= i < |r.0| ==>
      var kp := KnownProps(t, props)[i];
      r.0[i] == (kp.0, t.traits[kp.0](kp.1).value)
    decreases |props|
  {
    if props == [] then ([], [])
    else
      var (k, v) := props[0];
      var rest := DecodeElement(t, traitId, props[1..]);
      KnownKeysOfProps(t, props);
      if k !in t.traits then (rest.0, [UnknownPropertyError(traitId, k)] + rest.1)
      else
        var sub := t.traits[k](v);
        var r0 := [(k, sub.value)] + rest.0;
        assert KnownProps(t, props) == [props[0]] + KnownProps(t, props[1..]);
        assert forall i :: 0 < i < |r0| ==> r0[i] == rest.0[i - 1];
        (r0, (if sub.error.Some? then [sub.error.value] else []) + rest.1)
  }

  /** Each unknown property and each failing known property adds exactly one error. */
  lemma {:induction false} DecodeElementErrors(t: ElementType, traitId: string, props: seq<(string, Json)>)
    ensures |DecodeElement(t, traitId, props).1| == UnknownCount(t, props) + SubErrorCount(t, props)
    decreases |props|
  {
    if props != [] {
      DecodeElementErrors(t, traitId, props[1..]);
    }
  }

  /** The elements decoded and their errors, all in order; `None` when an
      element is `null`. */
  function DecodeElements(t: ElementType, traitId: string, items: seq<Json>): (r: Option<(seq<Stratum>, seq<TerriaError>)>)
    ensures r.None? <==> exists i :: 0 <= i < |items| && items[i].JNull?
    ensures r.Some? ==> |r.value.0| == |items|
    ensures r.Some? ==> forall i :: 0 <= i < |items| ==>
      r.value.0[i] == DecodeElement(t, traitId, Properties(items[i]).value).0
    decreases |items|
  {
    if items == [] then Some(([], []))
    else
      match Properties(items[0])
      case None => None
      case Some(props) =>
        var first := DecodeElement(t, traitId, props);
        var rest := DecodeElements(t, traitId, items[1..]);
        assert forall i :: 0 < i < |items| ==> items[i] == items[1..][i - 1];
        if rest.None? then None
        else Some(([first.0] + rest.value.0, first.1 + rest.value.1))
  }

  /** The combined error's message. */
  function CombinedMessage(count: nat, uniqueId: Option<string>): string {
    "Error" + (if count != 1 then "s" else "") +
    " occurred while updating objectArrayTrait model \"" + uniqueId.GetOr("undefined") + "\" from JSON"
  }

  /** A `Result`: a value, possibly undefined, and an error, possibly none. */
  datatype Decoded = Decoded(value: Option<seq<Stratum>>, error: Option<TerriaError>)

  /** `fromJson(model, stratumName, jsonValue)`: a non-array is an error
      result without a value; an array decodes element by element, and the
      errors are combined into one. `Err` is the `TypeError` a `null`
      element raises. */
  function FromJson(t: ElementType, traitId: string, uniqueId: Option<string>, j: Json): (r: Result<Decoded, NativeError>)
    ensures !j.JArr? ==> r == Ok(Decoded(None, Some(InvalidPropertyError(traitId, j))))
    ensures j.JArr? ==> (r.Err? <==> exists i :: 0 <= i < |j.items| && j.items[i].JNull?)
    ensures r.Ok? && j.JArr? ==>
      r.value.value.Some? && |r.value.value.value| == |j.items| &&
      forall i :: 0 <= i < |j.items| ==>
        r.value.value.value[i] == DecodeElement(t, traitId, Properties(j.items[i]).value).0
    ensures r.Ok? && j.JArr? ==>
      var errors := DecodeElements(t, traitId, j.items).value.1;
      (r.value.error.None? <==> errors == []) &&
      r.value.error == Combine(errors, MessageOverride(CombinedMessage(|errors|, uniqueId)))
  {
    if !j.JArr? then Ok(Decoded(None, Some(InvalidPropertyError(traitId, j))))
    else
      match DecodeElements(t, traitId, j.items)
      case None => Err(NativeError("Cannot convert undefined or null to object"))
      case Some((values, errors)) =>
        Ok(Decoded(Some(values), Combine(errors, MessageOverride(CombinedMessage(|errors|, uniqueId)))))
  }

  // ---------------------------------------------------------------------
  // toJson

  /** `toJson`: `undefined` stays `undefined`; otherwise each element is
      saved with `saveStratumToJson`, here the given `save`. */
  function ToJson(save: Stratum -> Json, value: Option<seq<Stratum>>): (r: Option<Json>)
    ensures value.None? <==> r.None?
    ensures value.Some? ==> r.value.JArr? && |r.value.items| == |value.value|
    ensures value.Some? ==> forall i :: 0 <= i < |value.value| ==> r.value.items[i] == save(value.value[i])
  {
    match value
    case None => None
    case Some(v) => Some(JArr(seq(|v|, i requires 0 <= i < |v| => save(v[i]))))
  }

  /** Decoding an array without `null`s and saving it back gives an array of
      the same length, whose elements are the saved decodings of the input's. */
  lemma ToJsonAfterFromJson(t: ElementType, traitId: string, uniqueId: Option<string>, save: Stratum -> Json, items: seq<Json>)
    requires forall i :: 0 <= i < |items| ==> !items[i].JNull?
    ensures var d := FromJson(t, traitId, uniqueId, JArr(items));
      d.Ok? &&
      var back := ToJson(save, d.value.value);
      back.Some? && back.value.JArr? && |back.value.items| == |items| &&
      forall i :: 0 <= i < |items| ==>
        back.value.items[i] == save(DecodeElement(t, traitId, Properties(items[i]).value).0)
  {
  }
}
