/** The `TerriaError` tree: an immutable node with a message, a title, an
    optional sender, a `raisedToUser` flag and a list of original errors
    (other `TerriaError`s or plain JavaScript errors) as children.

    Messages and titles are opaque: either a plain string or an i18n key with
    parameters, never resolved here. */
module TerriaErrors {
  import opened Wrappers

  /** A message or title: a plain string, or a deferred translation key. */
  datatype Text = Plain(s: string) | Key(key: string, params: seq<(string, string)>)

  const DefaultTitle: Text := Key("core.terriaError.defaultTitle", [])
  const DefaultCombineTitle: Text := Key("core.terriaError.defaultCombineTitle", [])
  const DefaultCombineMessage: Text := Key("core.terriaError.defaultCombineMessage", [])
  const UnknownErrorMessage: string := "Unknown error"

  /** A JavaScript `Error` that is not a `TerriaError`. */
  datatype NativeError = NativeError(message: string)

  /** One entry of `originalError`. */
  datatype Cause = FromTerria(err: TerriaError) | FromNative(native: NativeError)

  datatype TerriaError = TerriaError(
    message: Text,
    title: Text,
    sender: Option<string>,
    raisedToUser: bool,
    originalError: seq<Cause>,
    useTerriaErrorNotification: bool)

  /** Anything a `catch` can receive. `ThrownObject` is any other non-null
      object, carrying what its `toString()` returns; `ThrownOther` covers
      `undefined`, `null`, numbers and booleans. */
  datatype Thrown =
    | ThrownTerria(terria: TerriaError)
    | ThrownError(error: NativeError)
    | ThrownString(s: string)
    | ThrownObject(toStringResult: string)
    | ThrownOther

  /** `originalError` as the options accept it: one error or a list. */
  datatype Original = OneCause(cause: Cause) | Causes(causes: seq<Cause>)

  /** `TerriaErrorOptions`; an absent optional key is `None`. */
  datatype Options = Options(
    message: Text,
    title: Option<Text>,
    sender: Option<string>,
    raisedToUser: Option<bool>,
    originalError: Option<Original>,
    useTerriaErrorNotification: Option<bool>)

  /** `Partial<TerriaErrorOptions>`: every key optional. */
  datatype Partial = Partial(
    message: Option<Text>,
    title: Option<Text>,
    sender: Option<string>,
    raisedToUser: Option<bool>,
    originalError: Option<Original>,
    useTerriaErrorNotification: Option<bool>)

  const NoOverrides: Partial := Partial(None, None, None, None, None, None)

  /** `TerriaErrorOverrides`: a string (the new message) or a partial options object. */
  datatype Overrides = MessageOverride(msg: string) | FieldOverrides(fields: Partial)

  function OverrideMessage(s: string): Partial {
    NoOverrides.(message := Some(Plain(s)))
  }

  function Pick<T>(over: Option<T>, base: T): T {
    if over.Some? then over.value else base
  }

  function PickOpt<T>(over: Option<T>, base: Option<T>): Option<T> {
    if over.Some? then over else base
  }

  /** Object spread `{...base, ...p}`: every key present in `p` wins. */
  function Spread(base: Options, p: Partial): (o: Options)
    ensures p.message.Some? ==> o.message == p.message.value
    ensures p.message.None? ==> o.message == base.message
    ensures p.title.Some? ==> o.title == p.title
    ensures p.title.None? ==> o.title == base.title
    ensures p.sender.Some? ==> o.sender == p.sender
    ensures p.sender.None? ==> o.sender == base.sender
    ensures p.raisedToUser.Some? ==> o.raisedToUser == p.raisedToUser
    ensures p.raisedToUser.None? ==> o.raisedToUser == base.raisedToUser
    ensures p.originalError.Some? ==> o.originalError == p.originalError
    ensures p.originalError.None? ==> o.originalError == base.originalError
    ensures p.useTerriaErrorNotification.Some? ==>
      o.useTerriaErrorNotification == p.useTerriaErrorNotification
    ensures p.useTerriaErrorNotification.None? ==>
      o.useTerriaErrorNotification == base.useTerriaErrorNotification
  {
    Options(
      Pick(p.message, base.message),
      PickOpt(p.title, base.title),
      PickOpt(p.sender, base.sender),
      PickOpt(p.raisedToUser, base.raisedToUser),
      PickOpt(p.originalError, base.originalError),
      PickOpt(p.useTerriaErrorNotification, base.useTerriaErrorNotification))
  }

  function OriginalToList(o: Option<Original>): (cs: seq<Cause>)
    ensures o.None? ==> cs == []
    ensures o.Some? && o.value.OneCause? ==> cs == [o.value.cause]
    ensures o.Some? && o.value.Causes? ==> cs == o.value.causes
  {
    match o
    case None => []
    case Some(OneCause(c)) => [c]
    case Some(Causes(cs)) => cs
  }

  /** The constructor. */
  function New(o: Options): (e: TerriaError)
    ensures e.message == o.message
    ensures o.title.None? ==> e.title == DefaultTitle
    ensures o.title.Some? ==> e.title == o.title.value
    ensures e.sender == o.sender
    ensures e.raisedToUser == (o.raisedToUser == Some(true))
    ensures o.originalError.None? ==> e.originalError == []
    ensures o.originalError.Some? && o.originalError.value.OneCause? ==>
      e.originalError == [o.originalError.value.cause]
    ensures o.originalError.Some? && o.originalError.value.Causes? ==>
      e.originalError == o.originalError.value.causes
    ensures e.useTerriaErrorNotification == (o.useTerriaErrorNotification != Some(false))
  {
    TerriaError(
      o.message,
      o.title.GetOr(DefaultTitle),
      o.sender,
      o.raisedToUser.GetOr(false),
      OriginalToList(o.originalError),
      o.useTerriaErrorNotification.GetOr(true))
  }

  function OverridesToPartial(ov: Overrides): Partial {
    match ov
    case MessageOverride(s) => OverrideMessage(s)
    case FieldOverrides(p) => p
  }

  /** `TerriaError.combine`: no error for an empty list, otherwise a new node
      whose children are the given errors. */
  function Combine(errors: seq<TerriaError>, overrides: Overrides): (r: Option<TerriaError>)
    ensures r.None? <==> |errors| == 0
    ensures r.Some? && OverridesToPartial(overrides).originalError.None? ==>
      |r.value.originalError| == |errors| &&
      forall i :: 0 <= i < |errors| ==> r.value.originalError[i] == FromTerria(errors[i])
    ensures r.Some? && overrides.MessageOverride? ==>
      r.value.message == Plain(overrides.msg) && r.value.title == DefaultCombineTitle
    ensures r.Some? && OverridesToPartial(overrides).raisedToUser.None? ==> !r.value.raisedToUser
  {
    if |errors| == 0 then None
    else
      var base := Options(
        DefaultCombineMessage, Some(DefaultCombineTitle), None, None,
        Some(Causes(seq(|errors|, i requires 0 <= i < |errors| => FromTerria(errors[i])))), None);
      Some(New(Spread(base, OverridesToPartial(overrides))))
  }

  /** `createParentError`: a copy of this node's message, title, sender and
      flag whose only child is this node, with the overrides applied on top. */
  function CreateParentError(e: TerriaError, overrides: Option<Overrides>): (p: TerriaError)
    ensures overrides.None? ==>
      p.message == e.message && p.title == e.title && p.sender == e.sender &&
      p.raisedToUser == e.raisedToUser && p.originalError == [FromTerria(e)]
    ensures overrides.Some? && overrides.value.MessageOverride? ==>
      p.message == Plain(overrides.value.msg) && p.title == e.title && p.sender == e.sender &&
      p.raisedToUser == e.raisedToUser && p.originalError == [FromTerria(e)]
    ensures overrides.Some? && OverridesToPartial(overrides.value).originalError.None? ==>
      p.originalError == [FromTerria(e)]
    ensures overrides.Some? && overrides.value.FieldOverrides? ==>
      var q := overrides.value.fields;
      p.message == (if q.message.Some? then q.message.value else e.message) &&
      p.title == (if q.title.Some? then q.title.value else e.title) &&
      p.sender == (if q.sender.Some? then q.sender else e.sender) &&
      p.raisedToUser == (if q.raisedToUser.Some? then q.raisedToUser.value else e.raisedToUser) &&
      p.useTerriaErrorNotification == (q.useTerriaErrorNotification != Some(false))
  {
    var base := Options(e.message, Some(e.title), e.sender, Some(e.raisedToUser),
                        Some(OneCause(FromTerria(e))), None);
    match overrides
    case None => New(base)
    case Some(ov) => New(Spread(base, OverridesToPartial(ov)))
  }

  /** The message `from` extracts from a thrown value that is not a `TerriaError`. */
  function FromMessage(error: Thrown, overrides: Option<Overrides>): (m: string)
    requires !error.ThrownTerria?
    ensures overrides.Some? && overrides.value.MessageOverride? ==> m == overrides.value.msg
    ensures !(overrides.Some? && overrides.value.MessageOverride?) ==>
      m == (match error
            case ThrownString(s) => s
            case ThrownError(n) => n.message
            case ThrownObject(t) => t
            case _ => UnknownErrorMessage)
  {
    if overrides.Some? && overrides.value.MessageOverride? then overrides.value.msg
    else match error
      case ThrownString(s) => s
      case ThrownError(n) => n.message
      case ThrownObject(t) => t
      case _ => UnknownErrorMessage
  }

  /** `TerriaError.from`. */
  function From(error: Thrown, overrides: Option<Overrides>): (r: TerriaError)
    ensures error.ThrownTerria? && overrides.None? ==> r == error.terria
    ensures error.ThrownTerria? && overrides.Some? ==>
      r == CreateParentError(error.terria, overrides)
    ensures !error.ThrownTerria? && overrides.Some? && overrides.value.FieldOverrides?
              && overrides.value.fields.message.Some? ==>
      r.message == overrides.value.fields.message.value
    ensures !error.ThrownTerria? &&
            !(overrides.Some? && overrides.value.FieldOverrides? && overrides.value.fields.message.Some?) ==>
      r.message == Plain(FromMessage(error, overrides))
    ensures !error.ThrownTerria? && !(overrides.Some? && overrides.value.FieldOverrides?) ==>
      r.title == DefaultTitle && !r.raisedToUser &&
      r.originalError == (if error.ThrownError? then [FromNative(error.error)] else [])
  {
    if error.ThrownTerria? then
      if overrides.Some? then CreateParentError(error.terria, overrides) else error.terria
    else
      var message := FromMessage(error, overrides);
      var fields := if overrides.Some? && overrides.value.FieldOverrides?
                    then overrides.value.fields else NoOverrides;
      var base := Options(
        Plain(message), Some(DefaultTitle), None, None,
        if error.ThrownError? then Some(OneCause(FromNative(error.error))) else None, None);
      New(Spread(base, fields))
  }

  /** The `raisedToUser` setter AS WRITTEN: `originalError` is always an
      array, so the `instanceof TerriaError` branch never runs and only this
      node's own flag changes. */
  function SetRaisedToUser(e: TerriaError, r: bool): (m: TerriaError)
    ensures m.raisedToUser == r
    ensures m.(raisedToUser := e.raisedToUser) == e
  {
    e.(raisedToUser := r)
  }

  /** The tree-wide setter the setter's documentation describes: every
      `TerriaError` in the tree gets the flag. */
  function SetRaisedToUserTree(e: TerriaError, r: bool): (m: TerriaError)
    ensures m.raisedToUser == r
    ensures |m.originalError| == |e.originalError|
    decreases e
  {
    e.(raisedToUser := r,
       originalError := seq(|e.originalError|, i requires 0 <= i < |e.originalError| =>
         match e.originalError[i]
         case FromTerria(c) => FromTerria(SetRaisedToUserTree(c, r))
         case FromNative(n) => FromNative(n)))
  }

  /** `flatten`: this node, then the flattened `TerriaError` children in
      order; plain errors contribute nothing. */
  function Flatten(e: TerriaError): (r: seq<TerriaError>)
    ensures |r| >= 1 && r[0] == e
    decreases e, |e.originalError| + 1
  {
    [e] + FlattenChildren(e, 0)
  }

  function FlattenCause(e: TerriaError, i: nat): seq<TerriaError>
    requires i < |e.originalError|
    decreases e, 0
  {
    match e.originalError[i]
    case FromTerria(c) => Flatten(c)
    case FromNative(_) => []
  }

  function FlattenChildren(e: TerriaError, i: nat): seq<TerriaError>
    requires i <= |e.originalError|
    decreases e, |e.originalError| - i
  {
    if i == |e.originalError| then [] else FlattenCause(e, i) + FlattenChildren(e, i + 1)
  }

  /** Independent reference definition: `x` is a node of the tree rooted at `e`. */
  predicate InTree(x: TerriaError, e: TerriaError)
    decreases e
  {
    x == e ||
    exists i :: 0 <= i < |e.originalError| && e.originalError[i].FromTerria? &&
      InTree(x, e.originalError[i].err)
  }

  /** Number of `TerriaError` nodes in the tree. */
  function Size(e: TerriaError): nat
    decreases e, |e.originalError| + 1
  {
    1 + SizeChildren(e, 0)
  }

  function SizeChildren(e: TerriaError, i: nat): nat
    requires i <= |e.originalError|
    decreases e, |e.originalError| - i
  {
    if i == |e.originalError| then 0
    else (match e.originalError[i]
          case FromTerria(c) => Size(c)
          case FromNative(_) => 0) + SizeChildren(e, i + 1)
  }

  // ---------------------------------------------------------------------
  // Properties of `flatten`

  /** `flatten` lists exactly the nodes of the tree. */
  lemma {:induction false} FlattenIsTree(x: TerriaError, e: TerriaError)
    ensures x in Flatten(e) <==> InTree(x, e)
    decreases e, |e.originalError| + 1
  {
    FlattenChildrenIsTree(x, e, 0);
    if x in Flatten(e) && x != e {
      assert x in FlattenChildren(e, 0);
    }
  }

  lemma {:induction false} FlattenChildrenIsTree(x: TerriaError, e: TerriaError, i: nat)
    requires i <= |e.originalError|
    ensures x in FlattenChildren(e, i) <==>
      exists j :: i <= j < |e.originalError| && e.originalError[j].FromTerria? &&
        InTree(x, e.originalError[j].err)
    decreases e, |e.originalError| - i
  {
    if i < |e.originalError| {
      FlattenChildrenIsTree(x, e, i + 1);
      match e.originalError[i]
      case FromTerria(c) =>
        FlattenIsTree(x, c);
      case FromNative(_) =>
    }
  }

  /** The length of `flatten` is one plus the sizes of the `TerriaError` children. */
  lemma {:induction false} FlattenLength(e: TerriaError)
    ensures |Flatten(e)| == Size(e)
    decreases e, |e.originalError| + 1
  {
    FlattenChildrenLength(e, 0);
  }

  lemma {:induction false} FlattenChildrenLength(e: TerriaError, i: nat)
    requires i <= |e.originalError|
    ensures |FlattenChildren(e, i)| == SizeChildren(e, i)
    decreases e, |e.originalError| - i
  {
    if i < |e.originalError| {
      FlattenChildrenLength(e, i + 1);
      match e.originalError[i]
      case FromTerria(c) => FlattenLength(c);
      case FromNative(_) =>
    }
  }

  /** Concatenation of the flattenings of a list of errors. */
  function FlattenAll(errors: seq<TerriaError>): seq<TerriaError> {
    if errors == [] then [] else Flatten(errors[0]) + FlattenAll(errors[1..])
  }

  lemma {:induction false} FlattenChildrenOfTerriaList(e: TerriaError, errors: seq<TerriaError>, i: nat)
    requires |e.originalError| == |errors|
    requires forall k :: 0 <= k < |errors| ==> e.originalError[k] == FromTerria(errors[k])
    requires i <= |errors|
    ensures FlattenChildren(e, i) == FlattenAll(errors[i..])
    decreases |errors| - i
  {
    if i < |errors| {
      FlattenChildrenOfTerriaList(e, errors, i + 1);
      assert errors[i..][1..] == errors[i + 1..];
    } else {
      assert errors[i..] == [];
    }
  }

  /** Flattening a combined error lists the new node, then every combined
      error's own flattening, in order. */
  lemma FlattenCombine(errors: seq<TerriaError>, overrides: Overrides)
    requires |errors| > 0
    requires OverridesToPartial(overrides).originalError.None?
    ensures Flatten(Combine(errors, overrides).value) ==
      [Combine(errors, overrides).value] + FlattenAll(errors)
  {
    var c := Combine(errors, overrides).value;
    FlattenChildrenOfTerriaList(c, errors, 0);
    assert errors[0..] == errors;
  }

  /** A parent error made without replacing `originalError` flattens to
      itself followed by the original tree. */
  lemma FlattenParent(e: TerriaError, overrides: Option<Overrides>)
    requires overrides.None? || OverridesToPartial(overrides.value).originalError.None?
    ensures Flatten(CreateParentError(e, overrides)) == [CreateParentError(e, overrides)] + Flatten(e)
  {
    var p := CreateParentError(e, overrides);
    assert p.originalError == [FromTerria(e)];
    assert FlattenChildren(p, 1) == [];
    assert FlattenCause(p, 0) == Flatten(e);
    assert FlattenChildren(p, 0) == Flatten(e) + [];
  }

  /** Plain (non-Terria) children contribute nothing to `flatten`. */
  lemma NativeChildIgnored(e: TerriaError, n: NativeError)
    ensures Flatten(e.(originalError := e.originalError + [FromNative(n)]))[1..] == Flatten(e)[1..]
  {
    var e' := e.(originalError := e.originalError + [FromNative(n)]);
    NativeSuffix(e, e', 0, n);
  }

  lemma {:induction false} NativeSuffix(e: TerriaError, e': TerriaError, i: nat, n: NativeError)
    requires e'.originalError == e.originalError + [FromNative(n)]
    requires i <= |e.originalError|
    ensures FlattenChildren(e', i) == FlattenChildren(e, i)
    decreases |e.originalError| - i
  {
    if i < |e.originalError| {
      NativeSuffix(e, e', i + 1, n);
      assert e'.originalError[i] == e.originalError[i];
      match e.originalError[i]
      case FromTerria(c) =>
      case FromNative(_) =>
    } else {
      assert FlattenCause(e', i) == [];
      assert FlattenChildren(e', i + 1) == [];
    }
  }

  // ---------------------------------------------------------------------
  // Properties of `raisedToUser`

  /** As written, setting the flag leaves every other node of the tree as it was. */
  lemma SetRaisedToUserKeepsDescendants(e: TerriaError, r: bool)
    ensures Flatten(SetRaisedToUser(e, r))[1..] == Flatten(e)[1..]
  {
    var m := SetRaisedToUser(e, r);
    SameChildren(m, e, 0);
  }

  lemma {:induction false} SameChildren(a: TerriaError, b: TerriaError, i: nat)
    requires a.originalError == b.originalError
    requires i <= |a.originalError|
    ensures FlattenChildren(a, i) == FlattenChildren(b, i)
    decreases |a.originalError| - i
  {
    if i < |a.originalError| {
      SameChildren(a, b, i + 1);
    }
  }

  /** A concrete parent/child pair on which the documented tree-wide
      behaviour does not happen: after setting the parent's flag, the
      child still reads `false`. */
  lemma SetRaisedToUserMissesChild()
    ensures
      var child := New(Options(Plain("child"), None, None, None, None, None));
      var parent := New(Options(Plain("parent"), None, None, None, Some(Causes([FromTerria(child)])), None));
      var marked := SetRaisedToUser(parent, true);
      marked.raisedToUser && !marked.originalError[0].err.raisedToUser
  {
  }

  /** The tree-wide setter marks every node that `flatten` lists. */
  lemma {:induction false} SetRaisedToUserTreeMarksAll(e: TerriaError, r: bool)
    ensures forall x :: x in Flatten(SetRaisedToUserTree(e, r)) ==> x.raisedToUser == r
    decreases e, |e.originalError| + 1
  {
    var m := SetRaisedToUserTree(e, r);
    forall x | x in Flatten(m)
      ensures x.raisedToUser == r
    {
      if x != m {
        assert x in FlattenChildren(m, 0);
        MarkedChildren(e, r, 0, x);
      }
    }
  }

  lemma {:induction false} MarkedChildren(e: TerriaError, r: bool, i: nat, x: TerriaError)
    requires i <= |e.originalError|
    requires x in FlattenChildren(SetRaisedToUserTree(e, r), i)
    ensures x.raisedToUser == r
    decreases e, |e.originalError| - i
  {
    var m := SetRaisedToUserTree(e, r);
    if i < |e.originalError| {
      if x in FlattenCause(m, i) {
        match e.originalError[i]
        case FromTerria(c) =>
          assert m.originalError[i] == FromTerria(SetRaisedToUserTree(c, r));
          SetRaisedToUserTreeMarksAll(c, r);
        case FromNative(_) =>
          assert m.originalError[i].FromNative?;
      } else {
        MarkedChildren(e, r, i + 1, x);
      }
    }
  }

  /** The tree-wide setter keeps the tree's shape: it has as many nodes as before. */
  lemma {:induction false} SetRaisedToUserTreeKeepsSize(e: TerriaError, r: bool)
    ensures Size(SetRaisedToUserTree(e, r)) == Size(e)
    decreases e, |e.originalError| + 1
  {
    MarkedSizeChildren(e, r, 0);
  }

  lemma {:induction false} MarkedSizeChildren(e: TerriaError, r: bool, i: nat)
    requires i <= |e.originalError|
    ensures SizeChildren(SetRaisedToUserTree(e, r), i) == SizeChildren(e, i)
    decreases e, |e.originalError| - i
  {
    var m := SetRaisedToUserTree(e, r);
    if i < |e.originalError| {
      MarkedSizeChildren(e, r, i + 1);
      match e.originalError[i]
      case FromTerria(c) =>
        assert m.originalError[i] == FromTerria(SetRaisedToUserTree(c, r));
        SetRaisedToUserTreeKeepsSize(c, r);
      case FromNative(_) =>
        assert m.originalError[i].FromNative?;
    }
  }
}
