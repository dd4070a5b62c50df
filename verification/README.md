# TerriaJS catalog core in Dafny

A model of the core of TerriaJS, a web map and catalog framework. The model covers seven parts.

- **Workbench.** The ordered list of data items the user has added. Items that support reordering stay below those that do not. Within each of those two classes, `keepOnTop` items stay first.
- **`TerriaError`.** The error tree: wrapping, combining, flattening and the `raisedToUser` flag. Also `Terria.raiseErrorToUser`.
- **`Terria` model registry.** Models are held by unique id. Share keys are old ids that resolve to current ones.
- **`Terria` initialisation.** The init-data helpers: base URL, config parameters, init sources and their errors, a model's stratum, viewer mode, base maps, workbench and timeline.
- **`GroupMixin` and `CompositeCatalogItem`.** Group and composite members.
- **`objectArrayTrait`.** Strata merge with removal markers, and JSON decoding and encoding.
- **`TableAutomaticStylesStratum`.** Automatic table styles and the enum legend.
- **`ArcGisMapServerCatalogItem`.** Layer selection, naming, legends, bounding box and the choice of layer list in `load`.

Models are records in a heap: `Models.Heap` maps a `Ref` handle to a `ModelRec`. Object identity (`===` on models) is equality of handles. Every operation is a pure function from the old state to the new one. Thrown exceptions are a `Result` whose error holds the thrown value (`TerriaErrors.Thrown`). JSON is an ordered association list, so `Object.entries` order is kept.

Modules, one per file:

- `wrappers`, `strings`, `json`: `Option`/`Result` and the JavaScript string and JSON operations used.
- `models`: the model heap, dereferencing, layer-ordering flags and `knownContainerUniqueIds`.
- `terria_error`: `lib/Core/TerriaError.ts`.
- `registry`: the model and share-key maps of `lib/Models/Terria.ts`, and `raiseErrorToUser`.
- `init_data`: the initialisation helpers of `lib/Models/Terria.ts`.
- `workbench`: `lib/Models/Workbench.ts`.
- `groups`: `lib/ModelMixins/GroupMixin.ts`.
- `composite`: `lib/Models/CompositeCatalogItem.ts`.
- `object_array_trait`: `lib/Traits/objectArrayTrait.ts`.
- `table_styles`: `lib/Table/TableAutomaticStylesStratum.ts`.
- `arcgis`: `lib/Models/ArcGisMapServerCatalogItem.ts`.

## Model

| member | source | states |
|---|---|---|
| Models.Deref | lib/Models/Workbench.ts:247-252 | A reference with a loaded target stands for the target; any other model stands for itself |
| Workbench.Items | lib/Models/Workbench.ts:28-31 | The visible items are the stored entries dereferenced, position by position |
| Workbench.SetItems | lib/Models/Workbench.ts:32-34 | After the setter, the visible items are exactly the dereferenced new list |
| Workbench.IndexOf | lib/Models/Workbench.ts:216-230 | The first visible entry that is the item, or dereferences to the same model; -1 exactly when none does |
| Workbench.ContainsIff | lib/Models/Workbench.ts:216-221 | `contains` holds iff some visible entry matches the item |
| Workbench.Remove | lib/Models/Workbench.ts:70-75 | Removing an absent item changes nothing; otherwise exactly the first matching entry is cut out and the rest keep their order |
| Workbench.SkipFixed | lib/Models/Workbench.ts:120-126 | The first loop for a reorderable item stops at the first reorderable entry at or after the index, or at the end |
| Workbench.RetreatReorderable | lib/Models/Workbench.ts:127-135 | The first loop for a non-reorderable item backs up over reorderable entries only |
| Workbench.SkipOnTop | lib/Models/Workbench.ts:137-144 | The second loop for an ordinary item steps past `keepOnTop` entries of its own class only |
| Workbench.RetreatOther | lib/Models/Workbench.ts:145-155 | The second loop for a `keepOnTop` item backs up over ordinary entries of its own class only |
| Workbench.InsertionIndexSplits | lib/Models/Workbench.ts:112-160 | On a list ordered by class and `keepOnTop`, the computed position has only lower-or-equal ranks before it and higher-or-equal ranks after it |
| Workbench.InsertKeepsOrder | lib/Models/Workbench.ts:112-160 | Inserting at the computed position keeps the list ordered (reorderable below non-reorderable, `keepOnTop` first within a class) |
| Workbench.InsertionIndexPlain | lib/Models/Workbench.ts:112-160 | When every item is reorderable and none is `keepOnTop`, the requested index is used unchanged |
| Workbench.InsertItem | lib/Models/Workbench.ts:112-160 | An item already present (directly or via dereferencing) is not added again; otherwise exactly its source reference, or itself, is spliced in once |
| Workbench.InsertItemContains | lib/Models/Workbench.ts:112-160 | After `insertItem` the workbench contains the item |
| Workbench.InsertItemKeepsOrder | lib/Models/Workbench.ts:112-160 | `insertItem` preserves the class and `keepOnTop` ordering of the list |
| Workbench.InsertItemAtRequestedIndex | lib/Models/Workbench.ts:112-160 | For plain layers the item lands exactly at the requested index |
| Workbench.RemoveKeepsOrder | lib/Models/Workbench.ts:70-75 | Removing an item preserves the ordering of the rest |
| Workbench.RemoveUndoesInsert | lib/Models/Workbench.ts:70-75 | Removing a freshly inserted item restores the list exactly |
| Workbench.MoveItemToIndex | lib/Models/Workbench.ts:238-244 | Moving an absent item changes nothing; moving a present item is remove-then-insert at the new index |
| Workbench.MoveKeepsOrder | lib/Models/Workbench.ts:238-244 | Moving never breaks the ordering: a `keepOnTop` item cannot be moved below ordinary items of its class |
| Workbench.MoveKeepsEntries | lib/Models/Workbench.ts:238-244 | Moving is a permutation of the stored entries |
| Workbench.MoveToRequestedIndex | lib/Models/Workbench.ts:238-244 | For plain layers the moved item lands exactly at the new index |
| Workbench.CatchAdd | lib/Models/Workbench.ts:200-208 | A `TerriaError` from loading is rethrown as is; anything else becomes the generic add-item error |
| Workbench.Fail | lib/Models/Workbench.ts:200-208 | On failure the item is removed again and the caught error is reported |
| Workbench.LoadRest | lib/Models/Workbench.ts:195-208 | Loading metadata and map items succeeds exactly when neither load that applies fails; success leaves the list untouched, failure removes the item |
| Workbench.LoadReference | lib/Models/Workbench.ts:179-182 | Loading a reference sets its target and changes no other model; loading an already loaded reference changes nothing |
| Workbench.AddKeepsOrder | lib/Models/Workbench.ts:170-209 | When every reference `add` loads already has its target, `add` changes no model and preserves the ordering of the list, whether loads succeed or fail |
| Workbench.ContinueKeepsOrder | lib/Models/Workbench.ts:178-208 | Under the same condition, every step after the insert in `add` changes no model and preserves the ordering |
| Workbench.LoadRestKeepsOrder | lib/Models/Workbench.ts:195-208 | The loading steps of `add` preserve the ordering |
| Workbench.FailedAddRestores | lib/Models/Workbench.ts:170-209 | When `add` of an absent model fails, with every reference it loads already loaded, the list is exactly as it was before |
| Workbench.FailedTargetAddRestores | lib/Models/Workbench.ts:190-203 | After a loaded reference is inserted, `add(target)` finds the target already present; when it fails it removes that entry and the list is as before |
| Workbench.SucceededAddContains | lib/Models/Workbench.ts:170-209 | When `add` of a non-reference succeeds, no model changes and the workbench contains the item |
| Workbench.InsertItemKeepsContains | lib/Models/Workbench.ts:112-160 | `insertItem` never loses an entry: what the list contained it still contains |
| Workbench.InsertAllContains | lib/Models/Workbench.ts:170-176 | After the inserts of `add(items)` the list contains what it contained and every item of the array |
| Workbench.ReverseReverse | lib/Models/Workbench.ts:171-174 | Reversing the array twice gives it back |
| Workbench.InsertAllPlain | lib/Models/Workbench.ts:170-176 | Inserting distinct plain layers one by one at index 0 puts them in front, last inserted first |
| Workbench.ContinueAll | lib/Models/Workbench.ts:170-174 | With no items nothing changes; when the first continuation fails, its error is the one reported |
| Workbench.ContinueAllAppend | lib/Models/Workbench.ts:170-174 | Every continuation runs, each on what the previous ones left; the error reported is the first one |
| Workbench.ContinueAllPlain | lib/Models/Workbench.ts:178-199 | Continuations of non-references whose loads succeed change neither the list nor any model, and report no error |
| Workbench.AddAllKeepsArrayOrder | lib/Models/Workbench.ts:170-174 | `add([x1, ..., xn])` of distinct plain layers whose loads succeed puts them in front of the list in the array's order, with no error |
| Workbench.UnloadedReferenceOutOfOrder | lib/Models/Workbench.ts:176-191 | A reference is inserted before it is loaded, by its own flags; once loaded it can stand above a `keepOnTop` layer while it is not one itself, leaving the list out of order |
| Workbench.AddWithKeepOnTopExample | test/Models/WorkbenchSpec.ts:51-131 | Adding A, B and a `keepOnTop` C gives C, A, B |
| Workbench.MoveWithKeepOnTopExample | test/Models/WorkbenchSpec.ts:51-131 | A can move below B, C cannot leave the top, and a new `keepOnTop` D goes first |
| Workbench.AddNonReorderableExample | test/Models/WorkbenchSpec.ts:51-131 | A non-reorderable C stays above A and B; a new `keepOnTop` D goes just below C |
| TerriaErrors.Spread | lib/Core/TerriaError.ts:176-185 | Object spread, field by field for all six options: a present override wins and an absent one keeps the base value |
| TerriaErrors.New | lib/Core/TerriaError.ts:122-136 | The constructor keeps message and sender, defaults the title, flattens the original error to a list, and defaults the flags |
| TerriaErrors.Combine | lib/Core/TerriaError.ts:101-120 | No error for an empty list; otherwise a node whose children are exactly the given errors, in order |
| TerriaErrors.CreateParentError | lib/Core/TerriaError.ts:172-186 | The parent copies the error's message, title, sender and flag; a message override replaces the message; field overrides replace exactly the fields they set; the error is the only child unless the overrides give other children |
| TerriaErrors.FromMessage | lib/Core/TerriaError.ts:70-96 | A message override wins; otherwise the message comes from the string, `Error` or object thrown |
| TerriaErrors.From | lib/Core/TerriaError.ts:70-96 | A `TerriaError` is returned unchanged without overrides and wrapped in a parent with them; other values become a new error with the derived message |
| TerriaErrors.SetRaisedToUser | lib/Core/TerriaError.ts:151-156 | The setter changes the node's own flag and nothing else |
| TerriaErrors.SetRaisedToUserTree | lib/Core/TerriaError.ts:151-156 | The intended setter: marks the node and recursively every `TerriaError` below it |
| TerriaErrors.Flatten | lib/Core/TerriaError.ts:188-199 | The error itself comes first in its flattening |
| TerriaErrors.FlattenIsTree | lib/Core/TerriaError.ts:188-199 | An error is in the flattening iff it is the root or in the tree of a `TerriaError` child |
| TerriaErrors.FlattenLength | lib/Core/TerriaError.ts:188-199 | The flattening has one entry per `TerriaError` node of the tree |
| TerriaErrors.FlattenCombine | lib/Core/TerriaError.ts:101-120 | Flattening a combined error gives the new node followed by each combined error's flattening, in order |
| TerriaErrors.FlattenParent | lib/Core/TerriaError.ts:172-186 | Flattening a parent error gives the parent followed by the child's flattening |
| TerriaErrors.NativeChildIgnored | lib/Core/TerriaError.ts:188-199 | Native `Error` children add nothing to the flattening |
| TerriaErrors.SetRaisedToUserKeepsDescendants | lib/Core/TerriaError.ts:151-156 | The setter as written leaves every descendant unchanged |
| TerriaErrors.SetRaisedToUserMissesChild | lib/Core/TerriaError.ts:151-156 | Counterexample: after marking a parent as raised, its `TerriaError` child is still not marked |
| TerriaErrors.SetRaisedToUserTreeMarksAll | lib/Core/TerriaError.ts:151-156 | With the intended setter, every error in the flattening carries the new flag |
| TerriaErrors.SetRaisedToUserTreeKeepsSize | lib/Core/TerriaError.ts:151-156 | The intended setter does not change the shape of the tree |
| Registry.EmptyValid | lib/Models/Terria.ts:553-629 | An empty registry is consistent: every share key is listed under the id it resolves to, and only there |
| Registry.GetModelById | lib/Models/Terria.ts:553-561 | A model is found exactly when its id is registered |
| Registry.GetModelIdByShareKey | lib/Models/Terria.ts:604-606 | A share key resolves exactly when it is registered, to the id it was added for |
| Registry.GetModelByIdOrShareKey | lib/Models/Terria.ts:608-621 | An id wins over a share key; a share key is followed to its id; otherwise nothing |
| Registry.AddShareKey | lib/Models/Terria.ts:623-629 | A key equal to the id, or one already taken, is ignored; otherwise it maps to the id and is appended to that id's keys, and nothing else changes |
| Registry.AddShareKeyValid | lib/Models/Terria.ts:623-629 | Adding a share key keeps the two maps consistent |
| Registry.ShareKeyResolves | lib/Models/Terria.ts:608-629 | After adding a share key, looking it up gives the same model as looking up the id |
| Registry.ShareKeyFirstWins | lib/Models/Terria.ts:623-629 | A share key already taken keeps its first id |
| Registry.AddShareKeys | lib/Models/Terria.ts:563-575 | Every share key other than the id itself is registered, a key that was free maps to the id, no existing share key is rebound, and no other key appears |
| Registry.AddShareKeysValid | lib/Models/Terria.ts:563-575 | Adding several share keys keeps the maps consistent |
| Registry.AddModel | lib/Models/Terria.ts:563-575 | A model without an id, or with an id already taken, is an error; otherwise it is registered under its id, and each of its share keys that was free maps to that id, with no other key added or rebound |
| Registry.AddModelFound | lib/Models/Terria.ts:553-575 | After `addModel`, `getModelById` of its id gives the model, and the registry stays consistent |
| Registry.AddModelTwice | lib/Models/Terria.ts:563-575 | Adding the same model twice fails with a duplicate-id error |
| Registry.RaiseErrorToUser | lib/Models/Terria.ts:512-521 | Nothing when `ignoreErrors=1`; otherwise the error is marked raised, and it is emitted only if it was not raised already |
| Registry.RaiseTwiceEmitsOnce | lib/Models/Terria.ts:512-521 | Raising the same error a second time emits nothing more |
| Registry.RaiseParentThenChild | lib/Models/Terria.ts:512-521 | Because the setter does not reach children, raising a combined error and then its child emits twice |
| InitData.BaseUrl | lib/Models/Terria.ts:489-496 | The default without an option; otherwise the option, which prefixes the result |
| InitData.BaseUrlEndsInSlash | lib/Models/Terria.ts:489-496 | The base URL always ends in `/`, and an option already ending in `/` is used as is |
| InitData.BaseUrlIdempotent | lib/Models/Terria.ts:489-496 | Normalising a normalised base URL changes nothing |
| InitData.DefaultValue | lib/Models/Terria.ts:855-859 | A defined value wins; undefined or null falls back |
| InitData.CopyKnown | lib/Models/Terria.ts:848-853 | Only keys the config already has are copied; the key set is unchanged |
| InitData.CopyKnownLastWins | lib/Models/Terria.ts:848-853 | For a known key, the last parameter with that key wins; with no such parameter the old value stays |
| InitData.UpdateParameters | lib/Models/Terria.ts:847-860 | The config keys stay the same; `appName` and `supportEmail` follow the new config values when defined |
| InitData.LastFive | lib/Models/Terria.ts:1599-1618 | The last five characters, or the whole string when shorter |
| InitData.GenerateInitializationUrl | lib/Models/Terria.ts:1599-1618 | A `.json` URL (any case) is used directly; otherwise one candidate per fragment path, with `.json` appended |
| InitData.GeneratedUrlsEndInJson | lib/Models/Terria.ts:1599-1618 | Every generated candidate URL ends in `.json` |
| InitData.AsObject | lib/Models/Terria.ts:862-899 | A loaded init source is usable exactly when it is a JSON object |
| InitData.FirstDefinedOptionWins | lib/Models/Terria.ts:877-887 | Of a list of options, the first that loads a defined value is the result |
| InitData.FirstDefinedFrom | lib/Models/Terria.ts:877-887 | The option loop from any position returns the first later option that loads a value |
| InitData.NoOptionYields | lib/Models/Terria.ts:877-887 | When no option loads a value, the result is the last failure, or undefined when none failed |
| InitData.NoOptionFrom | lib/Models/Terria.ts:877-887 | The option loop with no defined value ends with the last failure seen, or undefined |
| InitData.LoadSources | lib/Models/Terria.ts:901-941 | Each source yields data or an error, never both; there are as many errors as failed sources |
| InitData.LoadSourcesErrors | lib/Models/Terria.ts:901-941 | The errors are the failed sources' errors, in order, each wrapped with the source's name |
| InitData.FailedSources | lib/Models/Terria.ts:901-941 | The failed sources are sources whose load threw |
| InitData.CombineInitErrors | lib/Models/Terria.ts:954-964 | No error without failures; otherwise one error whose children are the failures, in order, under the init-sources title |
| InitData.SetKey | lib/Models/Terria.ts:973-984 | Setting a key changes only that key's value |
| InitData.PrepareModelStratum | lib/Models/Terria.ts:973-984 | Truthy non-object init data is an invalid-traits error; otherwise the traits lack `dereferenced` and `knownContainerUniqueIds`, carry the model's `id`, and keep every other field |
| InitData.StratumData | lib/Models/Terria.ts:973-980 | Falsy data for a model reads as an empty object |
| InitData.DeleteLookup | lib/Models/Terria.ts:973-984 | Deleting a key removes exactly that key |
| InitData.MergeContainerIds | lib/Models/Terria.ts:1068-1077 | The known container ids stay first; every string container id is added; nothing else is |
| InitData.MergeKeepsUnique | lib/Models/Terria.ts:1068-1077 | The merge never creates a duplicate container id |
| InitData.MergeIdempotent | lib/Models/Terria.ts:1068-1077 | Merging the same container ids twice is the same as merging once |
| InitData.MergeNoop | lib/Models/Terria.ts:1068-1077 | Merging ids already known changes nothing |
| InitData.DereferencedStep | lib/Models/Terria.ts:1078-1127 | Truthy `dereferenced` data for a model that is not a loaded reference is an error; a loaded reference with a target gets the data, or an empty object |
| InitData.StratumId | lib/Models/Terria.ts:1166-1169 | The init data's `stratum` string, or `definition` |
| InitData.ApplyViewerMode | lib/Models/Terria.ts:1192-1206 | `3d`, `3dsmooth` and `2d` (any case) select the viewer and terrain; anything else changes nothing |
| InitData.ViewerModeIgnoresCase | lib/Models/Terria.ts:1192-1206 | Viewer-mode strings that differ only in case have the same effect |
| InitData.ApplyBaseMapIds | lib/Models/Terria.ts:1208-1220 | A string `baseMapId` sets the initial base map; the preview base map is the given one, else a non-empty initial base map, else unchanged |
| InitData.ArrayOrEmpty | lib/Models/Terria.ts:1251-1257 | A non-array `workbench` or `timeline` reads as an empty list |
| InitData.ResolveWorkbench | lib/Models/Terria.ts:1284-1301 | Every string id that resolves, by id or share key, is on the new workbench, and nothing else is; each non-string entry yields one invalid-id error |
| InitData.ResolveWorkbenchSingle | lib/Models/Terria.ts:1284-1299 | One entry: a resolving string id gives its model, an unresolved one nothing, a non-string one invalid-id error |
| InitData.ResolveWorkbenchAppend | lib/Models/Terria.ts:1284-1299 | Entries are resolved in workbench order: models and errors of `a + b` are those of `a` followed by those of `b` |
| InitData.ResolveTimeline | lib/Models/Terria.ts:1303-1338 | The timeline ids are exactly the resolved ids of the string entries; each non-string entry yields one error |
| InitData.TimelineId | lib/Models/Terria.ts:1303-1338 | A registered id is kept; otherwise the share key is followed |
| InitData.TimelineStack | lib/Models/Terria.ts:1303-1338 | The timeline stack is exactly the workbench items whose non-empty id is on the timeline |
| InitData.TimelineStackAppend | lib/Models/Terria.ts:1327-1338 | The stack keeps workbench order: the stack of `a + b` is that of `a` followed by that of `b` |
| InitData.TimelineStackAll | lib/Models/Terria.ts:1327-1338 | When every item is on the timeline the stack is the whole workbench, in order |
| InitData.ApplyWorkbenchAndTimeline | lib/Models/Terria.ts:1251-1338 | The workbench is replaced by the resolved ids; the timeline stack is drawn from the new items; one error per non-string entry, the workbench errors before the timeline errors |
| Groups.TopMost | lib/ModelMixins/GroupMixin.ts:44-57 | The `members` trait is the list of the topmost stratum that sets one, or undefined when none does |
| Groups.ResolveMembers | lib/ModelMixins/GroupMixin.ts:44-57 | A member model is present iff some member id is registered to it; unknown ids are dropped |
| Groups.ResolveMembersAppend | lib/ModelMixins/GroupMixin.ts:44-57 | Resolving distributes over concatenation of member lists |
| Groups.MemberModels | lib/ModelMixins/GroupMixin.ts:44-57 | No members trait gives no member models; otherwise its ids, resolved in order |
| Groups.AppendMember | lib/ModelMixins/GroupMixin.ts:126-147 | The id is appended to the stratum's list, which is created when missing; other strata are untouched |
| Groups.Add | lib/ModelMixins/GroupMixin.ts:126-147 | A member without an id is refused; otherwise its id is appended, and the group's id is recorded once in the member's known containers |
| Groups.AddAppendsMemberModel | lib/ModelMixins/GroupMixin.ts:126-147 | After `add` to the top stratum, the new member is the last member model |
| Groups.IndexOfId | lib/ModelMixins/GroupMixin.ts:210-223 | The first position of the id, or -1 exactly when absent |
| Groups.Remove | lib/ModelMixins/GroupMixin.ts:210-223 | The first occurrence of the member's id is removed from the stratum; without an id, stratum or occurrence nothing changes |
| Groups.RemoveUndoesAdd | lib/ModelMixins/GroupMixin.ts:126-147 | Removing a freshly added member restores the stratum |
| Groups.MoveEntry | lib/ModelMixins/GroupMixin.ts:185-208 | The entry lands at the new index and the others keep their order |
| Groups.MoveEntryPermutes | lib/ModelMixins/GroupMixin.ts:185-208 | Moving an entry is a permutation |
| Groups.MoveMemberToIndex | lib/ModelMixins/GroupMixin.ts:185-208 | No id, an index out of range or a non-member is an error; otherwise the members list with the entry moved is written to the stratum |
| Groups.MoveMemberPermutes | lib/ModelMixins/GroupMixin.ts:185-208 | The written list is a permutation of the members with the member at the new index |
| Groups.AddContainerToAll | lib/ModelMixins/GroupMixin.ts:83-91 | Every listed model records the container id; nothing else changes |
| Groups.AddContainerToAllAdds | lib/ModelMixins/GroupMixin.ts:83-91 | Each listed model's list is its old list with the id appended exactly when it was absent |
| Groups.RefreshKnownContainerUniqueIds | lib/ModelMixins/GroupMixin.ts:83-91 | Without a group id nothing changes; otherwise each member model's list gets the group's id appended when absent, no other field or model changes |
| Groups.AddContainerToAllNoop | lib/ModelMixins/GroupMixin.ts:83-91 | Models that already record the id are left unchanged |
| Groups.RefreshIdempotent | lib/ModelMixins/GroupMixin.ts:83-91 | Refreshing twice is the same as refreshing once |
| Groups.AddMemberShareKeys | lib/ModelMixins/GroupMixin.ts:93-124 | Models and existing share keys are kept; each derived key (a group share key in place of the group id within the member's id) is registered |
| Groups.AddMemberShareKeysMaps | lib/ModelMixins/GroupMixin.ts:113-123 | Every new key maps to the member and is derived from its id; every free derived key other than the id itself maps to the member |
| Groups.DerivingMembers | lib/ModelMixins/GroupMixin.ts:93-124 | The ids that get share keys are ids of listed models containing the group id, and every such id is among them |
| Groups.AddShareKeysForAll | lib/ModelMixins/GroupMixin.ts:93-124 | Adding share keys never changes the registered models |
| Groups.AddShareKeysForAllMaps | lib/ModelMixins/GroupMixin.ts:113-123 | Existing keys keep their ids; every new key maps to one of the member ids and is derived from it |
| Groups.AddShareKeysForAllSole | lib/ModelMixins/GroupMixin.ts:113-123 | A free key derived by exactly one member id maps to that id, whatever the order of the members |
| Groups.AddShareKeysToMembers | lib/ModelMixins/GroupMixin.ts:93-124 | A group without an id or without share keys changes nothing; models are never changed |
| Groups.AddShareKeysToMembersOnlyDerived | lib/ModelMixins/GroupMixin.ts:93-124 | Existing keys keep their ids; every new key maps to a member whose id contains the group id and is derived from that id by one of the group's share keys |
| Groups.AddShareKeysToMembersResolves | lib/ModelMixins/GroupMixin.ts:93-124 | A member is found by the key derived from its id with any group share key, when that key was free and no other member derives it |
| Groups.ShareKeyDerivationExample | lib/ModelMixins/GroupMixin.ts:93-124 | With group share key `g0` for group `g1`, the member `g1/item` resolves as `g0/item` |
| Groups.LoadMembers | lib/ModelMixins/GroupMixin.ts:73-81 | The first error of metadata then members is returned; container ids and share keys are refreshed on the state the loader left (its registrations included), or on the starting state after a metadata failure; afterwards every member model records a group with a non-empty id |
| Groups.LoadMembersSeesLoadedMembers | lib/ModelMixins/GroupMixin.ts:73-81 | A member the loader itself registers is recorded as contained in the group |
| Groups.LoadMembersRefreshesOnFailure | lib/ModelMixins/GroupMixin.ts:73-81 | After a metadata failure, the members still record the group as a container |
| Groups.AddResolved | lib/ModelMixins/GroupMixin.ts:149-174 | Adding decoded ids fails when some id is not registered; when all are unresolved it fails at the first, with nothing added |
| Groups.AddResolvedStep | lib/ModelMixins/GroupMixin.ts:149-161 | One resolving id: `add` appends it, records the group in the member and keeps every model id |
| Groups.AddResolvedAppends | lib/ModelMixins/GroupMixin.ts:149-161 | When every id resolves to a model with that id, the stratum's list gains the ids in order and nothing else in the group changes |
| Groups.AddResolvedRecords | lib/ModelMixins/GroupMixin.ts:149-161 | When every id resolves, every added model records the group and no recorded container is lost |
| Groups.AddResolvedStopsAt | lib/ModelMixins/GroupMixin.ts:149-161 | At the first unresolved id the adds stop with that id's error, after the ids before it were added |
| Groups.AddMembersFromJson | lib/ModelMixins/GroupMixin.ts:149-174 | A decode error is wrapped with the group's message; an unknown member id throws |
| Groups.AddMembersFromJsonAdds | lib/ModelMixins/GroupMixin.ts:149-174 | With every id resolving, it returns with the ids appended in order and recorded, and an error exactly when decoding had one |
| Groups.AddMembersFromJsonThrowsAt | lib/ModelMixins/GroupMixin.ts:149-174 | At the first unresolved id it throws, in the state after adding the ids before it |
| Composite.Add | lib/Models/CompositeCatalogItem.ts:72-90 | A member without an id is refused; an unknown member is registered first; the id is appended to the stratum |
| Composite.AddAppendsMember | lib/Models/CompositeCatalogItem.ts:26-40 | After `add` the last member model is the registered one, which is the member itself when it was unknown |
| Composite.AddKnownKeepsRegistry | lib/Models/CompositeCatalogItem.ts:72-90 | A known member does not change the registry |
| Composite.CollectMapItems | lib/Models/CompositeCatalogItem.ts:58-70 | A map item is collected iff some mappable member model has it |
| Composite.MapItems | lib/Models/CompositeCatalogItem.ts:58-70 | The composite's map items are exactly those of its mappable member models |
| Composite.CollectMapItemsAppend | lib/Models/CompositeCatalogItem.ts:58-70 | Collecting distributes over concatenation, so members contribute in member order |
| Composite.CollectMapItemsCount | lib/Models/CompositeCatalogItem.ts:58-70 | The number of map items is the sum over the mappable members |
| ObjectArrayTrait.ScanRemoved | lib/Traits/objectArrayTrait.ts:78-123 | The removed set is exactly the ids of removal markers |
| ObjectArrayTrait.ScanNoDuplicates | lib/Traits/objectArrayTrait.ts:78-123 | The collected ids have no duplicates |
| ObjectArrayTrait.ScanKept | lib/Traits/objectArrayTrait.ts:78-123 | An id is collected iff its topmost element is not a removal marker |
| ObjectArrayTrait.ScanOrder | lib/Traits/objectArrayTrait.ts:78-123 | Ids appear in the order of their topmost elements |
| ObjectArrayTrait.GetValue | lib/Traits/objectArrayTrait.ts:78-123 | The merged value lists each id once, keeps exactly the ids whose topmost element is not a removal, and keeps first-seen order |
| ObjectArrayTrait.NoIsRemovalKeepsAll | lib/Traits/objectArrayTrait.ts:78-123 | Without `isRemoval`, every id of every stratum is kept |
| ObjectArrayTrait.OnlyMarkersNeverKept | lib/Traits/objectArrayTrait.ts:78-123 | An id seen only in removal markers is never kept |
| ObjectArrayTrait.RemovalExamples | lib/Traits/objectArrayTrait.ts:78-123 | A removal in a higher stratum hides the id; a removal below a definition does not |
| ObjectArrayTrait.Properties | lib/Traits/objectArrayTrait.ts:143-170 | Only a `null` element has no properties to enumerate |
| ObjectArrayTrait.KnownKeys | lib/Traits/objectArrayTrait.ts:143-170 | The decoded keys are exactly the element's keys known to the type |
| ObjectArrayTrait.KnownProps | lib/Traits/objectArrayTrait.ts:143-170 | Only properties whose key the type knows are kept |
| ObjectArrayTrait.KnownPropsExact | lib/Traits/objectArrayTrait.ts:143-170 | The known properties are exactly the element's properties whose key the type knows |
| ObjectArrayTrait.KnownKeysOfProps | lib/Traits/objectArrayTrait.ts:143-170 | The known properties carry the known keys, position by position |
| ObjectArrayTrait.DecodeElement | lib/Traits/objectArrayTrait.ts:143-170 | Each known property yields one decoded trait, in key order: its key, and the value its trait decodes from the property's value |
| ObjectArrayTrait.DecodeElementErrors | lib/Traits/objectArrayTrait.ts:143-170 | One error per unknown key plus those of the known traits' decoding |
| ObjectArrayTrait.DecodeElements | lib/Traits/objectArrayTrait.ts:143-170 | A `null` element throws; otherwise one stratum per element, in order |
| ObjectArrayTrait.FromJson | lib/Traits/objectArrayTrait.ts:125-183 | A non-array is an invalid-property error without a value; an array decodes element by element; the errors combine into one, or none |
| ObjectArrayTrait.ToJson | lib/Traits/objectArrayTrait.ts:185-191 | Undefined stays undefined; otherwise one saved JSON element per stratum, in order |
| ObjectArrayTrait.ToJsonAfterFromJson | lib/Traits/objectArrayTrait.ts:125-191 | Decoding an array without nulls and encoding it again gives one element per input element, each the saved decoding |
| TableStyles.OfType | lib/Table/TableAutomaticStylesStratum.ts:62-146 | Exactly the columns of the type |
| TableStyles.OfTypeAppend | lib/Table/TableAutomaticStylesStratum.ts:62-146 | Filtering keeps the columns' order: the columns of `a + b` are those of `a`, then of `b` |
| TableStyles.OfTypeAll | lib/Table/TableAutomaticStylesStratum.ts:62-146 | When every column has the type all are kept, in order |
| TableStyles.FindFirstColumnByType | lib/Table/TableAutomaticStylesStratum.ts:62-116 | The first column of the type, or none exactly when there is none |
| TableStyles.FirstOfType | lib/Table/TableAutomaticStylesStratum.ts:62-116 | The first column of a type is the head of the columns of that type |
| TableStyles.FindColumnByName | lib/Table/TableAutomaticStylesStratum.ts:81-82 | A column with the name, or none exactly when there is none |
| TableStyles.ChartLines | lib/Table/TableAutomaticStylesStratum.ts:118-146 | One line per column; only the first is selected in the workbench |
| TableStyles.DefaultChartStyle | lib/Table/TableAutomaticStylesStratum.ts:118-146 | A chart exists iff there is a time column and a scalar, or two scalars; time (else the first scalar) is the x axis and the other scalars are the lines |
| TableStyles.ChartLinesArePlottedScalars | lib/Table/TableAutomaticStylesStratum.ts:118-146 | Every chart line plots a scalar column, and only the first is selected |
| TableStyles.DefaultStyle | lib/Table/TableAutomaticStylesStratum.ts:62-116 | A region or a longitude and latitude make the style spatial, with time and id columns; otherwise the chart style, else a legend-only style |
| TableStyles.RegionTableIsSpatial | lib/Table/TableAutomaticStylesStratum.ts:62-116 | A table with a region column gets a region style and no chart |
| TableStyles.TwoScalarsChart | lib/Table/TableAutomaticStylesStratum.ts:118-146 | Two scalar columns chart the second against the first |
| TableStyles.Styles | lib/Table/TableAutomaticStylesStratum.ts:148-173 | One style per column, named after it; scalars and enums are shown, regions only when no scalar or enum column exists, all else hidden |
| TableStyles.SomeStyleVisible | lib/Table/TableAutomaticStylesStratum.ts:148-173 | Some column style is shown iff there is a scalar, enum or region column |
| TableStyles.LegendTableStyle | lib/Table/TableAutomaticStylesStratum.ts:255-264 | Legend index -1, none or out of range reads the default style; an index in range reads that column's style |
| TableStyles.StyleLegendsReadOwnStyle | lib/Table/TableAutomaticStylesStratum.ts:148-264 | Each column style's legend shows that column's style; the default style's legend shows the default |
| TableStyles.AddToGroup | lib/Table/TableAutomaticStylesStratum.ts:424-435 | A value joins its colour's group, or opens a new group at the end; colours stay distinct |
| TableStyles.GroupByColor | lib/Table/TableAutomaticStylesStratum.ts:424-435 | The grouped colours are distinct |
| TableStyles.GroupByColorContents | lib/Table/TableAutomaticStylesStratum.ts:424-435 | Each group holds exactly the values of its colour, in order |
| TableStyles.GroupByColorCovers | lib/Table/TableAutomaticStylesStratum.ts:424-435 | There is a group for a colour iff some value has that colour |
| TableStyles.EnumLegendItems | lib/Table/TableAutomaticStylesStratum.ts:405-445 | One item per colour group, then the null bin when the column has nulls or more unique values than colours |
| TableStyles.EnumLegendGroupsValues | lib/Table/TableAutomaticStylesStratum.ts:405-445 | Colours are not repeated, each item lists exactly its colour's values, and every value's colour has an item |
| TableStyles.EnumLegendExample | lib/Table/TableAutomaticStylesStratum.ts:405-445 | Values sharing a colour are listed on one item |
| ArcGis.ItemLayers | lib/Models/ArcGisMapServerCatalogItem.ts:548-559 | A non-empty `layers` trait wins; otherwise a last URL segment with a digit; otherwise undefined |
| ArcGis.ItemLayersSelectsUriLayer | lib/Models/ArcGisMapServerCatalogItem.ts:548-559 | Without a `layers` trait, a uri ending in a layer number selects exactly one layer, the first whose id is that number |
| ArcGis.FirstById | lib/Models/ArcGisMapServerCatalogItem.ts:611-637 | The first layer whose id matches, or none exactly when none does |
| ArcGis.LastByName | lib/Models/ArcGisMapServerCatalogItem.ts:611-637 | The last layer whose name matches ignoring case, or none exactly when none does |
| ArcGis.FindLayerFromMeaning | lib/Models/ArcGisMapServerCatalogItem.ts:611-637 | The search loop from any position gives the first id match, else the last name match, else what it had |
| ArcGis.FindLayerMeaning | lib/Models/ArcGisMapServerCatalogItem.ts:611-637 | `findLayer` prefers the first id match over any name match, and takes the last name match |
| ArcGis.IdBeatsName | lib/Models/ArcGisMapServerCatalogItem.ts:611-637 | A layer named "3" loses to the layer with id 3 |
| ArcGis.FindLayers | lib/Models/ArcGisMapServerCatalogItem.ts:611-637 | Without a selection every layer; otherwise one lookup per comma-separated part |
| ArcGis.FilterOutUndefined | lib/Models/ArcGisMapServerCatalogItem.ts:222-224 | Exactly the defined results |
| ArcGis.FilterOutUndefinedAppend | lib/Models/ArcGisMapServerCatalogItem.ts:222-224 | The defined results keep their order: those of `a + b` are those of `a`, then of `b` |
| ArcGis.FilterOutUndefinedAllDefined | lib/Models/ArcGisMapServerCatalogItem.ts:222-224 | With every result defined, the values come out one for one, in order |
| ArcGis.AllLayers | lib/Models/ArcGisMapServerCatalogItem.ts:222-224 | Only layers of the service; with a selection exactly those some part finds |
| ArcGis.AllLayersFollowNames | lib/Models/ArcGisMapServerCatalogItem.ts:222-224 | When every comma-separated name finds a layer, the layers come one per name, in the names' order |
| ArcGis.FoundLayersAreLayers | lib/Models/ArcGisMapServerCatalogItem.ts:611-637 | Every layer found is a layer of the service |
| ArcGis.AllLayersWithoutSelection | lib/Models/ArcGisMapServerCatalogItem.ts:222-224 | Without a selection all layers are kept, in order |
| ArcGis.Ids | lib/Models/ArcGisMapServerCatalogItem.ts:561-568 | Each layer's id as a decimal string, in order |
| ArcGis.LayerIds | lib/Models/ArcGisMapServerCatalogItem.ts:561-568 | Undefined exactly when there are no layers; otherwise the comma-joined ids |
| ArcGis.LayerIdsSplit | lib/Models/ArcGisMapServerCatalogItem.ts:561-568 | Splitting `layerIds` on commas gives back each layer's id |
| ArcGis.AllSelectedLayers | lib/Models/ArcGisMapServerCatalogItem.ts:570-587 | None without the service; all without a selection; otherwise exactly the layers whose id is selected |
| ArcGis.SelectById | lib/Models/ArcGisMapServerCatalogItem.ts:570-587 | Exactly the layers whose id is listed |
| ArcGis.SelectByIdAppend | lib/Models/ArcGisMapServerCatalogItem.ts:570-587 | The selection keeps the layers' order: selecting from `a + b` is selecting from `a`, then from `b` |
| ArcGis.SelectByIdAll | lib/Models/ArcGisMapServerCatalogItem.ts:570-587 | When every layer's id is listed all layers are selected, in order |
| ArcGis.AllSelectedLayersKeepsOrder | lib/Models/ArcGisMapServerCatalogItem.ts:570-587 | The selected layers follow the service's layer order |
| ArcGis.Name | lib/Models/ArcGisMapServerCatalogItem.ts:232-252 | A single layer's non-empty name, else a non-empty document title, else a non-empty map name, each with underscores as spaces; undefined exactly when none is set |
| ArcGis.NameHasNoUnderscore | lib/Models/ArcGisMapServerCatalogItem.ts:232-252 | The name never contains an underscore |
| ArcGis.EntryItems | lib/Models/ArcGisMapServerCatalogItem.ts:323-364 | One legend item per legend entry of the layer, position by position |
| ArcGis.ShownItems | lib/Models/ArcGisMapServerCatalogItem.ts:323-364 | An item is produced iff it comes from an entry of a shown layer (not no-data, not labels, selected) |
| ArcGis.ShownItemsSingle | lib/Models/ArcGisMapServerCatalogItem.ts:323-364 | One layer contributes its entries' items in legend order when shown, nothing otherwise |
| ArcGis.ShownItemsAppend | lib/Models/ArcGisMapServerCatalogItem.ts:323-364 | Items follow layer order: the items of earlier layers come first |
| ArcGis.UniqByImageUrl | lib/Models/ArcGisMapServerCatalogItem.ts:361 | Image URLs are distinct, every item is an input item, and every input URL is kept |
| ArcGis.UniqKeepsFirst | lib/Models/ArcGisMapServerCatalogItem.ts:361 | Each kept item is the first input item with its image URL |
| ArcGis.UniqKeepsInputOrder | lib/Models/ArcGisMapServerCatalogItem.ts:361 | Kept items follow the input order of their first occurrences |
| ArcGis.LegendItems | lib/Models/ArcGisMapServerCatalogItem.ts:323-364 | The legend has distinct image URLs, and for every shown URL exactly the first shown item with it, in the order those first items appear |
| ArcGis.NoDataLayersSkipped | lib/Models/ArcGisMapServerCatalogItem.ts:327-333 | No-data and `_Labels` layers never contribute to the legend |
| ArcGis.UnselectedLayerSkipped | lib/Models/ArcGisMapServerCatalogItem.ts:336-345 | A layer selected neither by id nor by name contributes nothing |
| ArcGis.NoDataSpelledTogether | lib/Models/ArcGisMapServerCatalogItem.ts:327 | "NoData" is a no-data layer name |
| ArcGis.NoDataWithUnderscore | lib/Models/ArcGisMapServerCatalogItem.ts:327 | "No_Data" is a no-data layer name |
| ArcGis.NoDataWithSpace | lib/Models/ArcGisMapServerCatalogItem.ts:327 | "NO DATA" is a no-data layer name, ignoring case |
| ArcGis.NoDataIsWholeName | lib/Models/ArcGisMapServerCatalogItem.ts:327 | The no-data pattern must match the whole name |
| ArcGis.LabelsIsCaseSensitive | lib/Models/ArcGisMapServerCatalogItem.ts:328 | The labels suffix is case sensitive |
| ArcGis.UpdateBbox | lib/Models/ArcGisMapServerCatalogItem.ts:660-665 | The rectangle only widens, each side to the old side or the extent's |
| ArcGis.UpdateBboxCommutes | lib/Models/ArcGisMapServerCatalogItem.ts:660-665 | The order of extents does not matter, and repeating an extent changes nothing |
| ArcGis.ChooseLayers | lib/Models/ArcGisMapServerCatalogItem.ts:127-215 | No URI or no service is a `TerriaError`; with both responses the service's layers are used; without service layers, the layers response's list, or the response itself as one layer when it has an `id`; a missing layers response throws a `TypeError`; no layers or an empty list is the no-layers error |
| ArcGis.LayersRequestFailureCrashes | lib/Models/ArcGisMapServerCatalogItem.ts:183-200 | Counterexample: a failed layers request throws a `TypeError` even though the service lists its layers |
| ArcGis.ChooseLayersGuarded | lib/Models/ArcGisMapServerCatalogItem.ts:183-215 | The intended choice only ever fails with a `TerriaError`; it agrees with the original when the layers response exists, and otherwise uses the service's layers when it lists any |
| ArcGis.GuardedUsesServiceLayers | lib/Models/ArcGisMapServerCatalogItem.ts:183-200 | On the input that crashes the original, the intended choice returns the service's layers |

## Left out

- Asynchrony: promises, their interleaving and `Promise.all` ordering. Each awaited step is a function of its inputs, and the results of loads are given as parameters (`Workbench.Plans`, `ArcGis.ChooseLayers`'s responses).
- MobX observability, `@computed` memoisation and `AsyncLoader`: they affect when values are computed, not what they are.
- Network requests, URI resolution, tokens and `getToken`: the fetched JSON is given as input, and URLs are kept as their parts.
- i18next translation: messages are kept as their translation keys with their parameters.
- The type arguments of `getModelById`, and the `sender` objects of errors. The sender is kept as an opaque value.
- JSON numbers are integers; no floating-point value in the model depends on fractions except the bounding box.
- `Result.ts` and the traits' own `fromJson` for nested values are not part of this model. Decoding a known sub-property is the element type's given function from the property's value to a decoded value and an optional error.
- `objectArrayTrait`'s `getObjectId`, `isRemoval` and the traits' `sortTopToBottom` order are given as inputs. `Object.entries` puts integer-like keys first; the model keeps insertion order.
- `subJsonValue === undefined` in `objectArrayTrait.fromJson` cannot happen for a present key and is not modelled.
- Workbench.AddKeepsOrder: stated only when every reference `add` loads already has the target its load settles on. `insertItem` runs before `loadReference`, so an unloaded reference is placed by its own flags; `Workbench.UnloadedReferenceOutOfOrder` shows the list out of order afterwards.
- Workbench.ContinueKeepsOrder: stated under the same condition as `Workbench.AddKeepsOrder`.
- Workbench.FailedAddRestores: stated under the same condition. A reference loaded during `add` hands over to `add(target)`, whose removal on failure matches entries by the new target.
- Workbench.LoadReference: creating the target model and setting its `sourceReference` are part of loading a reference, outside this model; the target's record is given in the heap.
- Groups.TopMost: the `members` getter that combines strata (`modelReferenceArrayTrait`) is not part of this model. The members trait is taken as the list of the topmost stratum that sets it; how the getter combines lists from several strata is not modelled.
- Groups.AddMemberShareKeys: JavaScript's `String.prototype.replace` expands `$&`, `$$`, `` $` `` and `$'` in a string replacement; the model inserts the share key literally, so a share key containing `$` is not modelled.
- Registry.RaiseErrorToUser: the source marks the error object in place; the model returns the marked copy, and `Registry.RaiseTwiceEmitsOnce` raises that copy a second time.
- Workbench.Continue: the recursion through dereferenced references carries a `fuel` bound; with fuel exhausted a reference's target is not added. The source has no bound.
- Workbench.InsertItem: an index beyond the list's length is not modelled; `add` passes 0 and the workbench view passes list positions.
- Workbench.MoveItemToIndex: the new index must be within the list, for the same reason.
- Workbench.AddAll: the caller's array is reversed in place in the source; the model does not model mutating the argument.
- `forceLoad` of composite members and the load of their map items are not modelled; `Composite.MapItems` takes each member's map items as given.
- `loadModelStratum` recursion into references and their targets, and the upsert of models it creates, are modelled only as `InitData.DereferencedStep`'s decision.
- The continuous, discrete and constant legends of `TableAutomaticStylesStratum` are not modelled; only the enum legend is.
- TableStyles.EnumLegendItems: requires at least as many colours as values. An enum colour map is built with one colour per value.
- A negative legend index below -1 gives no style (`TableStyles.LegendTableStyle`); what the view does with that is not modelled.
- Floating point, `NaN` and the ±Infinity start rectangle of the bounding box: sides are reals. The projection of extents to WGS84 is not modelled.
- `maximumScale`, the imagery parts, tiling and feature picking of the ArcGIS item are not modelled.
- ArcGis.ChooseLayers: the `noLayersFound` message parameter (the item) is not modelled. A `null` layers response would give a `TypeError` naming `null` rather than `undefined`; both are the same `ReadOfUndefined` error here.
- ArcGis.EntryItem: `replaceUnderscores` is assumed to leave an undefined title undefined.
- `toLowerCase` is ASCII-only, and the `\s` of the no-data pattern is the ASCII white space characters.
- A group's own member loader (`forceLoadMembers`) is given as its outcome: the catalog it leaves behind (registry, group and models) and what it threw.
- Groups.AddResolvedAppends: stated for registries where every listed id maps to a model carrying that id, which `addModel` guarantees; the registry here does not carry that invariant, so the lemma requires it (`Groups.RegisteredAs`).
- Groups.MoveMemberToIndex: when the members trait is undefined the source throws a `TypeError` reading `indexOf` of `undefined`; the model reports the out-of-range index error instead.

## Findings

| source | as written | input that shows it | evidently intended | confidence | as-written member | corrected member |
|---|---|---|---|---|---|---|
| lib/Core/TerriaError.ts:151-156 | The `raisedToUser` setter propagates only when `originalError` is itself a `TerriaError`, but `originalError` is always an array, so only the node is marked | A parent whose one child is a `TerriaError`, marked as raised: the child stays unmarked, and raising the child later shows it again | Mark the node and every `TerriaError` below it | not executed | TerriaErrors.SetRaisedToUserMissesChild | TerriaErrors.SetRaisedToUserTreeMarksAll |
| lib/Models/ArcGisMapServerCatalogItem.ts:183-200 | When the layers request fails, `layersMetadataResponse` is undefined and reading its `layers` throws a `TypeError`, even when the service metadata lists the layers | A service response with a non-empty `layers` list and no layers response | Use the service's layers, or report that no layers were found | not executed | ArcGis.LayersRequestFailureCrashes | ArcGis.ChooseLayersGuarded |
