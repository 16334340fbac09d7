# Location hierarchy of Primero, modelled in Dafny

Primero stores the locations of a deployment (countries, provinces,
districts, camps, …) as CouchDB documents of the `Location` model. The
locations form a forest. Each document holds:

- its own `placename`;
- a root-first `hierarchy` of the placenames of its ancestors;
- the stored `name`, which is the hierarchical name joined with `::`;
- an `admin_level`, and a `disabled` flag.

This project models the hierarchy engine of `app/models/location.rb` and
proves properties of that model:

- **Path codec** (`PathCodec`). `hierarchical_name`, `placenames_from_name`,
  `placename_from_name` and `ancestor_names` are modelled, the last as a
  method with its loop.
- **Admin-level rule** (`AdminLevel`). A child gets its parent's level plus
  one. When that falls outside `ADMIN_LEVELS` it gets the sentinel 100.
- **Views** (`ViewQuery`, `Views`). The CouchDB views are pure queries over a
  store `map<Id, Node>`. Their rows come back in id order, one per emitted
  key. The read helpers built on them are here too: `get_by_location`,
  `parent`, `descendants`, `direct_descendants`, `ancestors` and
  `ancestor_by_type`.
- **Saving** (`Saving`, `Forest`). A `save` runs the presence validations,
  then the `before_save` callbacks (the name, then the level of a non-root),
  then for a root the `after_save` cascade `update_descendants_admin_level`.
  `Forest` proves what the cascade achieves in a well-formed store: every
  location below the root is settled, everything else is unchanged, a
  second run changes nothing, and the level of each location below a root
  of valid level L is L plus its depth below the root, or 100 past level 5.
- **Re-parenting** (`Reparent`). `set_parent`, `remove_parent` and
  `set_hierarchy_from_parent` are modelled on values. The modelled effects
  include the aliasing of the parent's in-memory hierarchy.
- **Type lookup** (`TypeLookup`). `find_types_in_hierarchy` is modelled as
  written, next to the behaviour its comment describes.
- **The store as a class** (`Store.LocationStore`). It holds a `nodes` field
  that the methods `Save`, `UpdateDescendantsAdminLevel`, `SetParent` and
  `RemoveParent` update one save at a time. Each method is proved to leave
  the store exactly as the value-level functions of `Saving` and `Reparent`
  describe.

Parent and descendant lookups go by bare placename. The parent lookup takes
the match with the lowest id; `descendants` and `direct_descendants` return
every match.
Properties that need "the" parent therefore assume that placenames are
unique (`UniquePlacenames`, or `WellFormed` for the forest lemmas).

The recursion of `update_descendants_admin_level` has no guard in the code.
The model demands `Layered`: a child's hierarchy is longer than that of any
location whose placename it ends in. This is a sufficient condition for the
recursion to end, not a necessary one: when a placename repeats at different
depths, the recursion may still end although the store is not `Layered`.
The code bounds nothing, so no depth limit is modelled.

## Model

| member | source | states |
|---|---|---|
| PathCodec.HierarchicalName | app/models/location.rb:175-181 | with an empty hierarchy the name is the placename alone; otherwise it is the joined hierarchy, `::`, then the placename |
| PathCodec.HierarchicalNameIsJoin | app/models/location.rb:175-181 | in both branches the name is `hierarchy + [placename]` joined with `::` |
| PathCodec.DropTrailingEmpty | app/models/location.rb:113 | Ruby's `split` drops only trailing empty fields: the result is a prefix of the fields, ends in a non-empty one, and every dropped field is empty |
| PathCodec.JoinFields | app/models/location.rb:113 | joining the fields of any string with `::` gives the string back |
| PathCodec.FieldsOfJoin | app/models/location.rb:113 | splitting the `::`-join of one or more colon-free parts gives exactly those parts |
| PathCodec.RoundTrip | app/models/location.rb:111-118 | for a non-blank placename and colon-free parts, `placenames_from_name(hierarchical_name) == hierarchy + [placename]` and `placename_from_name` gives the placename back |
| PathCodec.BlankNameDecodesToNothing | app/models/location.rb:111-118 | a blank name decodes to `[]` and to the placename `""` |
| PathCodec.NameWithSeparatorIsNotBlank | app/models/location.rb:111-113 | a name containing the separator is never blank, so it is always split |
| PathCodec.AncestorNames | app/models/location.rb:201-212 | the loop fills the list with, at position i, the join of the first i+1 hierarchy entries |
| PathCodec.AncestorNamesChain | app/models/location.rb:201-212 | the list is as long as the hierarchy, starts with the root placename, each entry is the previous one, `::` and the next placename, and entry i is the hierarchical name of the ancestor at depth i |
| PathCodec.AncestorNamesDecode | app/models/location.rb:201-212 | decoding entry i gives back the first i+1 hierarchy entries |
| AdminLevel.LevelBelow | app/models/location.rb:183-189 | the level is always in `ADMIN_LEVELS` or 100; it is the parent's level (0 when unset) plus one when that is in 0..5, and 100 otherwise |
| AdminLevel.LevelsAlongChain | app/models/location.rb:183-189 | d steps below a root at a valid level L the rule gives L+d while that is at most 5, and 100 from then on |
| ViewQuery.SortedIds | app/models/location.rb:23-58 | a set of ids is listed with exactly its members, strictly increasing, the order in which a view returns rows |
| ViewQuery.Count | app/models/location.rb:27-29 | a placename is emitted by `by_ancestor` at least once exactly when it occurs in the hierarchy |
| ViewQuery.ViewRowsOrdered | app/models/location.rb:23-58 | rows come in id order, strictly so for views that emit once |
| ViewQuery.Query | app/models/location.rb:23-58 | a query returns exactly the stored documents emitted under its key, as stored, in id order |
| ViewQuery.QueryCount | app/models/location.rb:23-58 | a query returns each stored document exactly as many times as its map function emits it under the key |
| Views.ByAncestor | app/models/location.rb:24-31 | rows are stored locations with the key in their hierarchy, all of them, in id order |
| Views.ByAncestorCount | app/models/location.rb:24-31 | a location comes back once per occurrence of the key in its hierarchy, as `by_ancestor` emits once per entry |
| Views.ByParent | app/models/location.rb:33-39 | rows are stored locations whose last hierarchy entry is the key, all of them, each once, in id order |
| Views.ByTypeEnabled | app/models/location.rb:41-46 | rows are the non-disabled locations of that type, all of them, each once, in id order |
| Views.ByAdminLevelEnabled | app/models/location.rb:48-53 | rows are the non-disabled locations at that level, all of them, each once, in id order |
| Views.ByPlacename | app/models/location.rb:56 | rows are the locations with that placename, all of them, each once, in id order |
| Views.ByPlacenames | app/models/location.rb:128-130 | rows are exactly the stored locations whose placename is one of the keys; they come key by key in the order the keys are listed, and by id within a key when no key is listed twice |
| Views.ByName | app/models/location.rb:167-170 | rows are exactly the stored locations with that name, each once, in id order |
| Views.ByNames | app/models/location.rb:167-170 | rows are exactly the stored locations whose name is one of the keys; they come key by key in the order the keys are listed, and by id within a key when no key is listed twice |
| Views.GetByLocation | app/models/location.rb:121-125 | `nil` exactly when no location has the placename; otherwise the stored location with that placename and the lowest id |
| Views.ParentIsTheNamedLocation | app/models/location.rb:255-261 | a non-root's parent has the last hierarchy entry as its placename; it is missing exactly when no location has that placename; with unique placenames it is that location |
| Views.DirectDescendantsAreDescendants | app/models/location.rb:191-199 | every direct descendant is also a descendant |
| Views.DisablingKeepsHierarchyViews | app/models/location.rb:24-53 | disabling a location changes nothing in `by_parent` and `by_ancestor`, and removes it from both `_enabled` views |
| Views.FirstOfType | app/models/location.rb:222-223 | the index of the first row of the type, with no row of that type before it |
| Views.AncestorByType | app/models/location.rb:218-225 | the location itself when its type matches; otherwise the first ancestor row of that type, or `nil` exactly when no ancestor has it |
| Views.AncestorsAreLeadingPaths | app/models/location.rb:201-216 | with current names and plain paths, the ancestors are exactly the stored locations whose path is a leading part of the hierarchy |
| Views.RowDepth | app/models/location.rb:201-216 | with current names and plain paths, an ancestor found under the i-th ancestor name lies i steps below the root |
| Views.AncestorsRootFirst | app/models/location.rb:214-216 | with current names and plain paths, the ancestors come root first: a later one is never shallower than an earlier one |
| Views.AncestorByTypeShallowest | app/models/location.rb:218-225 | with current names and plain paths, when the location itself is not of the type, the ancestor returned is the shallowest of that type |
| Saving.CalculateAdminLevel | app/models/location.rb:183-189 | only the level changes; a root, or a location whose parent is not found, keeps its level; with unique placenames the level is `LevelBelow` of the parent's |
| Saving.BeforeSave | app/models/location.rb:70-76 | the callbacks keep the shape, set the name to the hierarchical name, keep a root's level and recalculate a non-root's |
| Saving.Recalculate | app/models/location.rb:290-293 | only the location's own document changes; a root is untouched; a non-root gets its current name and the level below its parent |
| Saving.UpdateDescendantsAdminLevel | app/models/location.rb:289-297 | the cascade never changes a hierarchy, placename, type or flag, and raises only when some stored placename is blank |
| Saving.UpdateChildren | app/models/location.rb:296 | processing the direct descendants in turn keeps every shape, and raises only for a blank placename |
| Saving.Save | app/models/location.rb:61-77 | an invalid location is not written and `save` answers false; a valid one is written with the store's shapes updated; a non-root is written after the callbacks with no cascade; a raise means a blank placename |
| Forest.KidsOf | app/models/location.rb:196-199 | in a well-formed store the direct descendants are exactly the locations whose hierarchy is the location's path, as stored, in increasing id order |
| Forest.RecalculatedIsSettled | app/models/location.rb:290-293 | a recalculated non-root is settled: current name and the level below its parent |
| Forest.CascadeSettles | app/models/location.rb:289-297 | in a well-formed store the cascade does not raise, settles every non-root at or below the location, and leaves every location outside the subtree as it was |
| Forest.CascadeIdempotent | app/models/location.rb:289-297 | running the cascade again from the same root changes nothing |
| Forest.RootStays | app/models/location.rb:290-293 | the cascade from a root leaves the root's document as it was |
| Forest.CascadeFromRoot | app/models/location.rb:289-297 | from a stored root: no raise, the root unchanged, everything below it settled, everything else unchanged |
| Forest.SaveRootIsCascade | app/models/location.rb:70-77 | saving a valid root writes it with its current name and then runs the cascade from it |
| Forest.SaveRootSettles | app/models/location.rb:70-77 | saving a valid root into a well-formed store succeeds without raising, stores the root with its current name, settles every location below it and changes nothing else |
| Forest.SettledDepth | app/models/location.rb:183-189 | in a well-formed store settled below a root, a location d steps below the root has `LevelAtDepth` of the root's level after d steps |
| Forest.CascadeLevels | app/models/location.rb:289-297 | after the cascade from a stored root at a valid level L, every location d steps below it is at level L+d while that is at most 5, and at 100 beyond |
| Reparent.NewHierarchy | app/models/location.rb:229-233 | the new hierarchy is the parent's path, or `[]` without a parent; a non-root parent's in-memory hierarchy is itself extended to that path, while a root parent is left alone |
| Reparent.SetHierarchyFromParent | app/models/location.rb:246-253 | only the hierarchy changes: it becomes the parent's path, or blank without a parent, with the same aliasing of the parent |
| Reparent.AdoptedFindsParent | app/models/location.rb:246-261 | with unique placenames the adopted location's `parent` is the given parent, and its calculated level is the level below that parent's |
| Reparent.IndexOf | app/models/location.rb:239 | the first index of the placename, or the length when it is absent |
| Reparent.Rehome | app/models/location.rb:239-241 | the new hierarchy is the prefix followed by the old hierarchy from the first occurrence of the placename, or the prefix alone when it is absent |
| Reparent.RehomeFollowsRoot | app/models/location.rb:236-241 | the moved location takes exactly the prefix, and a location below it keeps its path below the moved location |
| Reparent.RewriteRows | app/models/location.rb:237-243 | the loop keeps the ids; a location without a row is untouched; each row that validates is stored at its re-rooted hierarchy with its current name, and one that does not is left as it was; with unique placenames, a written row whose parent is not itself a row gets the level below that parent as stored before the loop |
| Reparent.SaveBelow | app/models/location.rb:70-76 | saving a non-root changes only that location: it stays unchanged if invalid, and otherwise gets the new document with its current name and the level below its parent |
| Reparent.SetParent | app/models/location.rb:227-244 | with a parent nothing raises; a raise needs a blank placename in the moved store |
| Reparent.SetParentShapes | app/models/location.rb:227-244 | afterwards every location with the placename in its hierarchy whose re-rooted document validates has the new prefix followed by its old hierarchy from that placename on; the location itself has the new prefix if it validates; no other location changes shape |
| Reparent.SetParentAliasesParent | app/models/location.rb:229-233 | the in-memory parent comes back with its hierarchy extended by its own placename when it is a non-root |
| Reparent.SetParentBelowRoot | app/models/location.rb:236-243 | when the location stays a non-root, `set_parent` is the loop over the descendant rows followed by a plain save of the location |
| Reparent.SetParentFrame | app/models/location.rb:236-243 | a location that is neither the moved one nor has its placename in its hierarchy is untouched |
| Reparent.SetParentPlacesSelf | app/models/location.rb:227-244 | the moved location is stored at the new parent's path with the level below the new parent's and is settled; the parent is untouched |
| Reparent.SetParentLeavesChildStale | app/models/location.rb:236-243 | a child keeps the level below the moved location's old level while the moved location gets a new one, so the child is unsettled whenever those differ |
| Reparent.SetParentStaleExample | app/models/location.rb:236-243 | moving S (level 1 under A) below B (level 2) gives S level 3 while its child C keeps 2, so C is not settled |
| Reparent.SetParentAndRelevel | app/models/location.rb:227-244 | the corrected `set_parent` ends with the same shapes and parent, and raises only for a blank placename |
| Reparent.RelevelSettles | app/models/location.rb:227-244 | in a store well formed after the move, the corrected `set_parent` raises nothing and settles every non-root of the moved subtree |
| Reparent.RemoveParent | app/models/location.rb:263-265 | `remove_parent` leaves no in-memory parent and can raise only in the cascade of the location made a root |
| Reparent.RemoveParentSettles | app/models/location.rb:263-265 | the location becomes a root, stored under its placename alone; every location below it is settled by the cascade; every other location without the placename in its hierarchy keeps its stored document |
| TypeLookup.OfTypeMembers | app/models/location.rb:143 | the selection holds exactly the locations of the type |
| TypeLookup.LastOf | app/models/location.rb:146 | `nil` exactly for an empty list, and otherwise an element of it |
| TypeLookup.LastOfTypeIsLastMatch | app/models/location.rb:143-146 | the last of a selection by type is a location of that type after which none of that type follows |
| TypeLookup.NoneOfType | app/models/location.rb:143 | locations none of which has the type select nothing |
| TypeLookup.TypesAsWritten | app/models/location.rb:138-147 | the answer is `nil` exactly when there are no types or no location has the first type; otherwise a location of the first type |
| TypeLookup.TypesAsWrittenTakesLatestKey | app/models/location.rb:128-146 | every location of the first type has its placename listed in the name no later than the answer's placename, as `.last` over rows in key order gives |
| TypeLookup.LastOfTypeTakesLatestKey | app/models/location.rb:143-146 | over rows in key order, the last row of a type has a key listed no earlier than that of any row of the type |
| TypeLookup.FindTypesInHierarchy | app/models/location.rb:138-147 | the loop as written gives `TypesAsWritten`: it stops after the first type |
| TypeLookup.FirstPresent | app/models/location.rb:133-145 | the index of the first type some location has, no earlier type having any |
| TypeLookup.FirstMatching | app/models/location.rb:133-134 | `nil` exactly when no location has any of the types; otherwise a location of the first type that is present |
| TypeLookup.FindFirstMatchingType | app/models/location.rb:133-147 | the loop that stops at the first non-empty selection gives `FirstMatching` |
| TypeLookup.AgreeOnFirstType | app/models/location.rb:142-146 | when the first type is present, the code as written and the documented answer agree |
| TypeLookup.FindTypesExample | app/models/location.rb:138-147 | with only the country "Country1" stored, looking up "Country1" for `["district", "country"]` answers `nil` as written but the country as documented |
| Store.LocationStore.Save | app/models/location.rb:61-77 | the method leaves exactly the store, answer and raise of `Saving.Save` |
| Store.LocationStore.UpdateDescendantsAdminLevel | app/models/location.rb:289-297 | the recursive method leaves exactly the store and raise of `Saving.UpdateDescendantsAdminLevel` |
| Store.LocationStore.UpdateChildren | app/models/location.rb:296 | the loop over the direct descendants leaves exactly the store and raise of `Saving.UpdateChildren` |
| Store.LocationStore.SetParent | app/models/location.rb:227-244 | the method leaves exactly the store, in-memory parent and raise of `Reparent.SetParent` |
| Store.LocationStore.MoveRows | app/models/location.rb:237-243 | the loop over the descendant rows leaves exactly the store of `Reparent.RewriteRows` |
| Store.LocationStore.SaveBelow | app/models/location.rb:242 | saving a non-root leaves exactly the store of `Reparent.SaveBelow` |
| Store.LocationStore.RemoveParent | app/models/location.rb:263-265 | the method leaves exactly the store and raise of `Reparent.RemoveParent` |

## Left out

- CouchDB persistence, `use_database`, the registration of views, `generate_id`, `get_unique_instance` and `Location.get`. The store is a map from ids (natural numbers, ordered as the views return them) to documents, and revision conflicts are not modelled.
- `memoize_in_prod` and the aliasing of `all`. They are process-level caching with no behaviour of their own.
- The I18n validation messages. Only the two presence rules are modelled; the commented-out `location_code` rule is not modelled either.
- `find_by_location` and `ancestor_name_by_type`. They are thin compositions of the modelled views and helpers and are not modelled separately.
- `all_names` and `all_top_level_ancestors`. They read the `by_enabled` and `by_hierarchy` views, which are not modelled. The generated views `by_type` and `by_admin_level` are not modelled either; no code in `location.rb` reads them.
- `generate_hierarchy` and `update_hierarchy`. They fetch a parent by id through `Location.get`, a storage call, and then call the modelled `set_hierarchy_from_parent` and `set_parent`.
- The in-memory Ruby objects are values: `self` is passed as a `Node` next to its id. An object updated in place by `set_hierarchy_from_parent` or by callbacks is returned as a new value.
- `Store.LocationStore.SetParent`: the in-memory parent is returned, never written to the store, matching the code, which never saves it. Two objects sharing an array are shown only through that return value. The aliasing assumes that the typed property reader of `hierarchy` (`property :hierarchy, type: [String]`, location.rb:18) hands back the stored array itself and not a copy, so that `<<` in `set_parent` grows the parent's own hierarchy.
- `Reparent.SetHierarchyFromParent`: the same aliasing assumes that the `hierarchy` setter (`self.hierarchy = hierarchy_of_parent`, location.rb:250) keeps the assigned array rather than casting it into a copy. Only then does the `<<` at location.rb:252 also grow the parent's hierarchy.
- `Saving.UpdateDescendantsAdminLevel`: this and everything built on it demand `Layered` shapes. That is a sufficient condition for the recursion to end. The stores it excludes are those where the recursion would not end, where the code loops, but also some where it does end, because a placename repeats at different depths. Neither kind is modelled.
- `Forest.CascadeSettles`: this and the other settling lemmas assume a well-formed store (a forest with unique, non-blank placenames). The code makes that assumption without checking it.
- `Reparent.SetParentPlacesSelf`: it assumes unique placenames, because the parent lookup by bare placename takes the lowest id.
- `location_code` is not carried, because nothing in the modelled code reads it. The `disabled` flag of the Disableable concern is carried, because the `_enabled` views read it; disabling itself is not modelled.

## Findings

| source | as written | input that shows it | evidently intended | confidence | as-written member | corrected member |
|---|---|---|---|---|---|---|
| app/models/location.rb:236-243 | `set_parent` saves the descendants before the location. Each descendant's `before_save` takes the level below its parent as stored at that moment. The location is saved last, stays a non-root and triggers no cascade. | Roots A (level 0) and B (level 2), S under A at level 1, C under S at level 2; `S.set_parent(B)` stores S at level 3 and C still at level 2 | the levels below the moved location are derived again from its new level, so C is at level 4 | not executed | Reparent.SetParentLeavesChildStale, Reparent.SetParentStaleExample | Reparent.SetParentAndRelevel, Reparent.RelevelSettles |
| app/models/location.rb:142-146 | `break if result` always breaks after the first type, because an empty Array is truthy in Ruby | only the country "Country1" stored; `find_types_in_hierarchy("Country1", ["district", "country"])` answers `nil` | the first of the types that some location has is used, as the comment at line 134 says, giving "Country1" | not executed | TypeLookup.FindTypesInHierarchy, TypeLookup.FindTypesExample | TypeLookup.FindFirstMatchingType, TypeLookup.FirstMatching |
