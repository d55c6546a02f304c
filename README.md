# Blendshape Range Baker — a verified model

The Blendshape Range Baker is a Unity editor window. The user picks a
skinned mesh renderer and builds a list of *entries*. Each entry names one
blendshape (morph target) of the renderer's mesh by index and gives a
percentage. *Baking* makes a copy of the mesh, named with an `_Edited`
suffix. In the copy, every delta (position, normal and tangent) of each
selected blendshape is multiplied by `clamp01(percent / 100)`. The new 100%
of the shape is then the old `percent`%. All other shapes, and all names,
frame weights and orders, stay as they were. The window can then assign the
copy to the renderer and reload itself.

This project models the non-drawing part of the window:

- **Meshes** — the mesh as the engine holds it:
  - a sequence of targets (name, frames), where a frame is a weight and
    three delta sequences;
  - an opaque base geometry;
  - an engine class `Mesh` with the calls the bake uses:
    `GetBlendShapeFrameVertices`, `ClearBlendShapes`,
    `AddBlendShapeFrame` and `Object.Instantiate` (as `Copy`).
- **Entries** — the entry list:
  - its invariant: indices unique and in range, with display names equal to
    the blendshape names;
  - adding one index;
  - the pruning that a reload applies.
- **Rescaling** — the functions a bake computes:
  - the scale map (index → factor, where the last entry for an index wins);
  - the rescaled target list;
  - lemmas about both.
- **Baking** — the imperative bake:
  - the loop that builds the map;
  - the in-place scaling of the vertex-count-sized arrays;
  - the frame cache;
  - clearing and rebuilding the blendshapes.

  Each step is proved to compute the matching function of Rescaling.
- **Text** — the string handling:
  - .NET `Trim` / `IsNullOrWhiteSpace`;
  - `String.Split` with `RemoveEmptyEntries`;
  - `Distinct`;
  - ordinal ignore-case `IndexOf`;
  - the wildcard-to-regex match of the picker's search;
  - `Array.FindIndex`.
- **Window** — the class `BakerWindow`, with the fields the source updates:
  - the renderer, `srcMesh`, `bsNames`, `entries`, `pickerChecked`,
    `batchPercent` and `autoAssignToSMR`;
  - the methods that act on them: `ReloadMeshInfo`, `AddOneEntry`,
    `AddCheckedToEntries`, the add-by-name / contains / index / bulk
    buttons, the batch percentage, and `Bake`;
  - the invariant `Valid`, which ties `bsNames` and the entries to the
    current mesh. The mesh may have been edited, or the renderer given
    another mesh, since the last reload, and the window's operations run on
    such an out-of-date window too. So none of them requires `Valid`:
    - `Bake` and `SelectRenderer` ask only for the weaker `Reloadable` (both
      meshes satisfy the engine's invariant and no index is listed twice).
      The bake checks its ranges against the mesh itself, and both reload
      the window, which makes it valid again.
    - The add buttons and the batch percentage ask only that the entries be
      well formed for `bsNames`, the names they check against. They keep
      that, and they keep `Valid` whenever it held before.

Real numbers stand for the source's `float`s.

## Model

| member | source | states |
|---|---|---|
| Entries.Clamp01 | BlendshapeRangeBakerWindow.cs:462 | the result lies in [0, 1]; it equals the input inside [0, 1], is 0 below and 1 above |
| Entries.Factor | BlendshapeRangeBakerWindow.cs:462 | an entry's factor lies in [0, 1] and is `percent / 100` for a percentage in [0, 100] |
| Baking.BuildScaleMap | BlendshapeRangeBakerWindow.cs:457-463 | the map built by the loop over the entries is exactly `ScaleMapOf(entries, blendShapeCount)` |
| Rescaling.ScaleMapKeys | BlendshapeRangeBakerWindow.cs:459-462 | an index is a key of the scale map if and only if it is in `[0, blendShapeCount)` and some entry names it |
| Rescaling.ScaleMapLastWins | BlendshapeRangeBakerWindow.cs:459-462 | the value for an index is the factor of the last entry naming it |
| Rescaling.ScaleMapInUnit | BlendshapeRangeBakerWindow.cs:462 | every value of the scale map lies in [0, 1] |
| Rescaling.ScaleMapEmpty | BlendshapeRangeBakerWindow.cs:464-468 | the scale map is empty if and only if no entry names an in-range blendshape |
| Rescaling.ScaleMapOf | BlendshapeRangeBakerWindow.cs:457-463 | reference definition of the scale map: the entries visited in order, out-of-range ones skipped, a later entry overwriting an earlier one; its properties are in the ScaleMap lemmas |
| Rescaling.ScaleMapUniform | BlendshapeRangeBakerWindow.cs:276 | after the batch percentage reached every entry, every factor in the map is that percentage / 100, clamped |
| Rescaling.Rescale | BlendshapeRangeBakerWindow.cs:480-514 | the baked targets: same count, names, frame counts, weights and delta lengths; an unselected target is unchanged; every delta of a selected target is scaled by its factor |
| Rescaling.RescaleKeepsWellFormed | BlendshapeRangeBakerWindow.cs:510-514 | the rescaled targets satisfy the engine's invariant whenever the source targets do, so every re-added frame is accepted |
| Rescaling.RescaleEmptyIsIdentity | BlendshapeRangeBakerWindow.cs:486 | with no selected target, every target stays exactly as it was |
| Rescaling.RescaleByOne | BlendshapeRangeBakerWindow.cs:496-503 | a factor of 1 (100%) has the same effect as leaving the shape out of the map |
| Rescaling.RescaleByZero | BlendshapeRangeBakerWindow.cs:496-503 | a factor of 0 zeroes every position, normal and tangent delta of every frame of that shape |
| Rescaling.ScaleAllTwice | BlendshapeRangeBakerWindow.cs:500-502 | scaling all deltas by `a` and then by `b` is scaling them by `a * b` |
| Rescaling.RescaleTwice | BlendshapeRangeBakerWindow.cs:453-514 | baking an already baked mesh multiplies the two factors of every shape |
| Rescaling.SmileBlinkExample | BlendshapeRangeBakerWindow.cs:496-505 | a concrete two-shape mesh: the selected shape's delta is halved, the other shape and both weights stay |
| Baking.ScaleDeltas | BlendshapeRangeBakerWindow.cs:496-503 | after the in-place loop, each of the three arrays holds its old contents elementwise multiplied by the factor |
| Baking.ReadFrame | BlendshapeRangeBakerWindow.cs:490-505 | the snapshot of one frame is the frame itself, or the frame scaled when the shape is selected, with deltas of length vertexCount |
| Baking.CacheScaledFrames | BlendshapeRangeBakerWindow.cs:474-508 | the cache is exactly `Rescale(mesh targets, scaleMap)` |
| Baking.AddShapeFrames | BlendshapeRangeBakerWindow.cs:513-514 | re-adding one cached shape's frames in order appends exactly that shape to the mesh |
| Baking.RebuildBlendShapes | BlendshapeRangeBakerWindow.cs:511-514 | after clearing and re-adding, the mesh's targets are exactly the cached ones, and the engine invariant holds |
| Baking.BakeMesh | BlendshapeRangeBakerWindow.cs:471-514 | the result is a fresh mesh named source name + `_Edited`, with the source geometry and targets `Rescale(source targets, scaleMap)` |
| Meshes.WithFrameKeepsWellFormed | BlendshapeRangeBakerWindow.cs:514 | a frame that the engine accepts keeps the target list well formed |
| Meshes.Mesh.Copy | BlendshapeRangeBakerWindow.cs:471 | the copy has the source's name, geometry and targets |
| Meshes.Mesh.GetBlendShapeFrameVertices | BlendshapeRangeBakerWindow.cs:494 | the three arrays receive the frame's three delta sequences |
| Meshes.Mesh.ClearBlendShapes | BlendshapeRangeBakerWindow.cs:511 | the mesh has no blendshapes left |
| Meshes.Mesh.AddBlendShapeFrame | BlendshapeRangeBakerWindow.cs:514 | an acceptable frame extends the last shape or starts a new one; anything else leaves the mesh unchanged |
| Window.BakerWindow.Bake | BlendshapeRangeBakerWindow.cs:453-535 | also for a window whose mesh changed since the last reload: nothing happens without a renderer, a mesh, entries or an entry in range of the mesh itself; otherwise a fresh valid mesh `_Edited` with the rescaled targets is made, assigned when auto-assign is on, and the window reloaded from the renderer (its names, and the old entries pruned for them), which makes it valid again; after an auto-assign the names are the baked mesh's, and entries that fitted them are unchanged |
| Window.BakerWindow.BakeWith | BlendshapeRangeBakerWindow.cs:470-535 | the bake after the guards, from a possibly out-of-date window: the baked mesh, its assignment and the reloaded, valid window state |
| Window.BakerWindow.BakeSkips | BlendshapeRangeBakerWindow.cs:455-468 | the bake's guard: no renderer, no mesh, no entries, or an empty scale map |
| Window.BakerWindow.OutdatedEntriesSkip | BlendshapeRangeBakerWindow.cs:459-468 | an out-of-date window whose entries all lost their blendshape gets an empty scale map and skips the bake at the message |
| Window.BakerWindow.PublishBaked | BlendshapeRangeBakerWindow.cs:527-535 | the renderer gets the mesh when auto-assign is on; the window then shows the renderer's mesh and is valid; with the baked mesh shown, the names are its names and entries that fitted them are unchanged |
| Window.BakerWindow.constructor | BlendshapeRangeBakerWindow.cs:21-49 | a fresh window: no renderer or mesh, no names, no entries, no check marks, the batch percentage at its own default 65, auto-assign on |
| Window.Renderer.constructor | BlendshapeRangeBakerWindow.cs:24 | a renderer holding the given shared mesh; only its mesh is used by the window |
| Window.BakerWindow.SelectRenderer | BlendshapeRangeBakerWindow.cs:107-112 | picking the same renderer changes nothing; picking another reloads the mesh and prunes the entries, leaving the window valid even when it was out of date |
| Window.BakerWindow.ReloadMeshInfo | BlendshapeRangeBakerWindow.cs:315-336 | `srcMesh` is the renderer's mesh; with a mesh, `bsNames` are its names and the entries are pruned; without one, both are empty; the invariant holds |
| Window.ReadNames | BlendshapeRangeBakerWindow.cs:320-322 | the array filled by the loop holds the mesh's blendshape names in order |
| Window.PruneEntries | BlendshapeRangeBakerWindow.cs:325-329 | the backward loop with `RemoveAt` computes exactly `Pruned(entries, names)` |
| Entries.PrunedIsFilter | BlendshapeRangeBakerWindow.cs:325-329 | the pruned list is the in-range entries, in their original order, each relabelled with its blendshape's name, and no in-range entry is lost |
| Entries.PrunedKeepsWellFormed | BlendshapeRangeBakerWindow.cs:325-329 | pruning a list with unique indices yields a well-formed list whose index set is the in-range indices of the old one |
| Entries.PrunedIdempotent | BlendshapeRangeBakerWindow.cs:325-329 | pruning twice is pruning once |
| Entries.PrunedWellFormedIsIdentity | BlendshapeRangeBakerWindow.cs:325-329 | pruning a well-formed list for the same names changes nothing |
| Entries.PrunedByNoNames | BlendshapeRangeBakerWindow.cs:331-335 | for a mesh without blendshapes every entry is dropped, like the window's no-mesh branch |
| Entries.KeptPositionsSound | BlendshapeRangeBakerWindow.cs:327 | every position that pruning keeps is in the list and holds an in-range entry |
| Entries.KeptPositionsIncreasing | BlendshapeRangeBakerWindow.cs:325-329 | the kept positions increase, so the relative order is kept |
| Entries.KeptPositionsComplete | BlendshapeRangeBakerWindow.cs:327 | every in-range entry's position is kept |
| Entries.PrunedAtKept | BlendshapeRangeBakerWindow.cs:328 | the pruned list's j-th entry is the j-th kept entry with its display name refreshed |
| Entries.PrunedIndexSet | BlendshapeRangeBakerWindow.cs:325-329 | the pruned list's indices are the in-range indices of the old list |
| Entries.Pruned | BlendshapeRangeBakerWindow.cs:325-329 | reference definition of the reload's pruning: out-of-range entries dropped, the rest relabelled; its properties are in the Pruned lemmas |
| Window.BakerWindow.SafeNameOfEntry | BlendshapeRangeBakerWindow.cs:338-345 | an entry of a valid window shows its own display name |
| Window.BakerWindow.FilteredIndices | BlendshapeRangeBakerWindow.cs:347-366 | exactly the positions whose name matches the query (all for a blank query; a wildcard or ignore-case contains match of the trimmed query otherwise), in increasing order |
| Window.AllIndices | BlendshapeRangeBakerWindow.cs:351 | the positions 0 .. n-1, in order |
| Text.ContainingIndices | BlendshapeRangeBakerWindow.cs:364-366 | exactly the positions whose name contains the needle ignoring case, in increasing order |
| Text.WildcardIndices | BlendshapeRangeBakerWindow.cs:356-362 | exactly the positions whose name matches the wildcard pattern, in increasing order |
| Text.MatchingIndices | BlendshapeRangeBakerWindow.cs:359-361 | exactly the positions whose name satisfies the filter, in increasing order |
| Text.GlobStarMatchesOneLine | BlendshapeRangeBakerWindow.cs:358 | the pattern `^.*$` matches exactly the names with no line feed before the last character |
| Text.GlobLiteral | BlendshapeRangeBakerWindow.cs:358 | a `*`-free pattern (such as a segment between two `*`s of the built regex) matches exactly the strings equal to it up to case, optionally followed by one final line feed |
| Text.IsInfixAt | BlendshapeRangeBakerWindow.cs:365 | the substring search succeeds if and only if the needle occurs at some position |
| Text.ContainsIgnoreCase | BlendshapeRangeBakerWindow.cs:365 | reference definition of `IndexOf(q, OrdinalIgnoreCase) >= 0`: the folded needle occurs in the folded name |
| Text.GlobMatches | BlendshapeRangeBakerWindow.cs:358-360 | reference definition of the anchored wildcard regex match; its properties are in `GlobStarMatchesOneLine` and `GlobLiteral` |
| Window.QueryMatches | BlendshapeRangeBakerWindow.cs:350-366 | reference definition of the picker's filter: every name for a blank query, otherwise a wildcard or ignore-case contains match of the trimmed query |
| Text.TrimSpec | BlendshapeRangeBakerWindow.cs:353 | the trimmed string is a slice of the input with only white space around it; it is empty exactly for a blank input; otherwise it starts and ends with a non-space |
| Text.TrimIdempotent | BlendshapeRangeBakerWindow.cs:353 | trimming twice is trimming once |
| Text.TrimEmptyIffBlank | BlendshapeRangeBakerWindow.cs:350-353 | the trimmed query is empty if and only if `IsNullOrWhiteSpace` holds |
| Text.LeadingBlanks | BlendshapeRangeBakerWindow.cs:353 | the counted prefix is white space and is followed by a non-space or the end |
| Text.TrailingBlanks | BlendshapeRangeBakerWindow.cs:353 | the counted suffix is white space and is preceded by a non-space or the start |
| Text.Trim | BlendshapeRangeBakerWindow.cs:353 | reference definition of .NET `Trim`; its properties are in `TrimSpec` |
| Text.IsBlank | BlendshapeRangeBakerWindow.cs:350 | reference definition of `IsNullOrWhiteSpace` (every character white space) |
| Window.BakerWindow.AddOneEntry | BlendshapeRangeBakerWindow.cs:376-381 | nothing changes for an out-of-range or already listed index; otherwise exactly `(idx, name, 65)` is appended; indices stay unique and in range |
| Entries.WithEntryKeepsWellFormed | BlendshapeRangeBakerWindow.cs:376-381 | adding one index keeps the indices unique and in range, and adds the index to the index set exactly when it is in range |
| Entries.WithEntryIdempotent | BlendshapeRangeBakerWindow.cs:379 | adding the same index twice is adding it once |
| Entries.WithEntryAppendsDefaults | BlendshapeRangeBakerWindow.cs:380 | adding keeps the old list as a prefix, and any new entry has the default 65 |
| Entries.WithEntry | BlendshapeRangeBakerWindow.cs:376-381 | reference definition of adding one index: unchanged when out of range or already listed, otherwise `(idx, name, 65)` appended |
| Window.WithIndices | BlendshapeRangeBakerWindow.cs:371-372 | reference definition of adding several indices, one after another; its properties are in `WithIndicesSpec` |
| Window.BakerWindow.AddCheckedToEntries | BlendshapeRangeBakerWindow.cs:369-374 | every checked in-range index not yet listed is appended at 65 after the old entries, the index set grows by exactly the checked in-range indices, and the check marks are cleared; the list stays well formed for `bsNames` |
| Window.BakerWindow.AddEach | BlendshapeRangeBakerWindow.cs:371-372 | adding indices one after another equals `WithIndices`, only appends default entries and adds exactly the in-range indices |
| Window.WithIndicesSpec | BlendshapeRangeBakerWindow.cs:371-372 | adding a sequence of indices keeps the list well formed, only appends default entries, and adds exactly the in-range indices |
| Window.BakerWindow.SetChecked | BlendshapeRangeBakerWindow.cs:165-168 | ticking adds the index to the check marks, unticking removes it |
| Window.BakerWindow.AddByName | BlendshapeRangeBakerWindow.cs:184-186 | found exactly when some blendshape has that name; then the first such index is added, otherwise nothing changes |
| Text.FindIndex | BlendshapeRangeBakerWindow.cs:184 | -1 exactly when no name equals the token; otherwise the first position holding it |
| Window.BakerWindow.AddContaining | BlendshapeRangeBakerWindow.cs:188-195 | matched exactly when some name contains the input ignoring case; every such index is added in order at 65, the index set grows by exactly those, and the list stays well formed for `bsNames` |
| Window.ContainingAdds | BlendshapeRangeBakerWindow.cs:190-194 | the contains-match positions, as a set, are exactly the names containing the input ignoring case, and there are some exactly when such a name exists |
| Window.BakerWindow.AddByIndex | BlendshapeRangeBakerWindow.cs:200-205 | an in-range index of `bsNames` is added and reported in range; an out-of-range one changes nothing; the list stays well formed |
| Window.BakerWindow.AddBulkNames | BlendshapeRangeBakerWindow.cs:211-222 | the entries become `WithNamed(old entries, names, BulkTokens(input))` (tokens added in order by exact name); `added` counts the tokens that name a blendshape, `added + miss` is the token count, only default entries are appended, and the index set grows by exactly the first positions of the found names; the list stays well formed |
| Window.BakerWindow.AddNamed | BlendshapeRangeBakerWindow.cs:215-221 | the loop over the tokens leaves the entries equal to `WithNamed(old entries, names, tokens)`, with the counts, the appended default entries and the grown index set |
| Window.WithNamedSpec | BlendshapeRangeBakerWindow.cs:216-221 | adding by name token by token keeps the list well formed, only appends default entries, and adds exactly the found positions |
| Window.WithNamed | BlendshapeRangeBakerWindow.cs:216-221 | reference definition of adding tokens by exact name, one after another; its properties are in `WithNamedSpec` |
| Text.FoundStep | BlendshapeRangeBakerWindow.cs:218-220 | one more token raises the found count by one and adds its first position exactly when it names a blendshape |
| Text.BulkTokensSpec | BlendshapeRangeBakerWindow.cs:213-214 | the tokens have no duplicates, are non-empty, trimmed and free of delimiters, and are exactly the trimmed non-empty pieces of the input |
| Text.BulkTokenMember | BlendshapeRangeBakerWindow.cs:213-214 | a string is a token if and only if it is non-empty and is the trim of some piece between delimiters |
| Text.PiecesSpec | BlendshapeRangeBakerWindow.cs:213 | no piece holds a delimiter, the pieces concatenate to the input without its delimiters, there is one piece more than there are delimiters, and joining the pieces with the input's delimiters in order gives back the input |
| Text.PiecesRejoin | BlendshapeRangeBakerWindow.cs:213 | the split round trip: one piece more than delimiters, and the pieces joined with the input's delimiters give back the input |
| Text.Pieces | BlendshapeRangeBakerWindow.cs:213 | reference definition of `Split` on the five delimiters, empty pieces included |
| Text.BulkTokens | BlendshapeRangeBakerWindow.cs:213-214 | reference definition of the token pipeline: split, drop empties, trim, drop empties, `Distinct`; its properties are in `BulkTokensSpec` |
| Text.DropEmpty | BlendshapeRangeBakerWindow.cs:213-214 | the kept pieces are exactly the non-empty ones, and they form a subsequence of the input (their order is kept) |
| Text.DropEmptyCounts | BlendshapeRangeBakerWindow.cs:213-214 | every non-empty piece is kept exactly as often as it occurs, and no empty piece is kept |
| Text.TrimAll | BlendshapeRangeBakerWindow.cs:214 | `.Select(t => t.Trim())`: one trimmed string per piece; `TrimAllMembers` states its members |
| Text.TrimAllMembers | BlendshapeRangeBakerWindow.cs:214 | a string is among the trimmed pieces if and only if it is the trim of some piece |
| Text.Distinct | BlendshapeRangeBakerWindow.cs:214 | the result has no duplicates and the same members as the input |
| Window.BakerWindow.ApplyBatchPercent | BlendshapeRangeBakerWindow.cs:274-277 | every entry takes the batch percentage; index, name, count and order are unchanged, so the list stays well formed |

## Left out

- Drawing the window is left out: the header, tabs, scroll views, sliders, text fields and buttons. They are modelled only through the operations they call.
- Saving the asset is left out (lines 516-521: `EnsureFolders`, `GenerateUniqueAssetPath`, `CreateAsset`, `SaveAssets`, `Refresh`). It is file-system and asset-database I/O.
- `LogOriginalMeshPath` (line 524) and `RestoreOriginal` are left out. They read and write a log file and load assets.
- `Undo.RecordObject` is left out. `EditorUtility.DisplayDialog` and `ShowNotFound` are also left out, because they are editor side effects. The model returns the conditions that trigger the messages instead (`found`, `matched`, `inRange`, `miss`). A `Bake` that returns `null` showed the message only when it stopped at the empty scale map, the last disjunct of `BakeSkips` (464-468); the other skips (455) return silently.
- The summary string at lines 537-538 is left out: it only builds the completion message. It looks each scale-map key up in the reloaded `bsNames`. With auto-assign off, the reload reads the renderer's current mesh, which on an out-of-date window may have fewer blendshapes than the mesh baked from; `bsNames[k]` then throws. The throw comes after every state change the model covers (the bake, the assignment and the reload), so the model's final state is the source's.
- The two picker buttons that check or uncheck the whole filtered list (lines 145-149) are left out. The model covers single toggles (`SetChecked`) and the filtered list itself.
- The picker's search box is not modelled. `FilteredIndices` takes the query as a parameter.
- Floating point is not modelled. Vector components, weights, percentages and factors are `real`, so no rounding happens in `v * scale` or in `percent / 100`.
- Window.BakerWindow.FilteredIndices: the regex branch is modelled as a wildcard match.
  - `*` matches any run of characters other than a line feed.
  - Every other character is a literal.
  - The end anchor also matches before one final line feed, as in .NET.
  - The match is anchored at both ends.
  - The rest of the .NET regex engine is not modelled.
- Text.Fold: case-insensitive comparison (`OrdinalIgnoreCase`, `RegexOptions.IgnoreCase`) folds ASCII letters only. Unicode case mapping is not modelled.
- Text.IsWhiteSpace: the white-space set is the list of Unicode white-space characters that .NET's `Trim` uses; it is written out directly, not looked up.
- Window.BakerWindow.AddCheckedToEntries: `pickerChecked.ToList()` enumerates a `HashSet` in an order the runtime chooses. The model takes that enumeration as the parameter `listed`, which holds every checked index in an unspecified order. The contract still fixes the index set and the prefix, for every order.
- Meshes.Mesh.AddBlendShapeFrame: the engine's rules for accepting a frame are stated as a model. A frame is accepted when:
  - its deltas have the vertex count;
  - it extends the last shape with a larger weight, or starts a shape with a new name.

  Otherwise the mesh is unchanged. The engine's own code is not part of this model.
- Meshes.WellFormed / Baking.BakeMesh: every mesh the window reads is assumed to satisfy the engine invariant `Mesh.Valid`:
  - shape names are unique;
  - every shape has at least one frame;
  - frame weights strictly increase;
  - every delta array has the vertex count.

  Only under this invariant is every frame re-added at line 514 accepted, which gives the rebuilt mesh exactly the rescaled targets. A source mesh with two shapes of the same name is excluded. For such a mesh, under the model's acceptance rule, the rebuild would merge or refuse frames, and the model does not state what the bake then produces.
- Meshes.Mesh.Copy: `Object.Instantiate` is modelled as a copy with the same name, base geometry and blendshapes. The base geometry is opaque apart from its vertex count.
- Baking.CacheScaledFrames: the cached `Vector3[]` arrays are recorded as sequences once filled and scaled. Nothing touches these fresh arrays again, so no aliasing is lost.
- Window.BakerWindow.Bake: the model follows the code. With auto-assign off, `srcMesh = dst` is immediately replaced by the reload, which reads the renderer's unchanged mesh (`old(smr.sharedMesh)`). On an out-of-date window that mesh need not be the one baked from. The window therefore goes on showing the renderer's mesh, not the baked one.
