# darktable keyboard shortcuts, modelled in Dafny

This project models the pure logic behind darktable's keyboard shortcuts
(darktable 3.7, `src/gui/accelerators.c` and the shortcut and preset tabs
of `src/gui/preferences.c`) and proves properties of it. GTK is replaced
by plain data:

- **Accelerator paths and the registry** (`accelerators.dfy`).
  - It builds the canonical paths `<Darktable>/global/...`, `.../views/...`, `.../image operations/...`, `.../modules/...`, `.../lua/...` and manual paths, plus their translated counterparts.
  - The iop builder splits on '`' into at most four parts, strips `|` context prefixes, and rewrites the `blend` and `preset` prefixes.
  - The view mask of `dt_accel_register_lib` is a set of views computed from view names.
  - Registration prepends to the accelerator list. The lib registrations skip paths that are already registered.
  - Lookup returns the first path match, and deregistration removes the first match.
  - Each of the fixed iop action lists ("show module", "enable module", ..., "next", "previous", "dynamic") gets one entry per action.
  - Combobox next/previous index arithmetic is included.
  - The GTK accel map becomes a `map<string, Binding>`. Translation becomes a record of uninterpreted functions (`Lang`).
- **The shortcut tree** (`accel_tree.dfy`).
  - `tree_insert_accel` / `tree_insert_rec` turn a canonical and a translated path into rows of a rose tree. A position is the list of child indices (a GtkTreePath).
  - Existing branches are reused. A translated segment's '`' characters make the canonical branch key span more segments.
  - `path_to_accel` rebuilds the canonical path of a position.
  - `update_accels_model(_rec)` refreshes the binding column.
- **Search** (`accel_search.dfy`). `accel_search` / `accel_search_children` step through the pre-order matches of a substring. A (term, count) state makes each repeated search move to the next match and wrap after the last one.
- **Conflicts and remapping** (`remap.dfy`).
  - The conflict rule and the first-conflict scan of `tree_key_press`.
  - `delete_matching_accels`, which clears the bindings that clash with a newly mapped one.
  - The remap state machine across row activation, selection change and key presses, including backspace to clear a binding.
- **Orderings** (`ordering.dfy`): `compare_rows_accels` (default actions, then branches, then leaves, then collation) and `compare_rows_presets`. Collation (`strcoll`) is a parameter.
- **Preset rows** (`presets.dfy`).
  - The range columns (ISO, exposure, aperture, focal length) of `tree_insert_presets`, with their "%" meaning "any".
  - The exposure and aperture bucket search over the value tables.
  - The grouping of presets under one header row per operation.
- `strings.dfy` states the C and GLib string primitives the code relies on: `strchr`, `strstr`, `g_strsplit` with and without a limit, `g_strjoinv`, `g_strdelimit` and printing of integers.

## Model

| member | source | states |
|---|---|---|
| Accelerators.GlobalSegments | src/gui/accelerators.c:37-40 | the global path splits on '/' into "<Darktable>", "global", then exactly the segments of the given path |
| Accelerators.ViewSegments | src/gui/accelerators.c:42-45 | the view path splits into "<Darktable>", "views", the module's segments, then the path's segments |
| Accelerators.LibSegments | src/gui/accelerators.c:81-84 | the lib path splits into "<Darktable>", "modules", the module's segments, then the path's segments |
| Accelerators.LuaSegments | src/gui/accelerators.c:86-89 | the lua path splits into "<Darktable>", "lua", then the path's segments |
| Accelerators.ManualSegments | src/gui/accelerators.c:91-94 | a manual path is "<Darktable>" followed by the segments of the full path given |
| Accelerators.StripContext | src/gui/accelerators.c:67-71 | removes everything up to and including the first '\|' when there is one, and otherwise leaves the piece unchanged |
| Accelerators.PathIop | src/gui/accelerators.c:47-79 | every iop path starts with "<Darktable>/image operations/"; with no path given, the module name follows it and nothing else |
| Accelerators.IopPathPlain | src/gui/accelerators.c:47-79 | any non-empty path without a blend/preset prefix becomes the module followed by its at most four '`'-pieces, each context-stripped, joined by '/'; a fourth or later '`' stays inside the last piece; without '\|' the pieces are unchanged, and with at most three '`' every '`' simply becomes '/' |
| Accelerators.IopPathBlend | src/gui/accelerators.c:52-75 | a path starting with "blend`" goes under "blending" instead of the module; the "blend" piece is dropped and the rest splits into at most three pieces (the last keeping any later '`'), each context-stripped and joined by '/'; with at most two more '`' these are exactly the '`'-separated pieces of the rest |
| Accelerators.IopPathPreset | src/gui/accelerators.c:52-75 | a path starting with "preset`" keeps its module; the first piece becomes the translation of "preset", followed by the rest split into at most three pieces (the last keeping any later '`'), each context-stripped and joined by '/'; with at most two more '`' these are exactly the '`'-separated pieces of the rest |
| Strings.JoinSplitMax | src/gui/accelerators.c:52-72 | joining the at-most-`n` pieces of a limited split with the separator gives back the input (the fourth piece keeps its later '`') |
| Accelerators.IopTranslated | src/gui/accelerators.c:107-135 | every translated iop path starts with "<Darktable>/", the translated "processing modules" and '/' |
| Accelerators.IopTranslatedSegments | src/gui/accelerators.c:107-135 | for a path whose first piece is not "blend", and when the category's translation has no '/', the translated iop path splits into "<Darktable>", the category, the module name with '/' turned to '-', and one segment per translated piece, so a translated path has one segment per tree level |
| Accelerators.IopTranslatedBlendSegments | src/gui/accelerators.c:107-135 | for a path whose first piece is "blend", when neither the category's nor "blending"'s translation has '/', the translated path splits into "<Darktable>", the category, the translated "blending" plus a space, and one segment per translated piece after the first; a bare "blend" ends in one empty segment |
| Accelerators.TranslatePiece | src/gui/accelerators.c:121-126 | a translated iop piece never contains '/': each '/' of the translation becomes '`' |
| Accelerators.FindIndex | src/gui/accelerators.c:385-393 | the index found is the first entry with that path, and nothing is found exactly when no entry has it |
| Accelerators.Lookup | src/gui/accelerators.c:1300-1303 | finds an entry exactly when some entry has the path; the entry found has that path and no earlier entry does, so with duplicate paths the most recent registration wins |
| Accelerators.Register | src/gui/accelerators.c:154-170 | registration puts the entry at the front and adds its path to the binding map unless already there; afterwards lookup of that path finds the new entry and every other path finds what it found before |
| Accelerators.RegisterGlobal | src/gui/accelerators.c:154-170 | prepends the entry with the global path, its translation and all views |
| Accelerators.RegisterView | src/gui/accelerators.c:172-188 | prepends the entry with the view path, the view's module and the view's flags |
| Accelerators.RegisterIop | src/gui/accelerators.c:190-203 | prepends the entry with the iop path, the operation as module, the local flag and the darkroom view |
| Accelerators.RegisterLibAsView | src/gui/accelerators.c:205-239 | an already registered path leaves everything unchanged; otherwise exactly one entry is prepended, with that path and the view named; the path is registered afterwards and unique paths stay unique |
| Accelerators.RegisterLibForViews | src/gui/accelerators.c:241-260 | same skip-if-present rule for the lib path, with the views given; unique paths stay unique |
| Accelerators.ViewOfNameInverse | src/gui/accelerators.c:269-280 | a view name selects a view exactly when it is that view's name |
| Accelerators.ViewMask | src/gui/accelerators.c:262-287 | a view is in the mask exactly when some listed name is "*" or that view's name |
| Accelerators.ViewMaskStar | src/gui/accelerators.c:281-283 | a "*" among the names gives all six views |
| Accelerators.ViewMaskUnknown | src/gui/accelerators.c:267-285 | names that are neither "*" nor a view's name add nothing to the mask |
| Accelerators.RegisterLib | src/gui/accelerators.c:262-287 | an unregistered lib path gets one new front entry whose views are the mask of the names; a registered one leaves everything unchanged |
| Accelerators.RegisterLibIdempotent | src/gui/accelerators.c:262-287 | registering the same lib shortcut twice is the same as registering it once |
| Accelerators.ActionAccel | src/gui/accelerators.c:318-330 | an action's entry has the path ending in "/" + action, a translated path ending in a space (the default-action mark), the darkroom view, and the operation and local flag given |
| Accelerators.RegisterActionsIop | src/gui/accelerators.c:311-331 | one entry per action is prepended, the last action ending up first, and the old list follows unchanged |
| Accelerators.RegisterActionsIopKeys | src/gui/accelerators.c:320-323 | every action path not yet in the binding map is added unbound, and existing bindings are kept |
| Accelerators.RegisterLua | src/gui/accelerators.c:348-364 | prepends the entry with the lua path and all views |
| Accelerators.RegisterManual | src/gui/accelerators.c:366-383 | prepends the entry with the manual path and the views given |
| Accelerators.RemoveFirst | src/gui/accelerators.c:1136-1151 | removes exactly the first entry with the path, keeping the others in order, and nothing when no entry has it |
| Accelerators.DeregisterGlobal | src/gui/accelerators.c:1136-1151 | the list loses exactly its first entry with the global path, with the entries before and after it unchanged and in order; the binding map is untouched |
| Accelerators.DeregisterLua | src/gui/accelerators.c:1153-1168 | the same for the lua path |
| Accelerators.DeregisterGlobalUndoesRegister | src/gui/accelerators.c:154-170 | deregistering right after registering restores the list, while the binding stays in the map |
| Accelerators.DeregisterLuaUndoesRegister | src/gui/accelerators.c:348-364 | the same for lua shortcuts |
| Accelerators.DeregisterGlobalRemoves | src/gui/accelerators.c:1136-1151 | with unique paths, lookup no longer finds the path after deregistration, and every other path is found as before |
| Accelerators.NextIndex | src/gui/accelerators.c:732-746 | the next index stays in range and steps by one except from the last entry, which wraps to 0 |
| Accelerators.PrevIndexAsWritten | src/gui/accelerators.c:748-762 | as written, previous steps back by one and undoes next from every index but the first, and from index 0 gives the length |
| Accelerators.PrevNextInverse | src/gui/accelerators.c:748-762 | with the corrected wrap, previous undoes next and next undoes previous |
| Accelerators.PrevAsWrittenLeavesRange | src/gui/accelerators.c:748-762 | as written, previous from index 0 gives the length, one past the last entry, so it does not undo next |
| AccelTree.PathToAccel | src/gui/preferences.c:1103-1127 | the rebuilt path of every row starts with "<Darktable>/" |
| AccelTree.KeysAt | src/gui/preferences.c:1103-1127 | one key per level of the position, ending with the row's own key |
| AccelTree.FindChild | src/gui/preferences.c:1068-1082 | the sibling scan finds the first row with that key, and nothing only when no sibling has it |
| AccelTree.InsertRec | src/gui/preferences.c:1021-1101 | insertion only adds rows: existing rows keep their place, key, label and text; when a leaf is added, its position's keys joined by '/' are the accel path, and it shows the binding |
| AccelTree.InsertSucceeds | src/gui/preferences.c:1021-1101 | a path with no '`' in its translation and as many '/' on both sides always gets its leaf |
| AccelTree.InsertMismatch | src/gui/preferences.c:1049-1063 | when the canonical path has too few '/' for the translated segment's '`', the tree is left as it was and no leaf is added |
| AccelTree.InsertBacktickBranch | src/gui/preferences.c:1049-1091 | otherwise the branch key spans as many '/' as the segment has '`'; a sibling with that key is reused and no row is added at this level; if none exists, one branch row is appended with that key, a blank label and the segment's text with '`' turned back to '/' |
| AccelTree.InsertReusesBranch | src/gui/preferences.c:1068-1095 | a segment that matches an existing sibling adds no row at its level |
| AccelTree.InsertLeafTwice | src/gui/preferences.c:1034-1046 | inserting the same leaf twice appends two rows; a leaf is never overwritten |
| AccelTree.TreeInsertAccel | src/gui/preferences.c:997-1019 | inserting an entry only extends the tree, and the leaf added for a "<Darktable>/" path rebuilds that path and shows the path's binding |
| AccelTree.BuildTree | src/gui/preferences.c:921 | inserting the whole list (one tree_insert_accel, preferences.c:997-1019, per entry) only ever extends the tree |
| AccelTree.BuildTreeLocates | src/gui/preferences.c:997-1127 | every well-formed entry of the list ends up as a row whose rebuilt path is the entry's path and whose label shows its binding |
| AccelTree.RefreshNode | src/gui/preferences.c:1221-1254 | refreshing a row keeps its key, text and number of children, and a branch keeps its label |
| AccelTree.UpdateAccelsModel | src/gui/preferences.c:1129-1146 | the top level keeps its rows, each with its key and text |
| AccelTree.RefreshKeeps | src/gui/preferences.c:1221-1254 | refreshing keeps every row's position, keys, translated text and number of children |
| AccelTree.RefreshAt | src/gui/preferences.c:1221-1254 | after a refresh a leaf whose full path is bound shows that binding, and every other row keeps its label |
| AccelTree.UpdateConsistent | src/gui/preferences.c:1129-1146 | after update_accels_model every bound leaf shows its path's binding |
| AccelTree.SetLabelAt | src/gui/preferences.c:1346-1347 | writing a row's label changes that label and leaves its keys and children as they were |
| AccelTree.SetLabelTwice | src/gui/preferences.c:1346-1347 | the second label written wins |
| AccelSearch.Matches | src/gui/preferences.c:1148-1191 | the reference list of matches in pre-order: when the first row matches it is listed first, before its subtree and its later siblings |
| AccelSearch.SearchForestCounts | src/gui/preferences.c:1148-1191 | the recursive scan's match count never goes down, and a found position is a row of the forest scanned, reached only once the count has passed `last` |
| AccelSearch.MatchesSound | src/gui/preferences.c:1148-1191 | every listed match is a row of the tree whose translated text contains the term |
| AccelSearch.MatchesComplete | src/gui/preferences.c:1148-1191 | every row whose text contains the term is listed |
| AccelSearch.SearchForestFinds | src/gui/preferences.c:1148-1191 | the recursive scan stops at match number `last - curr` in pre-order, or finds nothing after counting all matches |
| AccelSearch.Search | src/gui/preferences.c:1193-1219 | a new term restarts the count; a search moves to the next match and bumps the count, and past the last match finds nothing and resets the count to 0 |
| AccelSearch.SearchLandsOnMatch | src/gui/preferences.c:1193-1219 | a search only ever lands on a row containing the term |
| AccelSearch.SearchReaches | src/gui/preferences.c:1193-1219 | every matching row is reached by some search in the sequence |
| Remap.Clash | src/gui/preferences.c:1416-1419 | the conflict rule shared by the scan and the clear: equal bindings, not local to two different modules, and at least one view in common; its symmetry is Remap.ClashSymmetric |
| Remap.DeleteStep | src/gui/preferences.c:1256-1276 | one step of the clear touches at most the current entry's binding, never the remapped path's, and keeps the map's domain |
| Remap.ClashSymmetric | src/gui/preferences.c:1416-1419 | the conflict rule does not depend on which entry is named first |
| Remap.ChangeEntry | src/gui/preferences.c:1494 | changing a binding sets exactly that path and keeps the map's domain |
| Remap.FirstConflict | src/gui/preferences.c:1409-1425 | the scan never reports the entry being remapped; it reports the first clashing entry in list order, or none when nothing clashes |
| Remap.DeleteMatching | src/gui/preferences.c:1256-1276 | exactly the other clashing entries are cleared; the remapped path and every other entry keep their binding |
| Remap.NoClashRemains | src/gui/preferences.c:1454-1463 | after the clear, no other entry clashes with the newly mapped one |
| Remap.RowActivated | src/gui/preferences.c:1320-1353 | activating a leaf enters remap mode for its path and shows the prompt there; a branch changes nothing |
| Remap.SelectionChanged | src/gui/preferences.c:1355-1378 | a selection change leaves remap mode and restores the label from the map |
| Remap.CancelRestores | src/gui/preferences.c:1320-1378 | activating a leaf and then moving the selection gives back the dialog unchanged |
| Remap.RemapKeys | src/gui/preferences.c:1409-1463 | with no conflict, or after confirmation, the path gets the new binding and afterwards nothing else clashes with it; a refused conflict changes nothing; with no conflict no other binding changes |
| Remap.KeyPress | src/gui/preferences.c:1380-1506 | a modifier key changes nothing; any other key in remap mode leaves it, writes the remap and names the conflict asked about; backspace on a leaf clears its binding; the tree then shows the map |
| Ordering.CompareRowsAccels | src/gui/preferences.c:1829-1854 | two rows never compare equal, and a default action sorts before a row that is not one |
| Ordering.CompareAccelsOrder | src/gui/preferences.c:1829-1854 | a row sorts first when its rank (default action, branch, leaf) is lower, or on equal rank when collation puts it first; the comparison never returns 0 |
| Ordering.CompareAccelsAntisymmetric | src/gui/preferences.c:1829-1854 | swapping the rows flips the result whenever collation does |
| Ordering.DefaultActionFirst | src/gui/preferences.c:1844-1848 | a default action sorts before any row that is not one, branches included |
| Ordering.CompareRowsPresets | src/gui/preferences.c:1857-1879 | the comparator itself has no contract; what it promises is stated by Ordering.ComparePresetsLevels, Ordering.ComparePresetsTransitive and Ordering.ComparePresetsAntisymmetric below |
| Ordering.ComparePresetsLevels | src/gui/preferences.c:1857-1879 | on the rows tree_insert_presets builds, headers are ordered by collating their module names, even an empty one, and the presets under a header by collating their names |
| Ordering.ComparePresetsTransitive | src/gui/preferences.c:1857-1879 | on one level of the tree the comparison is transitive whenever collation is on the texts the rows show, so sorting siblings is consistent |
| Ordering.ComparePresetsAntisymmetric | src/gui/preferences.c:1857-1879 | swapping the rows flips the result whenever collation does |
| Presets.Bucket | src/gui/preferences.c:735-738 | the bucket is the first table value at least the given value |
| Presets.BucketMonotone | src/gui/preferences.c:735-738 | a larger value never gets an earlier bucket |
| Presets.BucketScan | src/gui/preferences.c:735-738 | the scan loop stops at the first table value at least the given value |
| Presets.RangeLabel | src/gui/preferences.c:735-753 | the label is "%" exactly when the range starts in the first bucket and ends in the last; otherwise it is the two bucket labels around a dash |
| Presets.ExposureLabel | src/gui/preferences.c:735-743 | "%" exactly when the range runs from at most 0 to beyond 60 seconds |
| Presets.ApertureLabel | src/gui/preferences.c:745-753 | "%" exactly when the range runs from at most f/0 to beyond f/128 |
| Presets.BucketOfEntry | src/gui/preferences.c:735-753 | in a sorted table, a value that is itself an entry lands on the first entry equal to it, so a value listed twice shows the first of its labels |
| Presets.TablesSorted | src/gui/preferences.c:735-753 | the exposure and aperture tables never decrease |
| Presets.ExposureThousandth | src/gui/preferences.c:735-742 | 1/1000 s falls in the "1/1000" bucket |
| Presets.IsoLabel | src/gui/preferences.c:730-733 | "%" exactly for the full range 0 to FLT_MAX; otherwise the whole parts of both ends around a dash |
| Presets.FocalLabel | src/gui/preferences.c:755-758 | "%" exactly for 0 to 1000; otherwise both ends printed around a dash |
| Presets.Truncate | src/gui/preferences.c:703-704 | the float to int conversion truncates toward zero |
| Presets.PresetColumns | src/gui/preferences.c:714-759 | presets that cannot auto-apply show empty columns; the others show maker, model and lens, and each range column is "%" exactly in its "any" case |
| Presets.GroupPresets | src/gui/preferences.c:761-779 | every header row holds presets of its own operation only, and neighbouring headers differ |
| Presets.GroupPresetsFlatten | src/gui/preferences.c:688-779 | reading the presets under the headers in order gives back the input list |

## Left out

- GTK: tree-view widgets, cursors, expanding rows, dialogs, file choosers and signal wiring. The tree store is a value (`seq<Node>`); the confirmation dialog is the boolean `confirm`; the selection is an optional position.
- GTK's own accel-map rules are not modelled. `gtk_accel_map_add_entry` becomes "add if absent" and `gtk_accel_map_change_entry` becomes "set"; The `replace` flag of `gtk_accel_map_change_entry`, with which GTK itself may drop conflicting entries, is not modelled.
- Translation (`_()`, `C_()`, `Q_()`, `g_dpgettext2`), `strcoll`, `gdk_keyval_to_lower` and `gtk_accelerator_get_label` are uninterpreted parameters. The binding column holds the binding itself, not its label text.
- The order in which the sorted tree store shows rows. The comparators are modelled and proved separately, but the forest keeps insertion order.
- SQLite queries, preset import/export, `keyboardrc` and `user.css` I/O, and the configuration store.
- Closure connect/disconnect and reference counting, the slider step callbacks with their floating-point multiplier, and toast messages.
- Fixed-size buffers: every `snprintf`/`g_strlcat` is assumed to fit.
- Float ranges are `real`; the single precision of `float` is not modelled. Label values are whole-part conversions of the range ends.
- Accelerators.PathIop: requires a non-empty path when one is given. On "" the C code reads a NULL first piece after `g_strsplit`, which is undefined behaviour.
- Accelerators.RegisterCommonIop, Accelerators.RegisterComboboxIop, Accelerators.RegisterSliderIop: their contracts state only that the registry stays valid. Their content follows from Accelerators.RegisterActionsIop, which they call with fixed action lists.
- Remap.SelectionChanged: when the remapped path is missing from the map, the label is left as it was. The C code prints an uninitialised key there.
- AccelTree.RefreshNode: a leaf whose path is not in the binding map keeps its old label. The C code ignores the failed lookup and labels the row from an uninitialised key, which is undefined behaviour.
- Remap.DeleteStep: requires both paths to be in the binding map. The C code ignores failed lookups and compares uninitialised keys otherwise.
- Remap.KeyPress: requires the remap path to have an entry in the list. The C code dereferences the result of `g_list_find_custom` unchecked, so a remap path without an entry crashes.
- Presets.IsoLabel: requires both ISO ends to be non-negative. The C code casts the float to `size_t`, and converting a negative float to an unsigned type is undefined behaviour.
- AccelTree.Insertable: an entry whose path starts with "<Darktable>" must have both paths longer than "<Darktable>". For a bare "<Darktable>" the C code skips one character past the end of the string. AccelTree.TreeInsertAccel, AccelTree.BuildTree, AccelTree.BuildTreeLocates and AccelTree.InsertShows require it.
- Ordering.CompareRowsAccels: an empty translated text counts as no default action. The C code reads the byte before it.
- The translated paths (`dt_accel_path_*_translated`) are modelled as functions. Only the iop one has stated properties (its prefix, '/'-free pieces and segments); the others are plain formatting.
- Deregistration of iop, lib and manual shortcuts, renaming, and the preset-rename helpers are not part of this model.

## Findings

| source | as written | input that shows it | evidently intended | confidence | as-written member | corrected member |
|---|---|---|---|---|---|---|
| src/gui/accelerators.c:748-762 | the previous-entry callback wraps index 0 to the entry count, one past the last entry | current index 0 in a combobox with any positive number of entries | wrap to the last entry, count - 1, mirroring the next-entry callback | low, not executed: `dt_bauhaus_combobox_set` (not part of this model) may clamp the index | Accelerators.PrevAsWrittenLeavesRange | Accelerators.PrevNextInverse |

The tree insertion follows the code where descriptions of it differ. Inserting a leaf whose path is already present appends a second leaf; it does not overwrite the first (AccelTree.InsertLeafTwice).
