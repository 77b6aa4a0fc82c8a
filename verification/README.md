# Executable launcher: the catalog model

`exe_file_storage.py` is a Tkinter window (`ExeLauncherApp`) that keeps a catalog
of executables, `exe_list`, and shows it in a tree view. The catalog has two
parts:

- `"executables"`: a list of records with `name`, `path`, `emoji` and `group`.
- `"groups"`: a forest of `{name, sub_groups}` records.

This project models the logic that acts on the catalog:

- the group lookup `find_group_by_name`;
- the data part of the "Add Group" command, `add_group`;
- the "Sort List" command, `sort_list`;
- the refresh of the tree view, `update_treeview`.

The model has four modules:

- `Catalog` (`catalog.dfy`): the catalog records, the lookup, and appending a
  group to a parent. A group is addressed by its location, a path of list indices
  (`[]` is the top level). `find_group_by_name` returns a reference to the group it
  finds. The model returns that group's location instead, which is what `add_group`
  needs in order to append under it. Pre-order is the lexicographic order on
  locations (`LexLess`).
- `Sorting` (`sorting.dfy`): ASCII lower-casing, Python's string order, and a stable
  sort by key. That sort is applied to both lists of the catalog.
- `TreeView` (`treeview.dfy`): the tree view as a forest of items. Each item has a
  text, a values string and children. An item is addressed by a path, as a group
  is. Only appends happen, so that path stands in for the Tk item id. The module
  holds:
  - `Layout`, the picture the refresh is meant to draw;
  - the three loops of `update_treeview` as methods proved against it;
  - the group-insertion step exactly as the source writes it, proved to draw the
    intended picture whenever no group has a proper descendant with its own name,
    and shown to misplace a group on an input where one does (see Findings).
- `Launcher` (`launcher.dfy`): the window's state as a class `ExeLauncher` with
  fields `catalog` and `view`, and the object invariant `view == Layout(catalog)`.
  `AddGroup`, `SortList` and `UpdateTreeview` change the fields. The answer of the
  name dialog (`None` for Cancel) and the tree view's selection (a list of item
  paths) are parameters of `AddGroup`.

The catalog is the two-list record built in `__init__`. Saving and loading are
commented out, and the file has no move or filter operation. Its edit of
executables, `edit_exe`, is among the handlers listed under Left out. The model
follows the code.

## Model

| member | source | states |
|---|---|---|
| Catalog.FindGroupByName | exe_file_storage.py:259-267 | a returned location exists in the forest and the group there carries the queried name |
| Catalog.FindFromIsFirst | exe_file_storage.py:261-267 | the loop from position `i` on answers nothing exactly when no group at or below positions `i..` carries the name |
| Catalog.FindGroupByNameIsFirst | exe_file_storage.py:259-267 | the answer is `None` exactly when no group at any depth has the name; otherwise no group before it in pre-order has the name (the first match, a group before its sub-groups, a subtree before later siblings) |
| Catalog.LastNamedIsLast | exe_file_storage.py:417-420 | `LastNamed` (the group an overwritten `group_node_ids` entry ends on) is `None` exactly when no group has the name, and otherwise no group after it in pre-order has the name |
| Catalog.AppendGroupSpec | exe_file_storage.py:234-235 | appending under a parent makes the new empty group the parent's last child; the forest gains exactly that one location; the name at every old location is unchanged |
| Catalog.ForestExtensionality | exe_file_storage.py:255 | two forests with the same locations and the same names at them are equal, so `AppendGroupSpec` leaves every other group and list untouched |
| Sorting.Lower | exe_file_storage.py:375 | lower-casing keeps the length, maps each character by itself and leaves no ASCII capital |
| Sorting.StrLeqTotal | exe_file_storage.py:375 | Python's string order is total |
| Sorting.StrLeqTransitive | exe_file_storage.py:375 | Python's string order is transitive |
| Sorting.SortByKeySpec | exe_file_storage.py:375 | `list.sort(key=...)` yields a permutation in non-decreasing key order, and the elements of each key keep their relative order (stability) |
| Sorting.SortByKeyOfSorted | exe_file_storage.py:375 | sorting a list that is already in key order leaves it unchanged |
| Sorting.SortByKeyIdempotent | exe_file_storage.py:375 | sorting twice gives the same list as sorting once |
| Sorting.SortCatalogSpec | exe_file_storage.py:372-377 | both lists of the catalog become permutations of themselves, ordered by lower-cased name, stable; groups move as whole subtrees, so `sub_groups` are not reordered |
| Sorting.SortCatalogIdempotent | exe_file_storage.py:372-377 | "Sort List" applied twice gives the catalog it gives once |
| TreeView.VisitSpec | exe_file_storage.py:417-426 | after the pre-order walk, `group_node_ids` holds a name exactly when it held it before or some group has it, and then holds the last such group in pre-order |
| TreeView.OwnersSpec | exe_file_storage.py:415-426 | after all groups are inserted, `group_node_ids` has an entry exactly for the names some group carries, and that entry is the location of the last group of that name in pre-order |
| TreeView.ExecutablePlacement | exe_file_storage.py:428-441 | a "Root" executable is shown at the top level and under no group; any other executable is shown under the last group of its group name in pre-order; one whose group no group carries is shown nowhere |
| TreeView.LayoutAt | exe_file_storage.py:419-434 | the item at a group's location is labelled with the group's name, has empty values, and holds its sub-groups' items and then the executables attached to it |
| TreeView.LayoutShape | exe_file_storage.py:414-441 | the top level is the top-level groups in list order, then the "Root" executables in list order; each group item's children are its sub-groups, then its executables (`emoji + " " + name`, values the path) in list order |
| TreeView.PlaceGroup | exe_file_storage.py:419-422 | inserting a group with its subtree under an existing item gives the parent a new last child holding the group's sub-groups in order, and records each group of the subtree in `group_node_ids` in pre-order |
| TreeView.InsertGroups | exe_file_storage.py:424-426 | the first loop builds the group items of the layout and a `group_node_ids` with an entry exactly for the names some group carries |
| TreeView.AttachStep | exe_file_storage.py:429-434 | one pass of the second loop attaches the executable under its group's item, or skips it when its group is "Root" or unknown |
| TreeView.AttachExecutables | exe_file_storage.py:428-434 | the second loop attaches every executable to its group's item as the layout prescribes |
| TreeView.RootStep | exe_file_storage.py:437-441 | one pass of the third loop appends a "Root" executable at the top level and skips every other one |
| TreeView.AppendRootExecutables | exe_file_storage.py:436-441 | the third loop appends the "Root" executables, in list order, after everything already at the top level |
| TreeView.SourcePass | exe_file_storage.py:419-426 | the source's loop as written (parent re-read from `group_node_ids[owner]` for every sub-group): `group_node_ids` only gains entries, and the entry of a name that no group of the pass carries is left as it was |
| TreeView.SourcePassGrafts | exe_file_storage.py:419-422 | when no group has a proper descendant with its own name and the owner's name is not carried below, the source's loop draws the groups from position `i` on, with their subtrees, as the new last children of the owner's item |
| TreeView.SourceSkeletonAgrees | exe_file_storage.py:414-426 | when no group has a proper descendant with its own name, the group items the source draws are exactly the intended skeleton |
| Launcher.NestedGamesAppends | exe_file_storage.py:244-255 | from the initial catalog, adding "Games" and then "Z" with the top-level "Games" selected are both accepted: the label resolves to the top-level group each time, no child has either name, and the result is `NestedGames` |
| Launcher.NestedGamesReachable | exe_file_storage.py:238-255 | before each of those additions the item at `[0]` of the view is a group item labelled "Games", so selecting it leads `AddGroup` to the appends above |
| Launcher.SourceMisplacesSubGroup | exe_file_storage.py:419-426 | on the reachable groups `NestedGames`, the refresh as written draws "Z" inside the inner "Games", while the intended picture has it beside the inner "Games" (see Findings) |
| Launcher.SiblingOnlyUniqueness | exe_file_storage.py:248-255 | uniqueness is checked among siblings only: in the initial catalog "Action" may be added under "Mod Lists", although a group "Action" exists under "Games" |
| Launcher.ExeLauncher.constructor | exe_file_storage.py:11-79 | the window starts with the sample catalog, and the tree view shows it |
| Launcher.ExeLauncher.UpdateTreeview | exe_file_storage.py:414-441 | the refresh leaves the catalog as it is and makes the tree view exactly the layout of the catalog |
| Launcher.ExeLauncher.AddGroup | exe_file_storage.py:218-257 | a cancelled or empty name, or "Root", changes nothing. With no selection, the group is added exactly when no top-level group has its name, and it is appended last at the top level. With a selection: an executable is refused; a group's label is looked up with `find_group_by_name`; the new group is appended last under the result exactly when no child there has its name. Anything but an addition leaves catalog and view unchanged, and the executables are never touched |
| Launcher.ExeLauncher.SortList | exe_file_storage.py:372-379 | the catalog becomes its sorted form (see `SortCatalogSpec`), and the view shows it |

## Left out

- The Tk widgets, theme, menus, buttons and context menu (`construct_ui`, `show_context_menu`) are user interface only.
- Dialogs (`simpledialog`, `messagebox`) are left out. The name dialog's answer and the selection are parameters, and a warning becomes an `AddGroupOutcome`.
- `save_exe_list` and `load_exe_list` have commented-out bodies, so they do nothing. There is no file format to model.
- `execute_exe` only starts a process (`subprocess.Popen`).
- `add_exe`, `remove_exe`, `edit_exe` and `delete_group` look groups up as keys of `exe_list`, whose only keys are `"executables"` and `"groups"`. They are not part of this model.
- Sorting.Lower: models `str.lower()` on ASCII letters only. Unicode case mapping is not modelled.
- Sorting.SortCatalog: the re-sorting of the two keys of `exe_list` (line 377) is not modelled. It only reorders the two entries of the record, which nothing reads in order.
- The catalog is a value. The source mutates the nested lists of groups in place, through the reference `find_group_by_name` returns. The model rebuilds the forest along the parent's location instead.
- TreeView.Insert: an insertion under an item that does not exist leaves the view unchanged, where Tk raises an error. Every call in the model inserts under an existing item.
- Tk stores an item's values as a list of words. The model keeps the path string as the values. So a path made only of spaces would read back as empty in Tk and be taken for a group, which the model does not capture. An empty path is treated as a group in both.
- Launcher.InitialCatalog: the emoji are the characters the source file holds. These are a mis-decoded rendering (for example `\U{F8FF}\U{FC}\U{E5}\U{FC}` for the star emoji), kept as written.

## Findings

| source | as written | input that shows it | evidently intended | confidence | as-written member | corrected member |
|---|---|---|---|---|---|---|
| exe_file_storage.py:419-422 | the nested `add_group` inserts each sub-group under `group_node_ids[group['name']]`, re-read after the earlier sub-groups' subtrees may have overwritten that entry with a descendant of the same name | from the initial catalog, "Add Group" with the top-level "Games" selected, answered "Games" and then "Z"; the groups become `[Games[Action, Adventure, Strategy, Games, Z], Mod Lists]`, and `Z` is drawn inside the inner `Games` | each sub-group is drawn under the item just created for its own parent | high, not executed | Launcher.SourceMisplacesSubGroup | TreeView.PlaceGroup |

`TreeView.SourcePass` is the as-written loop, and `Launcher.SourceMisplacesSubGroup`
unrolls it on the input above. `Launcher.NestedGamesAppends` and
`Launcher.NestedGamesReachable` show that this input arises from the initial catalog
through two accepted "Add Group" calls. `TreeView.PlaceGroup` keeps the new item's
location in a local variable. It is proved to build the intended skeleton, and
`ExeLauncher.UpdateTreeview` uses it. `TreeView.SourceSkeletonAgrees` bounds the
discrepancy: the source's pass draws the intended skeleton on every forest in which
no group has a proper descendant carrying its own name.
