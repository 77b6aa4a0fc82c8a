/**
 * The launcher window's state: the catalog `exe_list` and the tree view that shows
 * it, with the three operations that change them: "Add Group", "Sort List" and
 * the refresh of the tree view that both end with.
 *
 * The answers of the dialogs and the tree view's selection are parameters. The
 * object invariant `Valid` is that the tree view shows the catalog.
 */
module Launcher {
  import opened Catalog
  import opened Sorting
  import opened TreeView

  /** How an "Add Group" request ends: the group was added, or one of the
      warnings the source shows, or silently nothing. */
  datatype AddGroupOutcome =
    | Added         // appended, and the view refreshed
    | NoName        // the name dialog was cancelled or answered with nothing
    | ReservedName  // "Invalid Name": the name is "Root"
    | Duplicate     // "Duplicate": a group of that name is already in the target list
    | OnExecutable  // "Invalid Selection": the selected item is an executable
    | NoParent      // the selected item's label names no group

  /** The catalog `exe_list` is created with. The emoji are kept as the characters
      the source file holds (a mis-decoded rendering of the intended emoji). */
  function InitialCatalog(): Catalog
  {
    var star := "\U{F8FF}\U{FC}\U{E5}\U{FC}";
    Catalog(
      [ Executable("Test", "C:/Test/Test.exe", star, "Root"),
        Executable("Kind Words", "C:/Games/Kind Words.exe", star, "Games"),
        Executable("Rocket League", "C:/Games/Rocket League.exe", "\U{F8FF}\U{FC}\U{F6}\U{C4}", "Action"),
        Executable("Doom Eternal", "C:/Games/Doom Eternal.exe", "\U{F8FF}\U{FC}\U{EE}\U{B4}", "Action"),
        Executable("Stardew Valley", "C:/Games/Stardew Valley.exe", "\U{F8FF}\U{FC}\U{E5}\U{E6}", "Strategy"),
        Executable("Civilization VI", "C:/Games/Civilization VI.exe", "\U{F8FF}\U{FC}\U{E5}\U{E7}", "Strategy"),
        Executable("Skyrim Mod Organizer", "C:/Mods/Skyrim Mod Organizer.exe",
                   "\U{F8FF}\U{FC}\U{F3}\U{222B}\U{D4}\U{220F}\U{E8}", "Mod Lists"),
        Executable("Fallout 4 Mod Manager", "C:/Mods/Fallout 4 Mod Manager.exe", "\U{F8FF}\U{FC}\U{EE}\U{DF}", "Mod Lists")
      ],
      [ Group("Games", [Group("Action", []), Group("Adventure", []), Group("Strategy", [])]),
        Group("Mod Lists", [])
      ])
  }

  /** Uniqueness is checked among siblings only: in the initial catalog a group
      "Action" exists under "Games", yet "Mod Lists" has no child of that name, so an
      "Action" added under it is accepted and the forest then holds two of them. */
  lemma SiblingOnlyUniqueness()
    ensures var gs := InitialCatalog().groups;
            Named(gs, "Action") &&
            FindGroupByName(gs, "Mod Lists") == Some([1]) &&
            !HasChildNamed(gs, [1], "Action") &&
            var gs' := AppendGroup(gs, [1], "Action");
            ValidPath(gs', [0, 0]) && At(gs', [0, 0]).name == "Action" &&
            ValidPath(gs', [1, 0]) && At(gs', [1, 0]).name == "Action"
  {
    var gs := InitialCatalog().groups;
    assert ValidPath(gs, [0, 0]) && At(gs, [0, 0]).name == "Action";
    assert FindFrom(gs, "Mod Lists", 1) == Some([1]);
    assert FindFrom(gs[0].subGroups, "Mod Lists", 0) == None;
    AppendGroupSpec(gs, [1], "Action");
  }

  // ---------------------------------------------------------------------------
  // A reachable catalog on which the source's refresh misplaces a group

  /** The groups after two "Add Group" calls on the initial catalog, each with the
      top-level "Games" selected: first "Games", then "Z". */
  function NestedGames(): seq<Group>
  {
    [ Group("Games", [Group("Action", []), Group("Adventure", []), Group("Strategy", []),
                      Group("Games", []), Group("Z", [])]),
      Group("Mod Lists", [])
    ]
  }

  /** The item at `[0]` of a catalog's view is the group item of its first top-level
      group: what selecting it gives `AddGroup`. */
  lemma FirstGroupItem(c: Catalog)
    requires |c.groups| > 0
    ensures IsNode(Layout(c), [0])
    ensures ItemAt(Layout(c), [0]).text == c.groups[0].name && ItemAt(Layout(c), [0]).values == ""
  {
    LayoutAt(c, [0]);
  }

  /** The two additions that build `NestedGames` from the initial catalog: the label
      "Games" resolves to the top-level group both times, neither name is taken
      among its children, and the appends give `NestedGames`. */
  lemma NestedGamesAppends()
    ensures var gs0 := InitialCatalog().groups;
            var gs1 := AppendGroup(gs0, [0], "Games");
            FindGroupByName(gs0, "Games") == Some([0]) && !HasChildNamed(gs0, [0], "Games") &&
            FindGroupByName(gs1, "Games") == Some([0]) && !HasChildNamed(gs1, [0], "Z") &&
            AppendGroup(gs1, [0], "Z") == NestedGames()
  {
    var gs0 := InitialCatalog().groups;
    var subs := gs0[0].subGroups;
    var gs1 := AppendGroup(gs0, [0], "Games");
    assert [0][1..] == [];
    assert gs1 == [Group("Games", subs + [Group("Games", [])]), Group("Mod Lists", [])];
    assert Children(gs0, [0]) == subs;
    assert Children(gs1, [0]) == subs + [Group("Games", [])];
    assert subs == [Group("Action", []), Group("Adventure", []), Group("Strategy", [])];
    assert subs + [Group("Games", []), Group("Z", [])] == NestedGames()[0].subGroups;
    assert AppendGroup(gs1[0].subGroups, [], "Z") == subs + [Group("Games", []), Group("Z", [])];
    assert AppendGroup(gs1, [0], "Z") ==
             [Group("Games", subs + [Group("Games", []), Group("Z", [])]), Group("Mod Lists", [])];
  }

  /** `NestedGames` is reachable: before each addition the item at `[0]` is the group
      item labelled "Games", which a selection hands to `AddGroup`. */
  lemma NestedGamesReachable()
    ensures var c0 := InitialCatalog();
            var c1 := Catalog(c0.executables, AppendGroup(c0.groups, [0], "Games"));
            IsNode(Layout(c0), [0]) && ItemAt(Layout(c0), [0]).text == "Games" && ItemAt(Layout(c0), [0]).values == "" &&
            IsNode(Layout(c1), [0]) && ItemAt(Layout(c1), [0]).text == "Games" && ItemAt(Layout(c1), [0]).values == "" &&
            AppendGroup(c1.groups, [0], "Z") == NestedGames()
  {
    var c0 := InitialCatalog();
    NestedGamesAppends();
    assert [0][1..] == [];
    var c1 := Catalog(c0.executables, AppendGroup(c0.groups, [0], "Games"));
    assert c1.groups[0].name == "Games";
    FirstGroupItem(c0);
    FirstGroupItem(c1);
  }

  /** A view holding one item: inserting under it appends to its children. */
  lemma InsertUnderOnly(n: string, cs: seq<Item>, x: Item)
    ensures Insert([Item(n, "", cs)], [0], x) == [Item(n, "", cs + [x])]
  {
    assert [0][1..] == [];
  }

  /** The sub-groups of the top-level "Games" in `NestedGames`. */
  function GamesSubs(): seq<Group>
  {
    NestedGames()[0].subGroups
  }

  /** The items of the first `k` sub-groups of the top-level "Games", as the source
      inserts them while none of them has been given a child. */
  function GamesLeaves(k: nat): seq<Item>
    requires k <= 5
  {
    seq(k, i requires 0 <= i < k => Item(GamesSubs()[i].name, "", []))
  }

  /** `group_node_ids` after `k` sub-groups of the top-level "Games" are inserted. */
  function GamesIds(k: nat): (r: map<string, Path>)
    requires k <= 5
    ensures "Games" in r
  {
    if k == 0 then map["Games" := [0]]
    else if k < 5 then GamesIds(k - 1)[GamesSubs()[k - 1].name := [0, k - 1]]
    else GamesIds(4)["Z" := [0, 3, 0]]
  }

  /** The view and `group_node_ids` of the source's refresh of `NestedGames` after
      `k` sub-groups of the top-level "Games" have been inserted. */
  function GamesPass(k: nat): Pass
    requires k <= 5
  {
    if k < 5 then Pass([Item("Games", "", GamesLeaves(k))], GamesIds(k))
    else
      var cs := GamesLeaves(4);
      Pass([Item("Games", "", cs[3 := Item("Games", "", [Item("Z", "", [])])])], GamesIds(5))
  }

  /** One pass of the source's loop over the sub-groups of the top-level "Games". */
  lemma GamesPassStep(k: nat)
    requires k < 5
    ensures "Games" in GamesPass(k).ids
    ensures SourcePass(GamesPass(k), GamesSubs(), Some("Games"), k) ==
              SourcePass(GamesPass(k + 1), GamesSubs(), Some("Games"), k + 1)
  {
    GamesEntry(k);
    SourceLeafStep(GamesPass(k), GamesSubs(), Some("Games"), k);
    if k < 4 {
      GamesLeafInsert(k);
    } else {
      GamesZInsert();
    }
  }

  /** Steps 0 to 3: the leaf is appended to the children of the outer "Games". */
  lemma GamesLeafInsert(k: nat)
    requires k < 4
    ensures var st := GamesPass(k);
            var x := Item(GamesSubs()[k].name, "", []);
            Insert(st.view, [0], x) == GamesPass(k + 1).view &&
            [0] + [|ChildrenAt(st.view, [0])|] == [0, k]
  {
    var st := GamesPass(k);
    var cs := GamesLeaves(k);
    assert ChildrenAt(st.view, [0]) == cs by {
      assert [0][1..] == [];
    }
    var x := Item(GamesSubs()[k].name, "", []);
    InsertUnderOnly("Games", cs, x);
    assert cs + [x] == GamesLeaves(k + 1);
  }

  /** Step 4: "Z" goes under the inner "Games", which `group_node_ids` now names. */
  lemma GamesZInsert()
    ensures var st := GamesPass(4);
            var z := Item("Z", "", []);
            Insert(st.view, [0, 3], z) == GamesPass(5).view &&
            [0, 3] + [|ChildrenAt(st.view, [0, 3])|] == [0, 3, 0]
  {
    var st := GamesPass(4);
    var cs := GamesLeaves(4);
    var z := Item("Z", "", []);
    assert [0, 3][1..] == [3] && [3][1..] == [];
    assert cs[3] == Item("Games", "", []);
    assert ChildrenAt(st.view, [0, 3]) == ChildrenAt(cs, [3]) == ChildrenAt([], []) == [];
    assert Insert([], [], z) == [z];
    assert Insert(cs, [3], z) == cs[3 := Item("Games", "", [z])];
    assert [0, 3] + [0] == [0, 3, 0];
  }

  /** The entry for "Games" names the outer "Games" until the inner one is inserted. */
  lemma GamesEntry(k: nat)
    requires k <= 5
    ensures "Games" in GamesIds(k)
    ensures GamesIds(k)["Games"] == if k < 4 then [0] else [0, 3]
  {
    if k > 0 {
      GamesEntry(k - 1);
    }
  }

  /** The source's first top-level step: the outer "Games" goes to `[0]`, and its
      sub-groups are inserted next. */
  lemma SourceTopStep()
    ensures SourcePass(Pass([], map[]), NestedGames(), None, 0) ==
              SourcePass(SourcePass(GamesPass(0), GamesSubs(), Some("Games"), 0), NestedGames(), None, 1)
  {
    var gs := NestedGames();
    SourcePassUnfold(Pass([], map[]), gs, None, 0);
    GamesStart();
  }

  /** The state once the outer "Games" is inserted at the top level. */
  lemma GamesStart()
    ensures Pass(Insert([], [], Item("Games", "", [])), map[]["Games" := [] + [|ChildrenAt([], [])|]]) == GamesPass(0)
  {
    assert Insert([], [], Item("Games", "", [])) == [Item("Games", "", [])];
    assert [] + [|ChildrenAt([], [])|] == [0];
    assert GamesLeaves(0) == [];
  }

  /** The source's last top-level step: "Mod Lists" goes to `[1]`. */
  lemma SourceLastStep()
    ensures SourcePass(GamesPass(5), NestedGames(), None, 1).view ==
              GamesPass(5).view + [Item("Mod Lists", "", [])]
  {
    var gs := NestedGames();
    var last := GamesPass(5);
    SourceLeafStep(last, gs, None, 1);
    assert [] + [|ChildrenAt(last.view, [])|] == [1];
    var done := Pass(last.view + [Item("Mod Lists", "", [])], last.ids["Mod Lists" := [1]]);
    assert SourcePass(done, gs, None, 2) == done;
  }

  /** The source's refresh draws `NestedGames` with "Z" inside the inner "Games": the
      inner "Games" took over the entry `group_node_ids["Games"]` before "Z" was
      inserted. The intended picture has "Z" beside the inner "Games". */
  lemma SourceMisplacesSubGroup()
    ensures var a := Item("Action", "", []);
            var ad := Item("Adventure", "", []);
            var st := Item("Strategy", "", []);
            var z := Item("Z", "", []);
            var m := Item("Mod Lists", "", []);
            SourceSkeleton(NestedGames()) == [Item("Games", "", [a, ad, st, Item("Games", "", [z])]), m] &&
            Skeleton(NestedGames()) == [Item("Games", "", [a, ad, st, Item("Games", "", []), z]), m] &&
            SourceSkeleton(NestedGames()) != Skeleton(NestedGames())
  {
    SourceSkeletonOfNested();
    GamesPassFinal();
    NestedSkeleton();
  }

  /** The rest of the pass over the sub-groups of "Games" from step `k` on. */
  lemma GamesPassRun(k: nat)
    requires k <= 5
    decreases 5 - k
    ensures SourcePass(GamesPass(k), GamesSubs(), Some("Games"), k) == GamesPass(5)
  {
    if k < 5 {
      GamesPassStep(k);
      GamesPassRun(k + 1);
    }
  }

  /** The whole trace: the pass over the sub-groups of "Games", then "Mod Lists". */
  lemma SourceSkeletonOfNested()
    ensures SourceSkeleton(NestedGames()) == GamesPass(5).view + [Item("Mod Lists", "", [])]
  {
    SourceTopStep();
    GamesPassRun(0);
    SourceLastStep();
  }

  lemma GamesPassFinal()
    ensures GamesPass(5).view ==
              [Item("Games", "", [Item("Action", "", []), Item("Adventure", "", []), Item("Strategy", "", []),
                                  Item("Games", "", [Item("Z", "", [])])])]
  {
    var cs := GamesLeaves(4);
    assert cs[0] == Item("Action", "", []) && cs[1] == Item("Adventure", "", []);
    assert cs[2] == Item("Strategy", "", []) && cs[3] == Item("Games", "", []);
    assert cs[3 := Item("Games", "", [Item("Z", "", [])])] ==
             [Item("Action", "", []), Item("Adventure", "", []), Item("Strategy", "", []),
              Item("Games", "", [Item("Z", "", [])])];
  }

  lemma NestedSkeleton()
    ensures Skeleton(NestedGames()) ==
              [Item("Games", "", [Item("Action", "", []), Item("Adventure", "", []), Item("Strategy", "", []),
                                  Item("Games", "", []), Item("Z", "", [])]),
               Item("Mod Lists", "", [])]
  {
    var subs := GamesSubs();
    var leaf := Skeleton(subs);
    assert Skeleton([]) == [];
    assert |leaf| == 5;
    assert leaf[0] == Item("Action", "", []) && leaf[1] == Item("Adventure", "", []);
    assert leaf[2] == Item("Strategy", "", []) && leaf[3] == Item("Games", "", []) && leaf[4] == Item("Z", "", []);
    assert leaf == [Item("Action", "", []), Item("Adventure", "", []), Item("Strategy", "", []),
                    Item("Games", "", []), Item("Z", "", [])];
    assert Skeleton(NestedGames())[0] == Item("Games", "", leaf);
    assert Skeleton(NestedGames())[1] == Item("Mod Lists", "", []);
  }

  class ExeLauncher {
    /** `exe_list`. */
    var catalog: Catalog
    /** The items of the tree view widget. */
    var view: seq<Item>

    /** The tree view shows the catalog. */
    ghost predicate Valid()
      reads this
    {
      view == Layout(catalog)
    }

    /** `__init__`: the sample catalog (loading from disk does nothing), then the
        first refresh of the tree view. */
    constructor ()
      ensures catalog == InitialCatalog() && Valid()
    {
      catalog := InitialCatalog();
      view := [];
      new;
      UpdateTreeview();
    }

    /** `update_treeview`: empty the view, insert every group in pre-order, then each
        executable under the item `group_node_ids` gives for its group, then the
        executables of "Root" at the top level. */
    method UpdateTreeview()
      modifies this
      ensures catalog == old(catalog) && Valid()
    {
      var skeleton, ids := InsertGroups(catalog.groups);
      var attached := AttachExecutables(catalog.groups, catalog.executables, skeleton, ids);
      view := AppendRootExecutables(attached, catalog.executables);
    }

    /** `add_group`, given the answer of the name dialog (`None` when it is cancelled)
        and the tree view's selection (`selection[0]` is the selected item). */
    method AddGroup(answer: Option<string>, selection: seq<Path>) returns (outcome: AddGroupOutcome)
      requires Valid()
      requires forall s :: s in selection ==> IsNode(view, s)
      modifies this
      ensures Valid()
      ensures outcome != Added ==> catalog == old(catalog) && view == old(view)
      ensures catalog.executables == old(catalog.executables)
      ensures outcome == NoName <==> answer.None? || answer.value == ""
      ensures answer == Some(RootName) ==> outcome == ReservedName
      ensures answer.Some? && answer.value != "" && answer.value != RootName && selection == [] ==>
                (outcome == Added <==> !HasChildNamed(old(catalog.groups), [], answer.value)) &&
                (outcome == Added ==> catalog.groups == old(catalog.groups) + [Group(answer.value, [])]) &&
                (outcome != Added ==> outcome == Duplicate)
      ensures answer.Some? && answer.value != "" && answer.value != RootName && selection != [] ==>
                var item := ItemAt(old(view), selection[0]);
                (item.values != "" ==> outcome == OnExecutable) &&
                (item.values == "" && FindGroupByName(old(catalog.groups), item.text).None? ==>
                   outcome == NoParent) &&
                (item.values == "" && FindGroupByName(old(catalog.groups), item.text).Some? ==>
                   var p := FindGroupByName(old(catalog.groups), item.text).value;
                   (outcome == Added <==> !HasChildNamed(old(catalog.groups), p, answer.value)) &&
                   (outcome == Added ==> catalog.groups == AppendGroup(old(catalog.groups), p, answer.value)) &&
                   (outcome != Added ==> outcome == Duplicate))
    {
      if answer.None? || answer.value == "" {
        return NoName;
      }
      var name := answer.value;
      if name == RootName {
        return ReservedName;
      }
      if |selection| == 0 {
        if HasChildNamed(catalog.groups, [], name) {
          outcome := Duplicate;
        } else {
          catalog := Catalog(catalog.executables, catalog.groups + [Group(name, [])]);
          UpdateTreeview();
          outcome := Added;
        }
      } else {
        var item := ItemAt(view, selection[0]);
        if item.values != "" {
          outcome := OnExecutable;
        } else {
          var parent := FindGroupByName(catalog.groups, item.text);
          if parent.None? {
            outcome := NoParent;
          } else if HasChildNamed(catalog.groups, parent.value, name) {
            outcome := Duplicate;
          } else {
            catalog := Catalog(catalog.executables, AppendGroup(catalog.groups, parent.value, name));
            UpdateTreeview();
            outcome := Added;
          }
        }
      }
    }

    /** `sort_list`: both lists of the catalog sorted by lower-cased name, then the
        tree view refreshed. */
    method SortList()
      modifies this
      ensures catalog == SortCatalog(old(catalog)) && Valid()
    {
      catalog := Catalog(SortByKey(catalog.executables, ExeKey), SortByKey(catalog.groups, GroupKey));
      UpdateTreeview();
    }
  }
}
