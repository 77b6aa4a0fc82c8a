/**
 * What "update_treeview" puts on the screen.
 *
 * The Tk tree view is modelled as a forest of items. An item is addressed like a
 * group, by its index path; the empty path is the invisible root `''`. Tk's item
 * identifiers are opaque, but the view is only ever appended to while it is
 * rebuilt, so the index path of an item never changes after its insertion and can
 * stand for its identifier (`group_node_ids` maps a group name to such a path).
 *
 * `Layout` is the intended picture, stated declaratively; `PlaceGroup` is the
 * recursive group-insertion step of the refresh, and `SourcePass` that step as the
 * source writes it, which can attach a sub-group to the wrong item.
 */
module TreeView {
  import opened Catalog

  /** One tree-view item: its label, its `values` (an executable's path; empty
      for a group) and its children in display order. */
  datatype Item = Item(text: string, values: string, children: seq<Item>)

  // ---------------------------------------------------------------------------
  // Addressing items

  /** `p` addresses an item of the view. */
  predicate IsNode(view: seq<Item>, p: Path)
  {
    |p| > 0 && p[0] < |view| && (|p| == 1 || IsNode(view[p[0]].children, p[1..]))
  }

  function ItemAt(view: seq<Item>, p: Path): Item
    requires IsNode(view, p)
  {
    if |p| == 1 then view[p[0]] else ItemAt(view[p[0]].children, p[1..])
  }

  /** The children of the item at `p` (of the root `''` when `p` is empty). */
  function ChildrenAt(view: seq<Item>, p: Path): seq<Item>
  {
    if p == [] then view
    else if p[0] < |view| then ChildrenAt(view[p[0]].children, p[1..])
    else []
  }

  /** `treeview.insert(parent, 'end', ...)`: `x` becomes the last child of `parent`.
      Every parent passed here is an item already inserted; for any other path the
      view is returned as it was. */
  function Insert(view: seq<Item>, parent: Path, x: Item): seq<Item>
  {
    if parent == [] then view + [x]
    else if parent[0] < |view| then
      var it := view[parent[0]];
      view[parent[0] := Item(it.text, it.values, Insert(it.children, parent[1..], x))]
    else view
  }

  /** The items `xs` appended, in order, to the children of the item at `p`:
      several `Insert`s under the same parent at once. */
  function Graft(view: seq<Item>, p: Path, xs: seq<Item>): seq<Item>
  {
    if p == [] then view + xs
    else if p[0] < |view| then
      var it := view[p[0]];
      view[p[0] := Item(it.text, it.values, Graft(it.children, p[1..], xs))]
    else view
  }

  lemma {:induction false} GraftNil(view: seq<Item>, p: Path)
    ensures Graft(view, p, []) == view
  {
    if p != [] && p[0] < |view| {
      GraftNil(view[p[0]].children, p[1..]);
    }
  }

  lemma {:induction false} InsertIsGraft(view: seq<Item>, p: Path, x: Item)
    ensures Insert(view, p, x) == Graft(view, p, [x])
  {
    if p != [] && p[0] < |view| {
      InsertIsGraft(view[p[0]].children, p[1..], x);
    }
  }

  lemma {:induction false} GraftGraft(view: seq<Item>, p: Path, xs: seq<Item>, ys: seq<Item>)
    ensures Graft(Graft(view, p, xs), p, ys) == Graft(view, p, xs + ys)
  {
    if p != [] && p[0] < |view| {
      GraftGraft(view[p[0]].children, p[1..], xs, ys);
    }
  }

  /** Grafting anywhere keeps every item. */
  lemma {:induction false} GraftKeepsNode(view: seq<Item>, p: Path, xs: seq<Item>, q: Path)
    requires IsNode(view, q)
    ensures IsNode(Graft(view, p, xs), q)
  {
    if p != [] && p[0] < |view| && |q| > 1 && q[0] == p[0] {
      GraftKeepsNode(view[p[0]].children, p[1..], xs, q[1..]);
    }
  }

  /** The item grafted as the single new child of `p` is an item of the result. */
  lemma {:induction false} GraftNewNode(view: seq<Item>, p: Path, x: Item)
    requires p == [] || IsNode(view, p)
    ensures IsNode(Graft(view, p, [x]), p + [|ChildrenAt(view, p)|])
  {
    var q := p + [|ChildrenAt(view, p)|];
    if p != [] {
      assert q[0] == p[0] && q[1..] == p[1..] + [|ChildrenAt(view[p[0]].children, p[1..])|];
      if |p| > 1 {
        GraftNewNode(view[p[0]].children, p[1..], x);
      } else {
        assert p[1..] == [];
      }
    }
  }

  /** Grafting under a child just grafted onto `p` extends that child's children. */
  lemma {:induction false} GraftUnderNew(view: seq<Item>, p: Path, n: string, ys: seq<Item>)
    requires p == [] || IsNode(view, p)
    ensures Graft(Graft(view, p, [Item(n, "", [])]), p + [|ChildrenAt(view, p)|], ys) ==
              Graft(view, p, [Item(n, "", ys)])
  {
    var q := p + [|ChildrenAt(view, p)|];
    if p == [] {
      assert q == [|view|] && q[1..] == [];
      var v1 := view + [Item(n, "", [])];
      assert Graft(v1, q, ys) == v1[|view| := Item(n, "", [] + ys)];
      assert [] + ys == ys;
    } else {
      assert q[0] == p[0] && q[1..] == p[1..] + [|ChildrenAt(view[p[0]].children, p[1..])|];
      if |p| == 1 {
        assert p[1..] == [];
      }
      GraftUnderNew(view[p[0]].children, p[1..], n, ys);
    }
  }

  /** The item shown for an executable: label `emoji + " " + name`, values its path. */
  function ExeItem(e: Executable): Item
  {
    Item(e.emoji + " " + e.name, e.path, [])
  }

  function ExeItems(es: seq<Executable>): seq<Item>
  {
    seq(|es|, i requires 0 <= i < |es| => ExeItem(es[i]))
  }

  // ---------------------------------------------------------------------------
  // The intended picture

  /** `e` is inserted under the item `own` records at path `p`. */
  predicate AttachedAt(e: Executable, own: map<string, Path>, p: Path)
  {
    e.group != RootName && e.group in own && own[e.group] == p
  }

  /** The executables shown under the group item at `p`, in list order. */
  function Owned(exes: seq<Executable>, own: map<string, Path>, p: Path): (r: seq<Executable>)
    ensures forall x :: x in r <==> x in exes && AttachedAt(x, own, p)
  {
    if exes == [] then []
    else
      var last := |exes| - 1;
      assert exes == exes[..last] + [exes[last]];
      Owned(exes[..last], own, p) + (if AttachedAt(exes[last], own, p) then [exes[last]] else [])
  }

  /** The executables of the reserved group, in list order. */
  function RootExes(exes: seq<Executable>): (r: seq<Executable>)
    ensures forall x :: x in r <==> x in exes && x.group == RootName
  {
    if exes == [] then []
    else
      var last := |exes| - 1;
      assert exes == exes[..last] + [exes[last]];
      RootExes(exes[..last]) + (if exes[last].group == RootName then [exes[last]] else [])
  }

  /** The items of the groups `gs` placed at `b + [i]`: each group's item holds its
      sub-groups' items and then the executables attached to it. */
  function Decorate(gs: seq<Group>, b: Path, exes: seq<Executable>, own: map<string, Path>): seq<Item>
  {
    seq(|gs|, i requires 0 <= i < |gs| =>
      Item(gs[i].name, "", Decorate(gs[i].subGroups, b + [i], exes, own) + ExeItems(Owned(exes, own, b + [i]))))
  }

  /** The group items alone, before any executable is attached. */
  function Skeleton(gs: seq<Group>): seq<Item>
  {
    seq(|gs|, i requires 0 <= i < |gs| => Item(gs[i].name, "", Skeleton(gs[i].subGroups)))
  }

  /** The filling of `group_node_ids` by a pre-order walk of `gs` placed at `b`:
      each visit overwrites the entry for the group's name. */
  function Visit(ids: map<string, Path>, gs: seq<Group>, b: Path): map<string, Path>
    decreases gs
  {
    if gs == [] then ids
    else
      var last := |gs| - 1;
      Visit(Visit(ids, gs[..last], b)[gs[last].name := b + [last]], gs[last].subGroups, b + [last])
  }

  /** `group_node_ids` once every group has been inserted. */
  function Owners(gs: seq<Group>): map<string, Path>
  {
    Visit(map[], gs, [])
  }

  /** The picture `update_treeview` is meant to draw: the top-level groups in list
      order, then the executables of the reserved group in list order; under each
      group its sub-groups, then the executables naming it. */
  function Layout(c: Catalog): seq<Item>
  {
    Decorate(c.groups, [], c.executables, Owners(c.groups)) + ExeItems(RootExes(c.executables))
  }

  // ---------------------------------------------------------------------------
  // Facts about the walk and the picture

  /** After the walk, a name maps to the last group of that name in pre-order; a name
      no group carries keeps its earlier entry. */
  lemma {:induction false} VisitSpec(ids: map<string, Path>, gs: seq<Group>, b: Path, n: string)
    decreases gs
    ensures n in Visit(ids, gs, b) <==> n in ids || LastNamed(gs, n).Some?
    ensures n in Visit(ids, gs, b) ==>
              Visit(ids, gs, b)[n] == if LastNamed(gs, n).Some? then b + LastNamed(gs, n).value else ids[n]
  {
    if gs != [] {
      var last := |gs| - 1;
      var prefix := gs[..last];
      var subs := gs[last].subGroups;
      var mid := Visit(ids, prefix, b)[gs[last].name := b + [last]];
      VisitSpec(ids, prefix, b, n);
      VisitSpec(mid, subs, b + [last], n);
      assert Visit(ids, gs, b) == Visit(mid, subs, b + [last]);
      LastNamedSnoc(gs, n);
      VisitCombine(ids, Visit(ids, prefix, b), Visit(ids, gs, b), n, gs[last].name, b, last,
                   LastNamed(prefix, n), LastNamed(subs, n), LastNamed(gs, n));
    }
  }

  /** The step of `VisitSpec` for the last group, over the entries alone: `vp` is the
      walk of the groups before it, `v` the walk that continues below it, and `lp`,
      `ls`, `lg` the last matches among the groups before, below and in all. */
  lemma VisitCombine(ids: map<string, Path>, vp: map<string, Path>, v: map<string, Path>, n: string,
                     name: string, b: Path, last: nat, lp: Option<Path>, ls: Option<Path>, lg: Option<Path>)
    requires n in vp <==> n in ids || lp.Some?
    requires n in vp ==> vp[n] == if lp.Some? then b + lp.value else ids[n]
    requires var mid := vp[name := b + [last]];
             (n in v <==> n in mid || ls.Some?) &&
             (n in v ==> v[n] == if ls.Some? then b + [last] + ls.value else mid[n])
    requires lg == if ls.Some? then Some([last] + ls.value) else if name == n then Some([last]) else lp
    ensures n in v <==> n in ids || lg.Some?
    ensures n in v ==> v[n] == if lg.Some? then b + lg.value else ids[n]
  {
    if ls.Some? {
      assert b + [last] + ls.value == b + ([last] + ls.value);
    }
  }

  /** `LastNamed` of a forest in terms of its last group and the groups before it. */
  lemma LastNamedSnoc(gs: seq<Group>, n: string)
    requires gs != []
    ensures var last := |gs| - 1;
            LastNamed(gs, n) ==
              if LastNamed(gs[last].subGroups, n).Some? then Some([last] + LastNamed(gs[last].subGroups, n).value)
              else if gs[last].name == n then Some([last])
              else LastNamed(gs[..last], n)
  {
  }

  /** `group_node_ids[n]` is the location of the last group called `n` in pre-order,
      and there is an entry exactly for the names some group carries. */
  lemma OwnersSpec(gs: seq<Group>, n: string)
    ensures n in Owners(gs) <==> Named(gs, n)
    ensures n in Owners(gs) ==>
              ValidPath(gs, Owners(gs)[n]) && At(gs, Owners(gs)[n]).name == n &&
              forall q :: ValidPath(gs, q) && LexLess(Owners(gs)[n], q) ==> At(gs, q).name != n
  {
    VisitSpec(map[], gs, [], n);
    LastNamedIsLast(gs, n);
    if n in Owners(gs) {
      assert [] + LastNamed(gs, n).value == LastNamed(gs, n).value;
    }
  }

  /** Where an executable of the catalog is shown: with the reserved group at the top
      level, otherwise under the last group in pre-order carrying its group name,
      and nowhere when no group carries that name. */
  lemma ExecutablePlacement(c: Catalog, e: Executable)
    requires e in c.executables
    ensures e.group == RootName ==>
              e in RootExes(c.executables) && forall p :: e !in Owned(c.executables, Owners(c.groups), p)
    ensures e.group != RootName && Named(c.groups, e.group) ==>
              e !in RootExes(c.executables) &&
              exists p :: ValidPath(c.groups, p) && At(c.groups, p).name == e.group &&
                          e in Owned(c.executables, Owners(c.groups), p) &&
                          forall q :: ValidPath(c.groups, q) && LexLess(p, q) ==> At(c.groups, q).name != e.group
    ensures e.group != RootName && !Named(c.groups, e.group) ==>
              e !in RootExes(c.executables) && forall p :: e !in Owned(c.executables, Owners(c.groups), p)
  {
    OwnersSpec(c.groups, e.group);
    if e.group != RootName && Named(c.groups, e.group) {
      var p := Owners(c.groups)[e.group];
      assert e in Owned(c.executables, Owners(c.groups), p);
    }
  }

  /** Inserting into a list of items whose first part holds the parent. */
  lemma {:induction false} InsertInFront(a: seq<Item>, c: seq<Item>, p: Path, x: Item)
    requires p != [] && p[0] < |a|
    ensures Insert(a + c, p, x) == Insert(a, p, x) + c
  {
    assert (a + c)[p[0]] == a[p[0]];
  }

  /** The item just inserted under `parent` is a parent whose later insertions
      extend its own children. */
  lemma {:induction false} InsertUnderNew(view: seq<Item>, parent: Path, t: string, cs: seq<Item>, x: Item)
    requires parent == [] || IsNode(view, parent)
    ensures var node := parent + [|ChildrenAt(view, parent)|];
            var v1 := Insert(view, parent, Item(t, "", cs));
            IsNode(v1, node) && ChildrenAt(v1, node) == cs &&
            Insert(v1, node, x) == Insert(view, parent, Item(t, "", cs + [x]))
  {
    var node := parent + [|ChildrenAt(view, parent)|];
    var v1 := Insert(view, parent, Item(t, "", cs));
    if parent == [] {
      assert node == [|view|];
      assert node[1..] == [];
    } else {
      var i := parent[0];
      var it := view[i];
      var rest := parent[1..];
      assert node == [i] + (rest + [|ChildrenAt(it.children, rest)|]);
      assert node[1..] == rest + [|ChildrenAt(it.children, rest)|];
      InsertUnderNew(it.children, rest, t, cs, x);
      assert ChildrenAt(view, parent) == ChildrenAt(it.children, rest);
    }
  }

  lemma {:induction false} SkeletonSnoc(gs: seq<Group>, j: nat)
    requires j < |gs|
    ensures Skeleton(gs[..j + 1]) == Skeleton(gs[..j]) + [Item(gs[j].name, "", Skeleton(gs[j].subGroups))]
  {
    assert gs[..j + 1][..j] == gs[..j];
  }

  lemma {:induction false} VisitSnoc(ids: map<string, Path>, gs: seq<Group>, b: Path, j: nat)
    requires j < |gs|
    ensures Visit(ids, gs[..j + 1], b) ==
            Visit(Visit(ids, gs[..j], b)[gs[j].name := b + [j]], gs[j].subGroups, b + [j])
  {
    assert gs[..j + 1][..j] == gs[..j];
  }

  /** With no executables, the picture is the bare group items. */
  lemma {:induction false} DecorateNoExes(gs: seq<Group>, b: Path, own: map<string, Path>)
    ensures Decorate(gs, b, [], own) == Skeleton(gs)
  {
    forall i | 0 <= i < |gs|
      ensures Decorate(gs, b, [], own)[i] == Skeleton(gs)[i]
    {
      DecorateNoExes(gs[i].subGroups, b + [i], own);
    }
  }

  /** `e` is attached strictly below the item at `b`. */
  predicate AttachedBelow(e: Executable, own: map<string, Path>, b: Path)
  {
    e.group != RootName && e.group in own && |own[e.group]| > |b| && own[e.group][..|b|] == b
  }

  lemma {:induction false} OwnedSnoc(exes: seq<Executable>, own: map<string, Path>, p: Path, e: Executable)
    ensures Owned(exes + [e], own, p) == Owned(exes, own, p) + (if AttachedAt(e, own, p) then [e] else [])
  {
    assert (exes + [e])[..|exes|] == exes;
  }

  lemma {:induction false} RootExesSnoc(exes: seq<Executable>, e: Executable)
    ensures RootExes(exes + [e]) == RootExes(exes) + (if e.group == RootName then [e] else [])
  {
    assert (exes + [e])[..|exes|] == exes;
  }

  /** An executable attached outside the items placed below `b` changes none of them. */
  lemma {:induction false} DecorateIgnores(gs: seq<Group>, b: Path, exes: seq<Executable>, own: map<string, Path>, e: Executable)
    requires !AttachedBelow(e, own, b)
    decreases gs, 1
    ensures Decorate(gs, b, exes + [e], own) == Decorate(gs, b, exes, own)
  {
    forall i | 0 <= i < |gs|
      ensures Decorate(gs, b, exes + [e], own)[i] == Decorate(gs, b, exes, own)[i]
    {
      DecorateIgnoresAt(gs, b, exes, own, e, i);
    }
  }

  /** `DecorateIgnores` for the item of the `i`-th group. */
  lemma {:induction false} DecorateIgnoresAt(gs: seq<Group>, b: Path, exes: seq<Executable>, own: map<string, Path>,
                                             e: Executable, i: nat)
    requires !AttachedBelow(e, own, b) && i < |gs|
    decreases gs, 0
    ensures Decorate(gs, b, exes + [e], own)[i] == Decorate(gs, b, exes, own)[i]
  {
    var bi := b + [i];
    NotBelowChild(e, own, b, i);
    DecorateIgnores(gs[i].subGroups, bi, exes, own, e);
    OwnedSnoc(exes, own, bi, e);
    DecorateIndex(gs, b, exes + [e], own, i);
    DecorateIndex(gs, b, exes, own, i);
  }

  /** Not attached below `b` means not attached at or below any child of `b`. */
  lemma NotBelowChild(e: Executable, own: map<string, Path>, b: Path, i: nat)
    requires !AttachedBelow(e, own, b)
    ensures !AttachedBelow(e, own, b + [i]) && !AttachedAt(e, own, b + [i])
  {
    var bi := b + [i];
    assert bi[..|b|] == b;
    if e.group in own && |own[e.group]| >= |bi| {
      assert own[e.group][..|bi|][..|b|] == own[e.group][..|b|];
    }
  }

  /** The item of a sibling of the group at `q` is unaffected by attaching `e` there. */
  lemma {:induction false} AttachExeSibling(gs: seq<Group>, b: Path, exes: seq<Executable>, own: map<string, Path>,
                                            e: Executable, q: Path, i': nat)
    requires ValidPath(gs, q) && AttachedAt(e, own, b + q) && i' < |gs| && i' != q[0]
    ensures Decorate(gs, b, exes + [e], own)[i'] == Decorate(gs, b, exes, own)[i']
  {
    var bi' := b + [i'];
    NotAttachedSibling(e, own, b, q, i');
    DecorateIgnores(gs[i'].subGroups, bi', exes, own, e);
    OwnedSnoc(exes, own, bi', e);
    DecorateIndex(gs, b, exes + [e], own, i');
    DecorateIndex(gs, b, exes, own, i');
  }

  /** An executable attached at `b + q` is neither at nor below the sibling `b + [i']`. */
  lemma NotAttachedSibling(e: Executable, own: map<string, Path>, b: Path, q: Path, i': nat)
    requires |q| > 0 && AttachedAt(e, own, b + q) && i' != q[0]
    ensures !AttachedBelow(e, own, b + [i']) && !AttachedAt(e, own, b + [i'])
  {
    var o := b + q;
    var bi' := b + [i'];
    assert o[|b|] == q[0] && bi'[|b|] == i';
    if |o| >= |bi'| {
      assert o[..|bi'|][|b|] == o[|b|];
    }
  }

  /** Inserting an executable's item under its group's item is appending the
      executable to the list the picture is drawn from. */
  lemma {:induction false} AttachExe(gs: seq<Group>, b: Path, exes: seq<Executable>, own: map<string, Path>,
                                     e: Executable, q: Path)
    requires ValidPath(gs, q) && AttachedAt(e, own, b + q)
    decreases gs, 2
    ensures Insert(Decorate(gs, b, exes, own), q, ExeItem(e)) == Decorate(gs, b, exes + [e], own)
  {
    var d := Decorate(gs, b, exes, own);
    var d' := Decorate(gs, b, exes + [e], own);
    var i := q[0];
    forall i' | 0 <= i' < |gs| && i' != i
      ensures d'[i'] == d[i']
    {
      AttachExeSibling(gs, b, exes, own, e, q, i');
    }
    AttachExeHere(gs, b, exes, own, e, q);
    assert Insert(d, q, ExeItem(e)) == d[i := Item(d[i].text, d[i].values, Insert(d[i].children, q[1..], ExeItem(e)))];
  }

  /** One element of a decorated forest. */
  lemma DecorateIndex(gs: seq<Group>, b: Path, exes: seq<Executable>, own: map<string, Path>, i: nat)
    requires i < |gs|
    ensures |Decorate(gs, b, exes, own)| == |gs|
    ensures Decorate(gs, b, exes, own)[i] ==
              Item(gs[i].name, "", Decorate(gs[i].subGroups, b + [i], exes, own) + ExeItems(Owned(exes, own, b + [i])))
  {
  }

  /** An executable attached to the group placed at `b` itself goes last among that
      group item's children. */
  lemma AttachExeOwnItem(gs: seq<Group>, b: Path, exes: seq<Executable>, own: map<string, Path>, e: Executable)
    requires AttachedAt(e, own, b)
    ensures Insert(Decorate(gs, b, exes, own) + ExeItems(Owned(exes, own, b)), [], ExeItem(e)) ==
              Decorate(gs, b, exes + [e], own) + ExeItems(Owned(exes + [e], own, b))
  {
    var mine := Owned(exes, own, b);
    var ds := Decorate(gs, b, exes, own);
    OwnedSnoc(exes, own, b, e);
    assert !AttachedBelow(e, own, b);
    DecorateIgnores(gs, b, exes, own, e);
    ExeItemsSnoc(mine, e);
    assert (ds + ExeItems(mine)) + [ExeItem(e)] == ds + (ExeItems(mine) + [ExeItem(e)]);
  }

  lemma ExeItemsSnoc(es: seq<Executable>, e: Executable)
    ensures ExeItems(es + [e]) == ExeItems(es) + [ExeItem(e)]
  {
  }

  /** The item of the group at `q[0]` itself, for `AttachExe`. */
  lemma {:induction false} AttachExeHere(gs: seq<Group>, b: Path, exes: seq<Executable>, own: map<string, Path>,
                                         e: Executable, q: Path)
    requires ValidPath(gs, q) && AttachedAt(e, own, b + q)
    decreases gs, 1
    ensures var d := Decorate(gs, b, exes, own);
            Decorate(gs, b, exes + [e], own)[q[0]] ==
              Item(d[q[0]].text, d[q[0]].values, Insert(d[q[0]].children, q[1..], ExeItem(e)))
  {
    var i := q[0];
    DecorateIndex(gs, b, exes, own, i);
    DecorateIndex(gs, b, exes + [e], own, i);
    AttachExeChildren(gs, b, exes, own, e, q);
  }

  /** The children of that item: the executable lands either last among them or
      inside one of its sub-group items. */
  lemma {:induction false} AttachExeChildren(gs: seq<Group>, b: Path, exes: seq<Executable>, own: map<string, Path>,
                                             e: Executable, q: Path)
    requires ValidPath(gs, q) && AttachedAt(e, own, b + q)
    decreases gs, 0
    ensures var bi := b + [q[0]];
            var subs := gs[q[0]].subGroups;
            Insert(Decorate(subs, bi, exes, own) + ExeItems(Owned(exes, own, bi)), q[1..], ExeItem(e)) ==
              Decorate(subs, bi, exes + [e], own) + ExeItems(Owned(exes + [e], own, bi))
  {
    var i := q[0];
    var bi := b + [i];
    var subs := gs[i].subGroups;
    if |q| == 1 {
      assert b + q == bi && q[1..] == [];
      AttachExeOwnItem(subs, bi, exes, own, e);
    } else {
      var q' := q[1..];
      var mine := Owned(exes, own, bi);
      assert bi + q' == b + q;
      OwnedSnoc(exes, own, bi, e);
      assert Owned(exes + [e], own, bi) == mine;
      AttachExe(subs, bi, exes, own, e, q');
      InsertInFront(Decorate(subs, bi, exes, own), ExeItems(mine), q', ExeItem(e));
    }
  }

  /** Paths of a decorated forest: every group's location is an item whose label is
      the group's name, which holds the group's sub-group items and then the
      executables attached to it. */
  lemma {:induction false} DecorateAt(gs: seq<Group>, b: Path, exes: seq<Executable>, own: map<string, Path>, q: Path)
    requires ValidPath(gs, q)
    ensures IsNode(Decorate(gs, b, exes, own), q)
    ensures ItemAt(Decorate(gs, b, exes, own), q) ==
              Item(At(gs, q).name, "",
                   Decorate(At(gs, q).subGroups, b + q, exes, own) + ExeItems(Owned(exes, own, b + q)))
  {
    var i := q[0];
    if |q| == 1 {
      assert b + q == b + [i];
    } else {
      var subs := gs[i].subGroups;
      var d := Decorate(subs, b + [i], exes, own);
      DecorateAt(subs, b + [i], exes, own, q[1..]);
      assert b + [i] + q[1..] == b + q;
      assert IsNode(d + ExeItems(Owned(exes, own, b + [i])), q[1..]) &&
             ItemAt(d + ExeItems(Owned(exes, own, b + [i])), q[1..]) == ItemAt(d, q[1..]) by {
        NodeInFront(d, ExeItems(Owned(exes, own, b + [i])), q[1..]);
      }
    }
  }

  lemma {:induction false} NodeInFront(a: seq<Item>, c: seq<Item>, p: Path)
    requires IsNode(a, p)
    ensures IsNode(a + c, p) && ItemAt(a + c, p) == ItemAt(a, p)
  {
    assert (a + c)[p[0]] == a[p[0]];
  }

  /** The item at a group's location in the picture. */
  lemma LayoutAt(c: Catalog, p: Path)
    requires ValidPath(c.groups, p)
    ensures IsNode(Layout(c), p)
    ensures ItemAt(Layout(c), p) ==
              Item(At(c.groups, p).name, "",
                   Decorate(At(c.groups, p).subGroups, p, c.executables, Owners(c.groups)) +
                   ExeItems(Owned(c.executables, Owners(c.groups), p)))
  {
    var d := Decorate(c.groups, [], c.executables, Owners(c.groups));
    DecorateAt(c.groups, [], c.executables, Owners(c.groups), p);
    assert [] + p == p;
    NodeInFront(d, ExeItems(RootExes(c.executables)), p);
  }

  /** The shape of the picture: the top-level groups' items come first and the
      reserved group's executables after them; each group's location is an item
      labelled with its name whose children are its sub-groups' items and then the
      executables attached to it, in list order. */
  lemma LayoutShape(c: Catalog)
    ensures |Layout(c)| == |c.groups| + |RootExes(c.executables)|
    ensures forall j :: 0 <= j < |RootExes(c.executables)| ==>
              Layout(c)[|c.groups| + j] == ExeItem(RootExes(c.executables)[j])
    ensures forall p :: ValidPath(c.groups, p) ==>
              IsNode(Layout(c), p) &&
              ItemAt(Layout(c), p).text == At(c.groups, p).name &&
              ItemAt(Layout(c), p).values == "" &&
              |ItemAt(Layout(c), p).children| ==
                |At(c.groups, p).subGroups| + |Owned(c.executables, Owners(c.groups), p)| &&
              ItemAt(Layout(c), p).children[|At(c.groups, p).subGroups|..] ==
                ExeItems(Owned(c.executables, Owners(c.groups), p))
  {
    forall p | ValidPath(c.groups, p)
      ensures IsNode(Layout(c), p) &&
              ItemAt(Layout(c), p).text == At(c.groups, p).name &&
              ItemAt(Layout(c), p).values == "" &&
              |ItemAt(Layout(c), p).children| ==
                |At(c.groups, p).subGroups| + |Owned(c.executables, Owners(c.groups), p)| &&
              ItemAt(Layout(c), p).children[|At(c.groups, p).subGroups|..] ==
                ExeItems(Owned(c.executables, Owners(c.groups), p))
    {
      LayoutAt(c, p);
      var subs := At(c.groups, p).subGroups;
      var ds := Decorate(subs, p, c.executables, Owners(c.groups));
      assert |ds| == |subs|;
      assert (ds + ExeItems(Owned(c.executables, Owners(c.groups), p)))[|subs|..] ==
             ExeItems(Owned(c.executables, Owners(c.groups), p));
    }
  }

  // ---------------------------------------------------------------------------
  // Inserting a group and its subtree (the nested `add_group` of update_treeview)

  /** Inserts `g` as the last child of `parent`, records it in `group_node_ids`, and
      inserts its sub-groups, in order, below the item just created. */
  method PlaceGroup(view: seq<Item>, ids: map<string, Path>, parent: Path, g: Group)
    returns (view': seq<Item>, ids': map<string, Path>)
    requires parent == [] || IsNode(view, parent)
    decreases g
    ensures view' == Insert(view, parent, Item(g.name, "", Skeleton(g.subGroups)))
    ensures ids' == Visit(ids[g.name := parent + [|ChildrenAt(view, parent)|]], g.subGroups,
                          parent + [|ChildrenAt(view, parent)|])
  {
    var node := parent + [|ChildrenAt(view, parent)|];
    view' := Insert(view, parent, Item(g.name, "", []));
    ids' := ids[g.name := node];
    var subs := g.subGroups;
    var j := 0;
    assert subs[..0] == [] && Skeleton([]) == [];
    while j < |subs|
      invariant 0 <= j <= |subs|
      invariant view' == Insert(view, parent, Item(g.name, "", Skeleton(subs[..j])))
      invariant ids' == Visit(ids[g.name := node], subs[..j], node)
    {
      InsertUnderNew(view, parent, g.name, Skeleton(subs[..j]), Item(subs[j].name, "", Skeleton(subs[j].subGroups)));
      assert |ChildrenAt(view', node)| == j;
      view', ids' := PlaceGroup(view', ids', node, subs[j]);
      SkeletonSnoc(subs, j);
      VisitSnoc(ids[g.name := node], subs, node, j);
      j := j + 1;
    }
    assert subs[..j] == subs;
  }

  // ---------------------------------------------------------------------------
  // The three loops of update_treeview

  /** The first loop: every top-level group inserted at the top level, with its
      subtree, in list order. What it builds is the group skeleton of the layout,
      and `group_node_ids` maps each name to its last group in pre-order. */
  method InsertGroups(gs: seq<Group>) returns (view: seq<Item>, ids: map<string, Path>)
    ensures view == Skeleton(gs) && ids == Owners(gs)
    ensures forall n :: n in ids <==> Named(gs, n)
  {
    view := [];
    ids := map[];
    assert gs[..0] == [] && Skeleton([]) == [];
    for i := 0 to |gs|
      invariant view == Skeleton(gs[..i])
      invariant ids == Visit(map[], gs[..i], [])
    {
      assert [] + [|ChildrenAt(view, [])|] == [i];
      view, ids := PlaceGroup(view, ids, [], gs[i]);
      SkeletonSnoc(gs, i);
      VisitSnoc(map[], gs, [], i);
    }
    assert gs[..|gs|] == gs;
    forall n
      ensures n in ids <==> Named(gs, n)
    {
      OwnersSpec(gs, n);
    }
  }

  /** One step of the second loop: the `k`-th executable inserted, or skipped. */
  lemma AttachStep(gs: seq<Group>, exes: seq<Executable>, ids: map<string, Path>, k: nat)
    requires ids == Owners(gs) && k < |exes|
    ensures var e := exes[k];
            Decorate(gs, [], exes[..k + 1], ids) ==
              if e.group != RootName && e.group in ids
              then Insert(Decorate(gs, [], exes[..k], ids), ids[e.group], ExeItem(e))
              else Decorate(gs, [], exes[..k], ids)
  {
    var e := exes[k];
    assert exes[..k + 1] == exes[..k] + [e];
    if e.group != RootName && e.group in ids {
      OwnersSpec(gs, e.group);
      assert [] + ids[e.group] == ids[e.group];
      AttachExe(gs, [], exes[..k], ids, e, ids[e.group]);
    } else {
      DecorateIgnores(gs, [], exes[..k], ids, e);
    }
  }

  /** The second loop: each executable whose group is not "Root" and is in
      `group_node_ids` becomes the last child of that group's item; the others are
      skipped here. */
  method AttachExecutables(gs: seq<Group>, exes: seq<Executable>, skeleton: seq<Item>, ids: map<string, Path>)
    returns (view: seq<Item>)
    requires skeleton == Skeleton(gs) && ids == Owners(gs)
    ensures view == Decorate(gs, [], exes, ids)
  {
    DecorateNoExes(gs, [], ids);
    view := skeleton;
    assert exes[..0] == [];
    var k := 0;
    while k < |exes|
      invariant 0 <= k <= |exes|
      invariant view == Decorate(gs, [], exes[..k], ids)
    {
      var e := exes[k];
      AttachStep(gs, exes, ids, k);
      if e.group != RootName && e.group in ids {
        view := Insert(view, ids[e.group], ExeItem(e));
      }
      k := k + 1;
    }
    assert exes[..k] == exes;
  }

  /** One step of the third loop. */
  lemma RootStep(top: seq<Item>, exes: seq<Executable>, k: nat)
    requires k < |exes|
    ensures top + ExeItems(RootExes(exes[..k + 1])) ==
              if exes[k].group == RootName
              then Insert(top + ExeItems(RootExes(exes[..k])), [], ExeItem(exes[k]))
              else top + ExeItems(RootExes(exes[..k]))
  {
    var e := exes[k];
    assert exes[..k + 1] == exes[..k] + [e];
    RootExesSnoc(exes[..k], e);
    if e.group == RootName {
      assert ExeItems(RootExes(exes[..k]) + [e]) == ExeItems(RootExes(exes[..k])) + [ExeItem(e)];
    }
  }

  /** The third loop: the executables of "Root" appended at the top level, in list
      order, after everything already there. */
  method AppendRootExecutables(top: seq<Item>, exes: seq<Executable>) returns (view: seq<Item>)
    ensures view == top + ExeItems(RootExes(exes))
  {
    view := top;
    assert exes[..0] == [];
    var k := 0;
    while k < |exes|
      invariant 0 <= k <= |exes|
      invariant view == top + ExeItems(RootExes(exes[..k]))
    {
      RootStep(top, exes, k);
      if exes[k].group == RootName {
        view := Insert(view, [], ExeItem(exes[k]));
      }
      k := k + 1;
    }
    assert exes[..k] == exes;
  }

  // ---------------------------------------------------------------------------
  // The same step as the source writes it

  /** The view and `group_node_ids` while the groups are inserted. */
  datatype Pass = Pass(view: seq<Item>, ids: map<string, Path>)

  /** The loop over `gs[i..]` of the source's nested `add_group`: the parent of each
      group is `''` at the top level and otherwise `group_node_ids[owner]`, read
      afresh for every sub-group, after the earlier sub-groups' subtrees may have
      overwritten that entry. */
  function SourcePass(st: Pass, gs: seq<Group>, owner: Option<string>, i: nat): (r: Pass)
    requires owner.Some? ==> owner.value in st.ids
    decreases gs, |gs| - i
    ensures st.ids.Keys <= r.ids.Keys
    ensures forall n :: n in st.ids && !Named(gs, n) ==> r.ids[n] == st.ids[n]
  {
    if i >= |gs| then st
    else
      var parent := if owner.Some? then st.ids[owner.value] else [];
      var node := parent + [|ChildrenAt(st.view, parent)|];
      var st1 := Pass(Insert(st.view, parent, Item(gs[i].name, "", [])), st.ids[gs[i].name := node]);
      var st2 := SourcePass(st1, gs[i].subGroups, Some(gs[i].name), 0);
      NamedBelowAll(gs, i);
      SourcePass(st2, gs, owner, i + 1)
  }

  /** `NamedBelow` for every name. */
  lemma NamedBelowAll(gs: seq<Group>, j: nat)
    requires j < |gs|
    ensures Named(gs, gs[j].name)
    ensures forall n :: Named(gs[j].subGroups, n) ==> Named(gs, n)
  {
    NamedBelow(gs, j, gs[j].name);
    forall n | Named(gs[j].subGroups, n)
      ensures Named(gs, n)
    {
      NamedBelow(gs, j, n);
    }
  }

  /** The group items the source draws for the forest `gs`. */
  function SourceSkeleton(gs: seq<Group>): seq<Item>
  {
    SourcePass(Pass([], map[]), gs, None, 0).view
  }

  /** One group of the source's pass under the conditions of `SourcePassGrafts`: the
      group's subtree is drawn as the new last child of `parent`, and the owner's
      entry still names `parent` afterwards. */
  lemma SourceGroupGrafts(st: Pass, gs: seq<Group>, owner: Option<string>, i: nat, parent: Path)
    requires i < |gs| && Unnested(gs)
    requires owner.Some? ==> owner.value in st.ids && st.ids[owner.value] == parent && !Named(gs, owner.value)
    requires parent == [] || IsNode(st.view, parent)
    decreases gs, 0
    ensures var node := parent + [|ChildrenAt(st.view, parent)|];
            var st1 := Pass(Insert(st.view, parent, Item(gs[i].name, "", [])), st.ids[gs[i].name := node]);
            var st2 := SourcePass(st1, gs[i].subGroups, Some(gs[i].name), 0);
            st2.view == Graft(st.view, parent, [Item(gs[i].name, "", Skeleton(gs[i].subGroups))]) &&
            (owner.Some? ==> owner.value in st2.ids && st2.ids[owner.value] == parent)
  {
    var g := gs[i];
    var node := parent + [|ChildrenAt(st.view, parent)|];
    var a := Item(g.name, "", []);
    var st1 := Pass(Insert(st.view, parent, a), st.ids[g.name := node]);
    InsertIsGraft(st.view, parent, a);
    GraftNewNode(st.view, parent, a);
    UnnestedChild(gs, i);
    assert g.subGroups[0..] == g.subGroups;
    SourcePassGrafts(st1, g.subGroups, Some(g.name), 0, node);
    GraftUnderNew(st.view, parent, g.name, Skeleton(g.subGroups));
    if owner.Some? {
      NamedBelowAll(gs, i);
    }
  }

  /** The source's pass agrees with the intended skeleton when no group has a proper
      descendant with its own name: the groups of `gs[i..]` are then drawn, with
      their subtrees, as the last children of the owner's item. */
  lemma {:induction false} SourcePassGrafts(st: Pass, gs: seq<Group>, owner: Option<string>, i: nat, parent: Path)
    requires i <= |gs| && Unnested(gs)
    requires owner.Some? ==> owner.value in st.ids && st.ids[owner.value] == parent && !Named(gs, owner.value)
    requires owner.None? ==> parent == []
    requires parent == [] || IsNode(st.view, parent)
    decreases gs, 1, |gs| - i
    ensures SourcePass(st, gs, owner, i).view == Graft(st.view, parent, Skeleton(gs[i..]))
  {
    if i == |gs| {
      assert Skeleton(gs[i..]) == [];
      GraftNil(st.view, parent);
    } else {
      var g := gs[i];
      var node := parent + [|ChildrenAt(st.view, parent)|];
      var st1 := Pass(Insert(st.view, parent, Item(g.name, "", [])), st.ids[g.name := node]);
      var st2 := SourcePass(st1, g.subGroups, Some(g.name), 0);
      SourcePassUnfold(st, gs, owner, i);
      SourceGroupGrafts(st, gs, owner, i, parent);
      var b := Item(g.name, "", Skeleton(g.subGroups));
      if parent != [] {
        GraftKeepsNode(st.view, parent, [b], parent);
      }
      SourcePassGrafts(st2, gs, owner, i + 1, parent);
      GraftGraft(st.view, parent, [b], Skeleton(gs[i + 1..]));
      SkeletonCons(gs, i);
    }
  }

  /** One step of the source's pass, as its definition reads. */
  lemma SourcePassUnfold(st: Pass, gs: seq<Group>, owner: Option<string>, i: nat)
    requires i < |gs|
    requires owner.Some? ==> owner.value in st.ids
    ensures var parent := if owner.Some? then st.ids[owner.value] else [];
            var st1 := Pass(Insert(st.view, parent, Item(gs[i].name, "", [])),
                            st.ids[gs[i].name := parent + [|ChildrenAt(st.view, parent)|]]);
            var st2 := SourcePass(st1, gs[i].subGroups, Some(gs[i].name), 0);
            (owner.Some? ==> owner.value in st2.ids) &&
            SourcePass(st, gs, owner, i) == SourcePass(st2, gs, owner, i + 1)
  {
  }

  lemma SkeletonCons(gs: seq<Group>, i: nat)
    requires i < |gs|
    ensures Skeleton(gs[i..]) == [Item(gs[i].name, "", Skeleton(gs[i].subGroups))] + Skeleton(gs[i + 1..])
  {
    assert Skeleton(gs[i..])[0] == Item(gs[i].name, "", Skeleton(gs[i].subGroups));
  }

  /** Where no group has a proper descendant with its own name, the source draws
      exactly the intended group skeleton. */
  lemma SourceSkeletonAgrees(gs: seq<Group>)
    requires Unnested(gs)
    ensures SourceSkeleton(gs) == Skeleton(gs)
  {
    SourcePassGrafts(Pass([], map[]), gs, None, 0, []);
    assert gs[0..] == gs;
  }

  /** One pass of the source's loop over a group without sub-groups: its item is
      inserted under the item `group_node_ids[owner]` names (the root `''` at the
      top level), and its own entry is set to the new item. */
  lemma SourceLeafStep(st: Pass, gs: seq<Group>, owner: Option<string>, i: nat)
    requires i < |gs| && gs[i].subGroups == []
    requires owner.Some? ==> owner.value in st.ids
    ensures var parent := if owner.Some? then st.ids[owner.value] else [];
            var st' := Pass(Insert(st.view, parent, Item(gs[i].name, "", [])),
                            st.ids[gs[i].name := parent + [|ChildrenAt(st.view, parent)|]]);
            (owner.Some? ==> owner.value in st'.ids) &&
            SourcePass(st, gs, owner, i) == SourcePass(st', gs, owner, i + 1)
  {
    var parent := if owner.Some? then st.ids[owner.value] else [];
    var st' := Pass(Insert(st.view, parent, Item(gs[i].name, "", [])),
                    st.ids[gs[i].name := parent + [|ChildrenAt(st.view, parent)|]]);
    assert SourcePass(st', gs[i].subGroups, Some(gs[i].name), 0) == st';
  }
}
