/**
 * The launcher's catalog: the record kept in `exe_list`, with a list of
 * executables and a forest of named groups, together with the two pieces of
 * logic that walk the forest: the pre-order search by name and the
 * append-an-empty-group step of "Add Group".
 *
 * A group is addressed by its index path in the forest: `[i]` is the i-th
 * top-level group, `p + [j]` the j-th sub-group of the group at `p`. The
 * empty path stands for the top level itself (the place a group goes when
 * nothing is selected). Pre-order over the forest is the lexicographic
 * order of these paths (`LexLess`).
 */
module Catalog {

  datatype Option<T> = None | Some(value: T)

  /** One entry of the "executables" list. `group` names the group it hangs under. */
  datatype Executable = Executable(name: string, path: string, emoji: string, group: string)

  /** One node of the "groups" forest. */
  datatype Group = Group(name: string, subGroups: seq<Group>)

  /** The whole `exe_list` record. */
  datatype Catalog = Catalog(executables: seq<Executable>, groups: seq<Group>)

  /** The reserved group name: executables of this group are shown at the top level. */
  const RootName: string := "Root"

  type Path = seq<nat>

  /** `p` addresses a group of the forest `gs`. */
  predicate ValidPath(gs: seq<Group>, p: Path)
  {
    |p| > 0 && p[0] < |gs| && (|p| == 1 || ValidPath(gs[p[0]].subGroups, p[1..]))
  }

  /** The group at path `p`. */
  function At(gs: seq<Group>, p: Path): Group
    requires ValidPath(gs, p)
  {
    if |p| == 1 then gs[p[0]] else At(gs[p[0]].subGroups, p[1..])
  }

  /** `p` is a place new groups can be appended to: the top level or an existing group. */
  predicate IsParent(gs: seq<Group>, p: Path)
  {
    p == [] || ValidPath(gs, p)
  }

  /** The list a group appended at `p` joins. */
  function Children(gs: seq<Group>, p: Path): seq<Group>
    requires IsParent(gs, p)
  {
    if p == [] then gs else At(gs, p).subGroups
  }

  /** Pre-order: `p` is visited before `q` (an ancestor before its descendants,
      a whole subtree before the later siblings). */
  predicate LexLess(p: Path, q: Path)
  {
    q != [] && (p == [] || p[0] < q[0] || (p[0] == q[0] && LexLess(p[1..], q[1..])))
  }

  /** Some group at any depth is called `name`. */
  ghost predicate Named(gs: seq<Group>, name: string)
  {
    exists q :: ValidPath(gs, q) && At(gs, q).name == name
  }

  // ---------------------------------------------------------------------------
  // find_group_by_name

  /** The loop of `find_group_by_name` from position `i` of `gs` on: each group is
      tested before its sub-groups, and a whole subtree before the next sibling.
      The search yields the location of the group, which is what the source's
      returned reference is used for. */
  function FindFrom(gs: seq<Group>, name: string, i: nat): (r: Option<Path>)
    decreases gs, |gs| - i
    ensures r.Some? ==> ValidPath(gs, r.value) && r.value[0] >= i && At(gs, r.value).name == name
  {
    if i >= |gs| then None
    else if gs[i].name == name then Some([i])
    else match FindFrom(gs[i].subGroups, name, 0)
      case Some(p) =>
        assert ([i] + p)[1..] == p;
        Some([i] + p)
      case None => FindFrom(gs, name, i + 1)
  }

  /** `find_group_by_name(groups, name)`. */
  function FindGroupByName(gs: seq<Group>, name: string): (r: Option<Path>)
    ensures r.Some? ==> ValidPath(gs, r.value) && At(gs, r.value).name == name
  {
    FindFrom(gs, name, 0)
  }

  lemma {:induction false} FindFromIsFirst(gs: seq<Group>, name: string, i: nat)
    decreases gs, |gs| - i
    ensures FindFrom(gs, name, i).None? <==>
              forall q :: ValidPath(gs, q) && q[0] >= i ==> At(gs, q).name != name
    ensures FindFrom(gs, name, i).Some? ==>
              forall q :: ValidPath(gs, q) && q[0] >= i && LexLess(q, FindFrom(gs, name, i).value) ==>
                At(gs, q).name != name
  {
    if i >= |gs| {
    } else if gs[i].name == name {
      forall q | ValidPath(gs, q) && q[0] >= i
        ensures !LexLess(q, [i])
      {
        assert [i][1..] == [];
        assert !LexLess(q[1..], []);
      }
    } else {
      var subs := gs[i].subGroups;
      FindFromIsFirst(subs, name, 0);
      FindFromIsFirst(gs, name, i + 1);
      match FindFrom(subs, name, 0)
      case Some(p) =>
        var r := [i] + p;
        assert r[1..] == p;
        forall q | ValidPath(gs, q) && q[0] >= i && LexLess(q, r)
          ensures At(gs, q).name != name
        {
          if |q| > 1 && q[0] == i {
            ChildPath(gs, q);
            assert LexLess(q[1..], p);
          }
        }
      case None =>
        forall q | ValidPath(gs, q) && q[0] == i
          ensures At(gs, q).name != name
        {
          if |q| > 1 {
            ChildPath(gs, q);
          }
        }
    }
  }

  /** A path below a top-level group is a path into its sub-groups. */
  lemma ChildPath(gs: seq<Group>, q: Path)
    requires ValidPath(gs, q) && |q| > 1
    ensures ValidPath(gs[q[0]].subGroups, q[1..]) && At(gs, q) == At(gs[q[0]].subGroups, q[1..])
  {
  }

  /** `find_group_by_name` answers the first group called `name` in pre-order, and
      answers nothing exactly when no group at any depth is called `name`. */
  lemma FindGroupByNameIsFirst(gs: seq<Group>, name: string)
    ensures FindGroupByName(gs, name).None? <==> !Named(gs, name)
    ensures FindGroupByName(gs, name).Some? ==>
              forall q :: ValidPath(gs, q) && LexLess(q, FindGroupByName(gs, name).value) ==>
                At(gs, q).name != name
  {
    FindFromIsFirst(gs, name, 0);
  }

  // ---------------------------------------------------------------------------
  // The group an executable attaches to in the tree view

  /** The last group called `name` in pre-order: a group's subtree is searched
      before the group itself, and later siblings before earlier ones. */
  function LastNamed(gs: seq<Group>, name: string): (r: Option<Path>)
    ensures r.Some? ==> ValidPath(gs, r.value) && At(gs, r.value).name == name
  {
    if gs == [] then None
    else
      var last := |gs| - 1;
      match LastNamed(gs[last].subGroups, name)
      case Some(q) =>
        assert ([last] + q)[1..] == q;
        Some([last] + q)
      case None =>
        if gs[last].name == name then Some([last])
        else
          var r := LastNamed(gs[..last], name);
          if r.Some? then PrefixPath(gs, last, r.value); r else r
  }

  /** Paths into a prefix of a forest are paths into the forest, to the same group. */
  lemma {:induction false} PrefixPath(gs: seq<Group>, k: nat, p: Path)
    requires k <= |gs|
    ensures ValidPath(gs[..k], p) <==> ValidPath(gs, p) && p[0] < k
    ensures ValidPath(gs[..k], p) ==> At(gs[..k], p) == At(gs, p)
  {
  }

  lemma {:induction false} LastNamedIsLast(gs: seq<Group>, name: string)
    ensures LastNamed(gs, name).None? <==> !Named(gs, name)
    ensures LastNamed(gs, name).Some? ==>
              forall q :: ValidPath(gs, q) && LexLess(LastNamed(gs, name).value, q) ==>
                At(gs, q).name != name
  {
    if gs != [] {
      var last := |gs| - 1;
      var subs := gs[last].subGroups;
      var prefix := gs[..last];
      LastNamedIsLast(subs, name);
      match LastNamed(subs, name)
      case Some(q0) =>
        var r := [last] + q0;
        assert r[1..] == q0;
        forall q | ValidPath(gs, q) && LexLess(r, q)
          ensures At(gs, q).name != name
        {
          assert r[0] == last && q[0] <= last;
          assert q[0] == last && LexLess(q0, q[1..]);
          assert |q| > 1;
          ChildPath(gs, q);
        }
      case None =>
        if gs[last].name != name {
          LastNamedIsLast(prefix, name);
          var r := LastNamed(prefix, name);
          forall q | ValidPath(gs, q) && q[0] == last
            ensures At(gs, q).name != name
          {
            if |q| > 1 {
              ChildPath(gs, q);
            }
          }
          if r.Some? {
            PrefixPath(gs, last, r.value);
            forall q | ValidPath(gs, q) && LexLess(r.value, q) && q[0] < last
              ensures At(gs, q).name != name
            {
              PrefixPath(gs, last, q);
            }
          } else {
            forall q | ValidPath(gs, q) && q[0] < last
              ensures At(gs, q).name != name
            {
              PrefixPath(gs, last, q);
            }
          }
        }
    }
  }

  // ---------------------------------------------------------------------------
  // Appending a new, empty group (the data part of "Add Group")

  /** `Children(gs, parent).append({"name": name, "sub_groups": []})`. */
  function AppendGroup(gs: seq<Group>, parent: Path, name: string): seq<Group>
    requires IsParent(gs, parent)
  {
    if parent == [] then gs + [Group(name, [])]
    else
      var g := gs[parent[0]];
      gs[parent[0] := Group(g.name, AppendGroup(g.subGroups, parent[1..], name))]
  }

  /** Appending puts the new empty group last in the parent's list, adds exactly one
      location to the forest, and leaves the name at every other location as it was. */
  lemma {:induction false} AppendGroupSpec(gs: seq<Group>, parent: Path, name: string)
    requires IsParent(gs, parent)
    ensures IsParent(AppendGroup(gs, parent, name), parent)
    ensures Children(AppendGroup(gs, parent, name), parent) == Children(gs, parent) + [Group(name, [])]
    ensures forall q :: ValidPath(AppendGroup(gs, parent, name), q) <==>
                          ValidPath(gs, q) || q == parent + [|Children(gs, parent)|]
    ensures forall q :: ValidPath(gs, q) ==> At(AppendGroup(gs, parent, name), q).name == At(gs, q).name
  {
    var r := AppendGroup(gs, parent, name);
    var k := |Children(gs, parent)|;
    if parent == [] {
      forall q | ValidPath(gs, q)
        ensures ValidPath(r, q) && At(r, q) == At(gs, q)
      {
        PrefixPath(r, |gs|, q);
        assert r[..|gs|] == gs;
      }
      forall q | ValidPath(r, q)
        ensures ValidPath(gs, q) || q == [k]
      {
        if q[0] < |gs| {
          PrefixPath(r, |gs|, q);
          assert r[..|gs|] == gs;
        } else {
          assert q[0] == k && r[k] == Group(name, []);
          assert !ValidPath([], q[1..]);
          assert q == [k];
        }
      }
    } else {
      var i := parent[0];
      var g := gs[i];
      var rest := parent[1..];
      AppendGroupSpec(g.subGroups, rest, name);
      var subs' := AppendGroup(g.subGroups, rest, name);
      assert r[i] == Group(g.name, subs');
      assert parent == [i] + rest;
      assert IsParent(r, parent) by {
        if rest != [] {
          assert ValidPath(r[i].subGroups, rest);
        }
      }
      assert Children(r, parent) == Children(g.subGroups, rest) + [Group(name, [])] by {
        if rest == [] {
        } else {
          assert At(r, parent) == At(subs', rest);
          assert At(gs, parent) == At(g.subGroups, rest);
        }
      }
      assert Children(gs, parent) == Children(g.subGroups, rest);
      forall q
        ensures ValidPath(r, q) <==> ValidPath(gs, q) || q == parent + [k]
      {
        if |q| > 1 && q[0] == i {
          assert (parent + [k])[1..] == rest + [k];
          assert q == parent + [k] <==> q[1..] == rest + [k];
        }
      }
      forall q | ValidPath(gs, q)
        ensures At(r, q).name == At(gs, q).name
      {
      }
    }
  }

  /** A forest is determined by its locations and the names found there: so the
      three facts of `AppendGroupSpec` leave nothing else free to change. */
  lemma {:induction false} ForestExtensionality(a: seq<Group>, b: seq<Group>)
    requires forall q :: ValidPath(a, q) <==> ValidPath(b, q)
    requires forall q :: ValidPath(a, q) ==> At(a, q).name == At(b, q).name
    ensures a == b
  {
    assert |a| == |b| by {
      if |a| < |b| {
        assert ValidPath(b, [|a|]);
      } else if |b| < |a| {
        assert ValidPath(a, [|b|]);
      }
    }
    forall i | 0 <= i < |a|
      ensures a[i] == b[i]
    {
      assert ValidPath(a, [i]);
      var sa, sb := a[i].subGroups, b[i].subGroups;
      forall q
        ensures ValidPath(sa, q) <==> ValidPath(sb, q)
      {
        assert ([i] + q)[1..] == q;
        assert ValidPath(a, [i] + q) <==> ValidPath(b, [i] + q);
      }
      forall q | ValidPath(sa, q)
        ensures At(sa, q).name == At(sb, q).name
      {
        assert ([i] + q)[1..] == q;
        assert ValidPath(a, [i] + q);
      }
      ForestExtensionality(sa, sb);
    }
  }

  /** Some group of the list `Children(gs, parent)` is called `name`: the sibling
      test `any(group['name'] == name for group in ...)`. */
  predicate HasChildNamed(gs: seq<Group>, parent: Path, name: string)
    requires IsParent(gs, parent)
  {
    exists j :: 0 <= j < |Children(gs, parent)| && Children(gs, parent)[j].name == name
  }

  // ---------------------------------------------------------------------------
  // Names below a group

  /** A name carried by the `j`-th group, or by one of its descendants, is carried
      in the forest. */
  lemma NamedBelow(gs: seq<Group>, j: nat, name: string)
    requires j < |gs| && (gs[j].name == name || Named(gs[j].subGroups, name))
    ensures Named(gs, name)
  {
    if gs[j].name == name {
      assert ValidPath(gs, [j]) && At(gs, [j]).name == name;
    } else {
      var q :| ValidPath(gs[j].subGroups, q) && At(gs[j].subGroups, q).name == name;
      var p := [j] + q;
      assert p[0] == j && p[1..] == q;
      assert ValidPath(gs, p) && At(gs, p).name == name;
    }
  }

  /** No group has a proper descendant carrying its own name. */
  ghost predicate Unnested(gs: seq<Group>)
  {
    forall p :: ValidPath(gs, p) ==> !Named(At(gs, p).subGroups, At(gs, p).name)
  }

  /** `Unnested` holds for each group's own name and passes on to its sub-groups. */
  lemma UnnestedChild(gs: seq<Group>, j: nat)
    requires Unnested(gs) && j < |gs|
    ensures !Named(gs[j].subGroups, gs[j].name) && Unnested(gs[j].subGroups)
  {
    assert ValidPath(gs, [j]) && At(gs, [j]) == gs[j];
    forall q | ValidPath(gs[j].subGroups, q)
      ensures !Named(At(gs[j].subGroups, q).subGroups, At(gs[j].subGroups, q).name)
    {
      var p := [j] + q;
      assert p[0] == j && p[1..] == q;
      assert ValidPath(gs, p) && At(gs, p) == At(gs[j].subGroups, q);
    }
  }
}
