/** The nested to-do tree: tasks, paths, lookup, and the two structural rewrites
    (replacing the node at a path, removing the subtree at a path). */
module TaskTree {

  datatype Option<T> = None | Some(value: T)

  /** One to-do item; `subtasks` is always present (possibly empty), in display order. */
  datatype Task = Task(text: string, done: bool, subtasks: seq<Task>)

  /** A node's address: the index to follow at each level, starting from the roots. */
  type Path = seq<nat>

  /** What a node says about itself, apart from its children. */
  type Label = (string, bool)

  function Last(p: Path): nat
    requires p != []
  {
    p[|p| - 1]
  }

  function Parent(p: Path): (q: Path)
    requires p != []
    ensures p == q + [Last(p)]
  {
    p[..|p| - 1]
  }

  predicate IsPrefix(a: Path, b: Path)
  {
    |a| <= |b| && b[..|a|] == a
  }

  /** The node at `path`: nothing for the empty path or when an index runs off its list,
      otherwise descend into `subtasks` at every index but the last. */
  function Resolve(tree: seq<Task>, path: Path): Option<Task>
    decreases path
  {
    if path == [] || path[0] >= |tree| then None
    else if |path| == 1 then Some(tree[path[0]])
    else Resolve(tree[path[0]].subtasks, path[1..])
  }

  /** The sibling list reached by descending into `subtasks` at every index of `q`. */
  function Descend(tree: seq<Task>, q: Path): Option<seq<Task>>
    decreases q
  {
    if q == [] then Some(tree)
    else if q[0] >= |tree| then None
    else Descend(tree[q[0]].subtasks, q[1..])
  }

  /** The list that holds the node at `path`: the roots for a one-index path,
      otherwise the children of the node at the path without its last index. */
  function ParentList(tree: seq<Task>, path: Path): Option<seq<Task>>
  {
    if path == [] then None
    else if |path| == 1 then Some(tree)
    else Descend(tree, Parent(path))
  }

  function LabelOf(t: Task): Label
  {
    (t.text, t.done)
  }

  /** The label of the node at `q`, if `q` resolves. */
  function LabelAt(tree: seq<Task>, q: Path): Option<Label>
  {
    match Resolve(tree, q)
    case None => None
    case Some(t) => Some(LabelOf(t))
  }

  /** The number of tasks in a forest, subtasks included. */
  function Size(ts: seq<Task>): nat
    decreases ts
  {
    if ts == [] then 0 else 1 + Size(ts[0].subtasks) + Size(ts[1..])
  }

  /** `tree` with the node at `path` replaced by `t`; unchanged when `path` does not resolve. */
  function Replace(tree: seq<Task>, path: Path, t: Task): seq<Task>
    decreases path
  {
    if path == [] || path[0] >= |tree| then tree
    else if |path| == 1 then tree[path[0] := t]
    else
      var n := tree[path[0]];
      tree[path[0] := n.(subtasks := Replace(n.subtasks, path[1..], t))]
  }

  /** `tree` with the node at `path`, and its whole subtree, taken out of its sibling list;
      unchanged when `path` does not resolve. */
  function RemoveAt(tree: seq<Task>, path: Path): seq<Task>
    decreases path
  {
    if path == [] || path[0] >= |tree| then tree
    else if |path| == 1 then tree[..path[0]] + tree[path[0] + 1..]
    else
      var n := tree[path[0]];
      tree[path[0] := n.(subtasks := RemoveAt(n.subtasks, path[1..]))]
  }

  /** After `RemoveAt(tree, p)`, the node now at `q` was at `Shift(p, q)` before:
      later siblings of the removed node move up by one place. */
  function Shift(p: Path, q: Path): (r: Path)
    ensures |r| == |q|
    decreases p
  {
    if p == [] || q == [] then q
    else if |p| == 1 then (if q[0] >= p[0] then [q[0] + 1] + q[1..] else q)
    else if q[0] == p[0] then [q[0]] + Shift(p[1..], q[1..])
    else q
  }

  /** The inverse direction: where a node that `RemoveAt(tree, p)` keeps ends up. */
  function Unshift(p: Path, q: Path): (r: Path)
    ensures |r| == |q|
    decreases p
  {
    if p == [] || q == [] then q
    else if |p| == 1 then (if q[0] > p[0] then [q[0] - 1] + q[1..] else q)
    else if q[0] == p[0] then [q[0]] + Unshift(p[1..], q[1..])
    else q
  }

  // ---------------------------------------------------------------------------
  // Lookup

  /** Resolving through a list reached by `Descend` continues from that list. */
  lemma {:induction false} ResolveDescend(tree: seq<Task>, q: Path, r: Path)
    requires r != []
    ensures Descend(tree, q).None? ==> Resolve(tree, q + r).None?
    ensures Descend(tree, q).Some? ==> Resolve(tree, q + r) == Resolve(Descend(tree, q).value, r)
    decreases q
  {
    if q != [] {
      assert (q + r)[0] == q[0];
      assert (q + r)[1..] == q[1..] + r;
      if q[0] < |tree| {
        ResolveDescend(tree[q[0]].subtasks, q[1..], r);
      }
    } else {
      assert q + r == r;
    }
  }

  /** Descending one more level selects the children of the node at the longer path. */
  lemma {:induction false} DescendExtend(tree: seq<Task>, q: Path, j: nat)
    ensures Descend(tree, q + [j]) ==
      match Descend(tree, q)
      case None => None
      case Some(l) => if j < |l| then Some(l[j].subtasks) else None
    decreases q
  {
    if q == [] {
      assert q + [j] == [j];
    } else {
      assert (q + [j])[0] == q[0];
      assert (q + [j])[1..] == q[1..] + [j];
      if q[0] < |tree| {
        DescendExtend(tree[q[0]].subtasks, q[1..], j);
      }
    }
  }

  /** Lookup and parent-list lookup agree, in both directions: the node at a non-empty path
      exists exactly when its parent list exists and holds the last index, and then it is
      that list's element at the last index. */
  lemma ResolveViaParent(tree: seq<Task>, p: Path)
    ensures Resolve(tree, p).Some? <==>
      p != [] && ParentList(tree, p).Some? && Last(p) < |ParentList(tree, p).value|
    ensures Resolve(tree, p).Some? ==> Resolve(tree, p).value == ParentList(tree, p).value[Last(p)]
    ensures |p| == 1 ==> ParentList(tree, p) == Some(tree)
  {
    if p != [] {
      ResolveDescend(tree, Parent(p), [Last(p)]);
    }
  }

  /** Resolving one index deeper selects a child of the node at the shorter path. */
  lemma ResolveExtend(tree: seq<Task>, p: Path, j: nat)
    requires p != []
    ensures Resolve(tree, p + [j]) ==
      match Resolve(tree, p)
      case None => None
      case Some(t) => if j < |t.subtasks| then Some(t.subtasks[j]) else None
  {
    ResolveDescend(tree, p, [j]);
    DescendExtend(tree, Parent(p), Last(p));
    ResolveDescend(tree, Parent(p), [Last(p)]);
  }

  /** Lookup fails as soon as one index along the path is out of range of its list. */
  lemma ResolveOutOfRange(tree: seq<Task>, path: Path, k: nat)
    requires k < |path|
    requires Descend(tree, path[..k]).Some? && path[k] >= |Descend(tree, path[..k]).value|
    ensures Resolve(tree, path).None?
  {
    assert path == path[..k] + path[k..];
    ResolveDescend(tree, path[..k], path[k..]);
  }

  /** Below a resolved node, lookup continues in that node's children. */
  lemma ResolveBelow(tree: seq<Task>, p: Path, r: Path)
    requires Resolve(tree, p).Some? && r != []
    ensures Resolve(tree, p + r) == Resolve(Resolve(tree, p).value.subtasks, r)
  {
    ResolveDescend(tree, p, r);
    DescendExtend(tree, Parent(p), Last(p));
    ResolveDescend(tree, Parent(p), [Last(p)]);
  }

  /** The labels at all paths determine a tree completely. */
  lemma {:induction false} LabelsDetermineTree(a: seq<Task>, b: seq<Task>)
    requires forall q: Path :: LabelAt(a, q) == LabelAt(b, q)
    ensures a == b
    decreases a
  {
    assert LabelAt(a, [|b|]) == LabelAt(b, [|b|]);
    assert LabelAt(a, [|a|]) == LabelAt(b, [|a|]);
    {
      forall i | 0 <= i < |a| ensures a[i] == b[i] {
        assert LabelAt(a, [i]) == LabelAt(b, [i]);
        forall r: Path ensures LabelAt(a[i].subtasks, r) == LabelAt(b[i].subtasks, r) {
          if r != [] {
            assert ([i] + r)[1..] == r;
            assert LabelAt(a, [i] + r) == LabelAt(b, [i] + r);
          }
        }
        LabelsDetermineTree(a[i].subtasks, b[i].subtasks);
      }
    }
  }

  // ---------------------------------------------------------------------------
  // Replacing one node

  lemma {:induction false} ReplaceAt(tree: seq<Task>, p: Path, t: Task)
    requires Resolve(tree, p).Some?
    ensures |Replace(tree, p, t)| == |tree|
    ensures Resolve(Replace(tree, p, t), p) == Some(t)
    decreases p
  {
    if |p| > 1 {
      ReplaceAt(tree[p[0]].subtasks, p[1..], t);
    }
  }

  /** A path that neither leads to nor passes through the replaced node still finds the
      same node. */
  lemma {:induction false} ReplaceOutside(tree: seq<Task>, p: Path, t: Task, q: Path)
    requires Resolve(tree, p).Some?
    requires !IsPrefix(q, p) && !IsPrefix(p, q)
    ensures Resolve(Replace(tree, p, t), q) == Resolve(tree, q)
    decreases p
  {
    ReplaceAt(tree, p, t);
    if q != [] && |p| > 1 && q[0] == p[0] && |q| > 1 {
      ReplaceOutside(tree[p[0]].subtasks, p[1..], t, q[1..]);
    } else if q != [] && |p| == 1 {
      assert q[..1] == [q[0]];
    } else if q != [] && |q| == 1 {
      assert p[..1] == [p[0]];
    }
  }

  /** Paths below the replaced node now resolve inside the replacement. */
  lemma ReplaceBelow(tree: seq<Task>, p: Path, t: Task, r: Path)
    requires Resolve(tree, p).Some? && r != []
    ensures Resolve(Replace(tree, p, t), p + r) == Resolve(t.subtasks, r)
  {
    ReplaceAt(tree, p, t);
    ResolveBelow(Replace(tree, p, t), p, r);
  }

  /** The ancestors of the replaced node keep their own label and their number of children. */
  lemma {:induction false} ReplaceAbove(tree: seq<Task>, p: Path, t: Task, q: Path)
    requires Resolve(tree, p).Some?
    requires q != [] && IsPrefix(q, p) && q != p
    ensures Resolve(tree, q).Some? && Resolve(Replace(tree, p, t), q).Some?
    ensures LabelAt(Replace(tree, p, t), q) == LabelAt(tree, q)
    ensures |Resolve(Replace(tree, p, t), q).value.subtasks| == |Resolve(tree, q).value.subtasks|
    decreases p
  {
    assert q[0] == p[0];
    ReplaceAt(tree[p[0]].subtasks, p[1..], t);
    if |q| > 1 {
      assert p[1..][..|q| - 1] == q[1..];
      ReplaceAbove(tree[p[0]].subtasks, p[1..], t, q[1..]);
    }
  }

  /** Relabelling a node (same children) changes the label at that one path and nothing else. */
  lemma Relabel(tree: seq<Task>, p: Path, t: Task, q: Path)
    requires Resolve(tree, p).Some? && t.subtasks == Resolve(tree, p).value.subtasks
    ensures LabelAt(Replace(tree, p, t), q) ==
      if q == p then Some(LabelOf(t)) else LabelAt(tree, q)
  {
    ReplaceAt(tree, p, t);
    if q == p {
    } else if IsPrefix(q, p) {
      if q != [] { ReplaceAbove(tree, p, t, q); }
    } else if IsPrefix(p, q) {
      var r := q[|p|..];
      assert q == p + r;
      ReplaceBelow(tree, p, t, r);
      ResolveBelow(tree, p, r);
    } else {
      ReplaceOutside(tree, p, t, q);
    }
  }

  /** Replacing a node and then putting the old one back restores the tree. */
  lemma {:induction false} ReplaceRestore(tree: seq<Task>, p: Path, t: Task)
    requires Resolve(tree, p).Some?
    ensures Replace(Replace(tree, p, t), p, Resolve(tree, p).value) == tree
    decreases p
  {
    if |p| > 1 {
      ReplaceRestore(tree[p[0]].subtasks, p[1..], t);
    }
  }

  /** Replacing the same node twice keeps only the second replacement. */
  lemma {:induction false} ReplaceOverwrite(tree: seq<Task>, p: Path, t: Task, u: Task)
    ensures Replace(Replace(tree, p, t), p, u) == Replace(tree, p, u)
    decreases p
  {
    if p != [] && p[0] < |tree| && |p| > 1 {
      ReplaceOverwrite(tree[p[0]].subtasks, p[1..], t, u);
    }
  }

  // ---------------------------------------------------------------------------
  // Sizes

  lemma {:induction false} SizeConcat(a: seq<Task>, b: seq<Task>)
    ensures Size(a + b) == Size(a) + Size(b)
    decreases a
  {
    if a == [] {
      assert a + b == b;
    } else {
      assert (a + b)[0] == a[0];
      assert (a + b)[1..] == a[1..] + b;
      SizeConcat(a[1..], b);
    }
  }

  /** Swapping one element of a list changes the size by the difference of the two subtrees. */
  lemma SizeUpdate(s: seq<Task>, i: nat, t: Task)
    requires i < |s|
    ensures Size(s[i := t]) + Size([s[i]]) == Size(s) + Size([t])
  {
    assert s == s[..i] + [s[i]] + s[i + 1..];
    assert s[i := t] == s[..i] + [t] + s[i + 1..];
    SizeConcat(s[..i] + [s[i]], s[i + 1..]);
    SizeConcat(s[..i], [s[i]]);
    SizeConcat(s[..i] + [t], s[i + 1..]);
    SizeConcat(s[..i], [t]);
  }

  lemma {:induction false} ReplaceSize(tree: seq<Task>, p: Path, t: Task)
    requires Resolve(tree, p).Some?
    ensures Size(Replace(tree, p, t)) + Size([Resolve(tree, p).value]) == Size(tree) + Size([t])
    decreases p
  {
    var n := tree[p[0]];
    if |p| == 1 {
      SizeUpdate(tree, p[0], t);
    } else {
      var n' := n.(subtasks := Replace(n.subtasks, p[1..], t));
      ReplaceSize(n.subtasks, p[1..], t);
      SizeUpdate(tree, p[0], n');
    }
  }

  // ---------------------------------------------------------------------------
  // Removing one subtree

  lemma {:induction false} RemoveUnresolved(tree: seq<Task>, p: Path)
    requires Resolve(tree, p).None?
    ensures RemoveAt(tree, p) == tree
    decreases p
  {
    if p != [] && p[0] < |tree| && |p| > 1 {
      RemoveUnresolved(tree[p[0]].subtasks, p[1..]);
    }
  }

  /** The parent list of the removed node loses exactly its element at the last index;
      the siblings before and after keep their order. */
  lemma {:induction false} RemoveFromParent(tree: seq<Task>, p: Path)
    requires Resolve(tree, p).Some?
    ensures ParentList(tree, p).Some? && ParentList(RemoveAt(tree, p), p).Some?
    ensures var l := ParentList(tree, p).value;
      Last(p) < |l| &&
      ParentList(RemoveAt(tree, p), p).value == l[..Last(p)] + l[Last(p) + 1..]
    decreases p
  {
    ResolveViaParent(tree, p);
    if |p| > 1 {
      var n := tree[p[0]];
      RemoveFromParent(n.subtasks, p[1..]);
      ParentListStep(tree, p);
      ParentListStep(RemoveAt(tree, p), p);
    }
  }

  /** For a path of two or more indices, the parent list is found inside the first node. */
  lemma ParentListStep(tree: seq<Task>, p: Path)
    requires |p| > 1
    ensures ParentList(tree, p) ==
      if p[0] < |tree| then ParentList(tree[p[0]].subtasks, p[1..]) else None
  {
    assert Parent(p)[0] == p[0];
    assert Parent(p)[1..] == Parent(p[1..]);
  }

  /** After a removal every path finds the label that its shifted path found before. */
  lemma {:induction false} RemoveShift(tree: seq<Task>, p: Path, q: Path)
    requires Resolve(tree, p).Some?
    ensures LabelAt(RemoveAt(tree, p), q) == LabelAt(tree, Shift(p, q))
    decreases p
  {
    var a := p[0];
    var nt := RemoveAt(tree, p);
    if q == [] {
    } else if |p| == 1 {
      assert nt == tree[..a] + tree[a + 1..];
      if q[0] < a {
        assert nt[q[0]] == tree[q[0]];
      } else if q[0] < |nt| {
        assert nt[q[0]] == tree[q[0] + 1];
        var s := [q[0] + 1] + q[1..];
        assert s[1..] == q[1..];
      }
    } else if q[0] != a {
    } else if |q| == 1 {
      assert Shift(p, q) == [a];
    } else {
      RemoveShift(tree[a].subtasks, p[1..], q[1..]);
      var s := [a] + Shift(p[1..], q[1..]);
      assert s[1..] == Shift(p[1..], q[1..]);
    }
  }

  /** A shifted path never leads into the removed subtree. */
  lemma {:induction false} ShiftAvoidsRemoved(p: Path, q: Path)
    requires p != []
    ensures !IsPrefix(p, Shift(p, q))
    decreases p
  {
    if q != [] && |p| > 1 && q[0] == p[0] {
      ShiftAvoidsRemoved(p[1..], q[1..]);
    }
  }

  /** Every path outside the removed subtree is the shift of the path its node moves to. */
  lemma {:induction false} ShiftUnshift(p: Path, q: Path)
    requires p != [] && !IsPrefix(p, q)
    ensures Shift(p, Unshift(p, q)) == q
    decreases p
  {
    if q != [] && |p| > 1 && q[0] == p[0] {
      ShiftUnshift(p[1..], q[1..]);
      var u := [q[0]] + Unshift(p[1..], q[1..]);
      assert u[1..] == Unshift(p[1..], q[1..]);
    } else if q != [] && |p| == 1 {
      if q[0] > p[0] {
        var u := [q[0] - 1] + q[1..];
        assert u[1..] == q[1..];
      }
    }
  }

  /** The removal deletes exactly the subtree rooted at `p` and keeps everything else. */
  lemma RemoveKeepsOthers(tree: seq<Task>, p: Path, q: Path)
    requires Resolve(tree, p).Some? && !IsPrefix(p, q)
    ensures LabelAt(RemoveAt(tree, p), Unshift(p, q)) == LabelAt(tree, q)
  {
  }

  lemma {:induction false} RemoveSize(tree: seq<Task>, p: Path)
    requires Resolve(tree, p).Some?
    ensures Size(RemoveAt(tree, p)) + Size([Resolve(tree, p).value]) == Size(tree)
    decreases p
  {
    var a := p[0];
    var n := tree[a];
    if |p| == 1 {
      assert tree == tree[..a] + [n] + tree[a + 1..];
      SizeConcat(tree[..a] + [n], tree[a + 1..]);
      SizeConcat(tree[..a], [n]);
      SizeConcat(tree[..a], tree[a + 1..]);
    } else {
      RemoveSize(n.subtasks, p[1..]);
      SizeUpdate(tree, a, n.(subtasks := RemoveAt(n.subtasks, p[1..])));
    }
  }
}
