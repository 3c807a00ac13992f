/** The traversal the display uses: every task with its path and depth, depth first,
    a node before its subtasks, siblings in order. */
module Render {
  import opened TaskTree

  /** One displayed row: the task, the path it is addressed by, and its indentation level. */
  datatype Entry = Entry(path: Path, depth: nat, task: Task)

  /** The rows for the siblings `ts[i..]` under the path `prefix`, at `depth`: each sibling
      `j` is shown at `prefix + [j]`, followed by its own subtasks one level deeper. */
  function RenderFrom(ts: seq<Task>, prefix: Path, depth: nat, i: nat): seq<Entry>
    decreases ts, |ts| - i
  {
    if i >= |ts| then []
    else
      [Entry(prefix + [i], depth, ts[i])]
      + RenderFrom(ts[i].subtasks, prefix + [i], depth + 1, 0)
      + RenderFrom(ts, prefix, depth, i + 1)
  }

  /** The whole display: root `i` at path `[i]` and depth 0. */
  function Render(tree: seq<Task>): seq<Entry>
  {
    RenderFrom(tree, [], 0, 0)
  }

  /** Pre-order on paths: a node comes before its descendants, and before everything under
      a later sibling. */
  predicate PathLess(a: Path, b: Path)
    decreases a
  {
    if a == [] then b != []
    else if b == [] then false
    else a[0] < b[0] || (a[0] == b[0] && PathLess(a[1..], b[1..]))
  }

  predicate InOrder(es: seq<Entry>)
  {
    forall k, m :: 0 <= k < m < |es| ==> PathLess(es[k].path, es[m].path)
  }

  /** What a row of `RenderFrom(ts, prefix, depth, i)` is: below `prefix`, at a sibling
      index from `i` on, naming the task found there, at the matching depth. */
  predicate RowOk(ts: seq<Task>, prefix: Path, depth: nat, i: nat, e: Entry)
  {
    |e.path| > |prefix| && e.path == prefix + e.path[|prefix|..] && e.path[|prefix|] >= i &&
    Resolve(ts, e.path[|prefix|..]) == Some(e.task) &&
    e.depth == depth + |e.path| - |prefix| - 1
  }

  // ---------------------------------------------------------------------------
  // Properties of the path order

  lemma {:induction false} PathLessIrreflexive(a: Path)
    ensures !PathLess(a, a)
    decreases a
  {
    if a != [] { PathLessIrreflexive(a[1..]); }
  }

  /** A node precedes every node in its subtree. */
  lemma {:induction false} PathLessExtend(x: Path, c: Path)
    requires c != []
    ensures PathLess(x, x + c)
    decreases x
  {
    if x != [] {
      assert (x + c)[0] == x[0] && (x + c)[1..] == x[1..] + c;
      PathLessExtend(x[1..], c);
    }
  }

  /** Under a common prefix, the earlier sibling index comes first. */
  lemma {:induction false} PathLessAt(prefix: Path, a: Path, b: Path)
    requires a != [] && b != [] && a[0] < b[0]
    ensures PathLess(prefix + a, prefix + b)
    decreases prefix
  {
    if prefix == [] {
      assert prefix + a == a && prefix + b == b;
    } else {
      assert (prefix + a)[0] == prefix[0] && (prefix + a)[1..] == prefix[1..] + a;
      assert (prefix + b)[0] == prefix[0] && (prefix + b)[1..] == prefix[1..] + b;
      PathLessAt(prefix[1..], a, b);
    }
  }

  lemma InOrderConcat(a: seq<Entry>, b: seq<Entry>)
    requires InOrder(a) && InOrder(b)
    requires forall x, y :: x in a && y in b ==> PathLess(x.path, y.path)
    ensures InOrder(a + b)
  {
  }

  // ---------------------------------------------------------------------------
  // RenderFrom

  /** Every row names the task its path resolves to, at depth one less than its length
      below the prefix. */
  lemma {:induction false} RenderFromSound(ts: seq<Task>, prefix: Path, depth: nat, i: nat)
    ensures forall e :: e in RenderFrom(ts, prefix, depth, i) ==> RowOk(ts, prefix, depth, i, e)
    decreases ts, |ts| - i
  {
    if i < |ts| {
      var p := prefix + [i];
      var head := Entry(p, depth, ts[i]);
      var kids := RenderFrom(ts[i].subtasks, p, depth + 1, 0);
      var rest := RenderFrom(ts, prefix, depth, i + 1);
      RenderFromSound(ts[i].subtasks, p, depth + 1, 0);
      RenderFromSound(ts, prefix, depth, i + 1);
      assert p[|prefix|..] == [i];
      forall e | e in kids ensures RowOk(ts, prefix, depth, i, e) {
        var c := e.path[|p|..];
        assert e.path == prefix + ([i] + c);
        assert e.path[|prefix|..] == [i] + c;
        assert ([i] + c)[1..] == c;
      }
      assert RenderFrom(ts, prefix, depth, i) == [head] + kids + rest;
    }
  }

  /** Every node of `ts[i..]` and of its subtrees has a row, with its path and depth. */
  lemma {:induction false} RenderFromComplete(ts: seq<Task>, prefix: Path, depth: nat, i: nat, r: Path)
    requires Resolve(ts, r).Some? && r[0] >= i
    ensures Entry(prefix + r, depth + |r| - 1, Resolve(ts, r).value) in RenderFrom(ts, prefix, depth, i)
    decreases ts, |ts| - i
  {
    var p := prefix + [i];
    var kids := RenderFrom(ts[i].subtasks, p, depth + 1, 0);
    var rest := RenderFrom(ts, prefix, depth, i + 1);
    assert RenderFrom(ts, prefix, depth, i) == [Entry(p, depth, ts[i])] + kids + rest;
    if r[0] == i {
      if |r| == 1 {
        assert r == [i];
      } else {
        var r' := r[1..];
        assert r == [i] + r';
        assert prefix + r == p + r';
        RenderFromComplete(ts[i].subtasks, p, depth + 1, 0, r');
      }
    } else {
      RenderFromComplete(ts, prefix, depth, i + 1, r);
    }
  }

  /** The rows come in pre-order. */
  lemma {:induction false} RenderFromOrder(ts: seq<Task>, prefix: Path, depth: nat, i: nat)
    ensures InOrder(RenderFrom(ts, prefix, depth, i))
    decreases ts, |ts| - i
  {
    if i < |ts| {
      var p := prefix + [i];
      var head := [Entry(p, depth, ts[i])];
      var kids := RenderFrom(ts[i].subtasks, p, depth + 1, 0);
      var rest := RenderFrom(ts, prefix, depth, i + 1);
      RenderFromOrder(ts[i].subtasks, p, depth + 1, 0);
      RenderFromOrder(ts, prefix, depth, i + 1);
      RenderFromSound(ts[i].subtasks, p, depth + 1, 0);
      RenderFromSound(ts, prefix, depth, i + 1);
      forall x, y | x in head && y in kids ensures PathLess(x.path, y.path) {
        PathLessExtend(p, y.path[|p|..]);
      }
      InOrderConcat(head, kids);
      forall x, y | x in head + kids && y in rest ensures PathLess(x.path, y.path) {
        var a := x.path[|prefix|..];
        var b := y.path[|prefix|..];
        if x in head {
          assert x.path == prefix + [i];
          assert a == [i];
        } else {
          assert x.path == p + x.path[|p|..];
          assert x.path == prefix + ([i] + x.path[|p|..]);
          assert a == [i] + x.path[|p|..];
        }
        assert x.path == prefix + a && y.path == prefix + b;
        PathLessAt(prefix, a, b);
      }
      InOrderConcat(head + kids, rest);
      assert RenderFrom(ts, prefix, depth, i) == head + kids + rest;
    }
  }

  /** One row per task. */
  lemma {:induction false} RenderFromSize(ts: seq<Task>, prefix: Path, depth: nat, i: nat)
    requires i <= |ts|
    ensures |RenderFrom(ts, prefix, depth, i)| == Size(ts[i..])
    decreases ts, |ts| - i
  {
    if i < |ts| {
      RenderFromSize(ts[i].subtasks, prefix + [i], depth + 1, 0);
      RenderFromSize(ts, prefix, depth, i + 1);
      assert ts[i..][0] == ts[i] && ts[i..][1..] == ts[i + 1..];
      assert ts[i].subtasks[0..] == ts[i].subtasks;
    }
  }

  // ---------------------------------------------------------------------------
  // The whole display

  /** Each displayed row carries a non-empty path that resolves to exactly the task shown,
      and its depth is the path's length minus one. */
  lemma RenderSound(tree: seq<Task>, e: Entry)
    requires e in Render(tree)
    ensures e.path != [] && Resolve(tree, e.path) == Some(e.task) && e.depth == |e.path| - 1
  {
    RenderFromSound(tree, [], 0, 0);
    assert e.path[0..] == e.path;
  }

  /** Every task in the tree is displayed, at its path, with depth the path's length minus one. */
  lemma RenderComplete(tree: seq<Task>, q: Path)
    requires Resolve(tree, q).Some?
    ensures Entry(q, |q| - 1, Resolve(tree, q).value) in Render(tree)
  {
    RenderFromComplete(tree, [], 0, 0, q);
    assert [] + q == q;
  }

  /** The display is in pre-order, shows each path at most once, and has exactly one row per
      task; with the two lemmas above, each task is displayed exactly once. */
  lemma RenderPreOrder(tree: seq<Task>)
    ensures InOrder(Render(tree))
    ensures forall k, m :: 0 <= k < m < |Render(tree)| ==> Render(tree)[k].path != Render(tree)[m].path
    ensures |Render(tree)| == Size(tree)
  {
    var rows := Render(tree);
    RenderFromOrder(tree, [], 0, 0);
    forall k, m | 0 <= k < m < |rows| ensures rows[k].path != rows[m].path {
      PathLessIrreflexive(rows[k].path);
    }
    RenderFromSize(tree, [], 0, 0);
    assert tree[0..] == tree;
  }
}
