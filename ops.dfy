/** The four mutations of the to-do tree, as functions from the old tree to the new one,
    and what each of them changes. */
module Operations {
  import opened Text
  import opened TaskTree

  /** The task that adding `text` creates: trimmed text, not done, no subtasks. */
  function NewTask(text: string): Task
  {
    Task(Trim(text), false, [])
  }

  /** Adding `text` under `parent` (or at the roots) takes effect: the text is not blank
      and the parent, if one is given, resolves. */
  predicate AddApplies(tree: seq<Task>, text: string, parent: Option<Path>)
  {
    !IsBlank(text) && (parent.None? || Resolve(tree, parent.value).Some?)
  }

  /** Where an effective addition puts the new task: after the last root, or after the
      last child of the parent. */
  function AddedPath(tree: seq<Task>, parent: Option<Path>): Path
    requires parent.None? || Resolve(tree, parent.value).Some?
  {
    match parent
    case None => [|tree|]
    case Some(p) => p + [|Resolve(tree, p).value.subtasks|]
  }

  /** Appends a new task to the roots (no parent) or to the children of the node at the
      parent path; a blank text or an unresolved parent changes nothing. */
  function AddTask(tree: seq<Task>, text: string, parent: Option<Path>): seq<Task>
  {
    if IsBlank(text) then tree
    else
      match parent
      case None => tree + [NewTask(text)]
      case Some(p) =>
        match Resolve(tree, p)
        case None => tree
        case Some(t) => Replace(tree, p, t.(subtasks := t.subtasks + [NewTask(text)]))
  }

  /** Flips `done` of the node at `path`; an unresolved path changes nothing. */
  function Toggle(tree: seq<Task>, path: Path): seq<Task>
  {
    match Resolve(tree, path)
    case None => tree
    case Some(t) => Replace(tree, path, t.(done := !t.done))
  }

  /** Sets the text of the node at `path` to the trimmed new text; a blank text or an
      unresolved path changes nothing. */
  function Edit(tree: seq<Task>, path: Path, newText: string): seq<Task>
  {
    if IsBlank(newText) then tree
    else
      match Resolve(tree, path)
      case None => tree
      case Some(t) => Replace(tree, path, t.(text := Trim(newText)))
  }

  /** Removes the node at `path` with its subtree; an empty or unresolved path changes nothing. */
  function Delete(tree: seq<Task>, path: Path): seq<Task>
  {
    if Resolve(tree, path).Some? then RemoveAt(tree, path) else tree
  }

  // ---------------------------------------------------------------------------
  // Adding

  /** An effective addition makes exactly one path resolve that did not before, holding the
      new task's label; every other path keeps its label. An ineffective one is a no-op. */
  lemma AddTaskLabels(tree: seq<Task>, text: string, parent: Option<Path>, q: Path)
    ensures !AddApplies(tree, text, parent) ==> AddTask(tree, text, parent) == tree
    ensures AddApplies(tree, text, parent) ==>
      LabelAt(tree, AddedPath(tree, parent)).None? &&
      LabelAt(AddTask(tree, text, parent), q) ==
        if q == AddedPath(tree, parent) then Some((Trim(text), false)) else LabelAt(tree, q)
  {
    if AddApplies(tree, text, parent) {
      var n := NewTask(text);
      match parent
      case None =>
        AppendRootLabel(tree, n, q);
      case Some(p) =>
        var t := Resolve(tree, p).value;
        var t' := t.(subtasks := t.subtasks + [n]);
        var m := |t.subtasks|;
        ResolveExtend(tree, p, m);
        AppendChildLabel(tree, p, t, t', n, q);
    }
  }

  /** Appending a leaf to a list adds the path `[|ts|]` and leaves every other path as it was. */
  lemma ResolveAppend(ts: seq<Task>, n: Task, r: Path)
    requires n.subtasks == []
    ensures Resolve(ts + [n], r) == if r == [|ts|] then Some(n) else Resolve(ts, r)
  {
  }

  lemma AppendRootLabel(tree: seq<Task>, n: Task, q: Path)
    requires n.subtasks == []
    ensures LabelAt(tree + [n], q) == if q == [|tree|] then Some(LabelOf(n)) else LabelAt(tree, q)
  {
    ResolveAppend(tree, n, q);
  }

  lemma AppendChildLabel(tree: seq<Task>, p: Path, t: Task, t': Task, n: Task, q: Path)
    requires Resolve(tree, p) == Some(t) && t' == t.(subtasks := t.subtasks + [n]) && n.subtasks == []
    ensures LabelAt(Replace(tree, p, t'), q) ==
      if q == p + [|t.subtasks|] then Some(LabelOf(n)) else LabelAt(tree, q)
  {
    ReplaceAt(tree, p, t');
    if IsPrefix(p, q) && q != p {
      var r := q[|p|..];
      assert q == p + r;
      ReplaceBelow(tree, p, t', r);
      ResolveBelow(tree, p, r);
      ResolveAppend(t.subtasks, n, r);
      assert q == p + [|t.subtasks|] <==> r == [|t.subtasks|];
    } else if IsPrefix(q, p) && q != p {
      if q != [] { ReplaceAbove(tree, p, t', q); }
    } else if q != p {
      ReplaceOutside(tree, p, t', q);
    }
  }

  /** The new task is found at its path with empty subtasks, and the tree grows by one node. */
  lemma AddTaskNode(tree: seq<Task>, text: string, parent: Option<Path>)
    requires AddApplies(tree, text, parent)
    ensures Resolve(AddTask(tree, text, parent), AddedPath(tree, parent)) == Some(NewTask(text))
    ensures Size(AddTask(tree, text, parent)) == Size(tree) + 1
  {
    var n := NewTask(text);
    match parent
    case None =>
      SizeConcat(tree, [n]);
    case Some(p) =>
      var t := Resolve(tree, p).value;
      var t' := t.(subtasks := t.subtasks + [n]);
      ReplaceBelow(tree, p, t', [|t.subtasks|]);
      ReplaceSize(tree, p, t');
      SizeConcat(t.subtasks, [n]);
  }

  /** The entry field's own trimming before the call does not change what is added. */
  lemma AddTrimmed(tree: seq<Task>, text: string, parent: Option<Path>)
    ensures AddTask(tree, Trim(text), parent) == AddTask(tree, text, parent)
  {
    TrimIdempotent(text);
    AddSameTrim(tree, Trim(text), text, parent);
  }

  /** Adding depends on the text only through its trimmed form. */
  lemma AddSameTrim(tree: seq<Task>, a: string, b: string, parent: Option<Path>)
    requires Trim(a) == Trim(b)
    ensures AddTask(tree, a, parent) == AddTask(tree, b, parent)
  {
  }

  // ---------------------------------------------------------------------------
  // Toggling and editing

  /** Toggling flips `done` at the resolved path and changes no other label and no shape. */
  lemma ToggleLabels(tree: seq<Task>, path: Path, q: Path)
    ensures Resolve(tree, path).None? ==> Toggle(tree, path) == tree
    ensures LabelAt(Toggle(tree, path), q) ==
      match Resolve(tree, path)
      case Some(t) => if q == path then Some((t.text, !t.done)) else LabelAt(tree, q)
      case None => LabelAt(tree, q)
    ensures Resolve(tree, path).Some? ==>
      Resolve(Toggle(tree, path), path).Some? &&
      Resolve(Toggle(tree, path), path).value.subtasks == Resolve(tree, path).value.subtasks
  {
    match Resolve(tree, path)
    case None =>
    case Some(t) =>
      Relabel(tree, path, t.(done := !t.done), q);
      ReplaceAt(tree, path, t.(done := !t.done));
  }

  /** Toggling twice gives back the original tree. */
  lemma ToggleTwice(tree: seq<Task>, path: Path)
    ensures Toggle(Toggle(tree, path), path) == tree
  {
    match Resolve(tree, path)
    case None =>
    case Some(t) =>
      var t' := t.(done := !t.done);
      ReplaceAt(tree, path, t');
      assert t'.(done := !t'.done) == t;
      ReplaceRestore(tree, path, t');
  }

  /** Editing sets the trimmed text at the resolved path and changes no other label and no
      shape; a blank text or unresolved path is a no-op. */
  lemma EditLabels(tree: seq<Task>, path: Path, newText: string, q: Path)
    ensures IsBlank(newText) || Resolve(tree, path).None? ==> Edit(tree, path, newText) == tree
    ensures LabelAt(Edit(tree, path, newText), q) ==
      match Resolve(tree, path)
      case Some(t) =>
        if q == path && !IsBlank(newText) then Some((Trim(newText), t.done)) else LabelAt(tree, q)
      case None => LabelAt(tree, q)
  {
    match Resolve(tree, path)
    case None =>
    case Some(t) =>
      if !IsBlank(newText) {
        Relabel(tree, path, t.(text := Trim(newText)), q);
      }
  }

  /** Saving the same edit twice is the same as saving it once. */
  lemma EditTwice(tree: seq<Task>, path: Path, newText: string)
    ensures Edit(Edit(tree, path, newText), path, newText) == Edit(tree, path, newText)
  {
    match Resolve(tree, path)
    case None =>
    case Some(t) =>
      if !IsBlank(newText) {
        var t' := t.(text := Trim(newText));
        ReplaceAt(tree, path, t');
        assert t'.(text := Trim(newText)) == t';
        ReplaceOverwrite(tree, path, t', t');
      }
  }

  // ---------------------------------------------------------------------------
  // Deleting

  /** Deleting takes exactly the element at the last index out of the parent list, keeping
      the order of the others; otherwise it is a no-op. */
  lemma DeleteFromParent(tree: seq<Task>, path: Path)
    ensures Resolve(tree, path).None? ==> Delete(tree, path) == tree
    ensures Delete(tree, path) == RemoveAt(tree, path)
    ensures Resolve(tree, path).Some? ==>
      ParentList(tree, path).Some? && ParentList(Delete(tree, path), path).Some? &&
      var l := ParentList(tree, path).value;
      var i := Last(path);
      i < |l| && l[i] == Resolve(tree, path).value &&
      ParentList(Delete(tree, path), path).value == l[..i] + l[i + 1..] &&
      |ParentList(Delete(tree, path), path).value| == |l| - 1
  {
    if Resolve(tree, path).None? {
      RemoveUnresolved(tree, path);
    } else {
      RemoveFromParent(tree, path);
      ResolveViaParent(tree, path);
    }
  }

  /** After a deletion, the label at each path is the one its shifted path had, and shifted
      paths never lead into the deleted subtree; conversely every node outside that subtree
      is still present, at its unshifted path. The tree shrinks by the deleted subtree. */
  lemma DeleteLabels(tree: seq<Task>, path: Path, q: Path)
    requires Resolve(tree, path).Some?
    ensures LabelAt(Delete(tree, path), q) == LabelAt(tree, Shift(path, q))
    ensures !IsPrefix(path, Shift(path, q))
    ensures !IsPrefix(path, q) ==> LabelAt(Delete(tree, path), Unshift(path, q)) == LabelAt(tree, q)
    ensures Size(Delete(tree, path)) == Size(tree) - Size([Resolve(tree, path).value])
  {
    RemoveShift(tree, path, q);
    ShiftAvoidsRemoved(path, q);
    if !IsPrefix(path, q) { RemoveKeepsOthers(tree, path, q); }
    RemoveSize(tree, path);
  }

  // ---------------------------------------------------------------------------
  // A worked session

  /** A text without surrounding whitespace is stored exactly as typed. */
  lemma AddPlainText(tree: seq<Task>, s: string)
    requires s != [] && !IsSpace(s[0]) && !IsSpace(s[|s| - 1])
    ensures !IsBlank(s) && NewTask(s) == Task(s, false, [])
    ensures AddTask(tree, s, None) == tree + [Task(s, false, [])]
  {
  }

  /** Add "Buy milk" to an empty list: one root, not done, no subtasks. */
  lemma SessionAddRoot()
    ensures AddTask([], "Buy milk", None) == [Task("Buy milk", false, [])]
  {
    AddPlainText([], "Buy milk");
  }

  /** Adding a plain text under the first root appends it to that root's subtasks. */
  lemma AddPlainUnderFirst(root: Task, rest: seq<Task>, s: string)
    requires s != [] && !IsSpace(s[0]) && !IsSpace(s[|s| - 1])
    ensures AddTask([root] + rest, s, Some([0])) ==
      [root.(subtasks := root.subtasks + [Task(s, false, [])])] + rest
  {
  }

  /** Add "2%" under the root: it becomes the root's only subtask. */
  lemma SessionAddSubtask()
    ensures AddTask([Task("Buy milk", false, [])], "2%", Some([0])) ==
      [Task("Buy milk", false, [Task("2%", false, [])])]
  {
    var root := Task("Buy milk", false, []);
    AddPlainUnderFirst(root, [], "2%");
    assert [root] + [] == [root];
    assert [] + [Task("2%", false, [])] == [Task("2%", false, [])];
  }

  /** Tick the subtask at [0, 0], then delete the root at [0]: the list is empty again. */
  lemma SessionToggleDelete()
    ensures Toggle([Task("Buy milk", false, [Task("2%", false, [])])], [0, 0]) ==
      [Task("Buy milk", false, [Task("2%", true, [])])]
    ensures Delete([Task("Buy milk", false, [Task("2%", true, [])])], [0]) == []
  {
    var sub := Task("2%", false, []);
    var root := Task("Buy milk", false, [sub]);
    assert [0, 0][1..] == [0];
    assert Resolve([root], [0, 0]) == Some(sub);
    assert Replace([sub], [0], sub.(done := true)) == [Task("2%", true, [])];
  }

  /** On a one-root list, [5] resolves to nothing and toggling it changes nothing. */
  lemma SessionStalePath()
    ensures Resolve([Task("Buy milk", false, [])], [5]) == None
    ensures Toggle([Task("Buy milk", false, [])], [5]) == [Task("Buy milk", false, [])]
  {
  }
}
