/** The application object that owns the to-do tree and changes it in place. */
module TodoApp {
  import opened Text
  import opened TaskTree
  import opened Operations

  class TodoStore {
    /** The roots of the to-do tree, in display order. */
    var tree: seq<Task>

    /** Starts from the tree read from storage (an empty one when there is none). */
    constructor (loaded: seq<Task>)
      ensures tree == loaded
    {
      tree := loaded;
    }

    /** Walks the path one index at a time; nothing for the empty path or an index out of range. */
    method GetTaskFromPath(path: Path) returns (r: Option<Task>)
      ensures r == Resolve(tree, path)
    {
      if path == [] {
        return None;
      }
      var current := tree;
      var i := 0;
      while i < |path|
        invariant 0 <= i <= |path|
        invariant i < |path| ==> Resolve(current, path[i..]) == Resolve(tree, path)
        invariant i == |path| ==> Resolve(tree, path).None?
      {
        var index := path[i];
        assert path[i..][0] == index && path[i..][1..] == path[i + 1..];
        if index >= |current| {
          return None;
        }
        if i == |path| - 1 {
          return Some(current[index]);
        }
        current := current[index].subtasks;
        i := i + 1;
      }
      return None;
    }

    /** The list holding the node at `path`: the roots for a one-index path, otherwise the
        children reached by walking every index but the last. */
    method GetParentListFromPath(path: Path) returns (r: Option<seq<Task>>)
      ensures r == ParentList(tree, path)
    {
      if path == [] {
        return None;
      }
      if |path| == 1 {
        return Some(tree);
      }
      var parentPath := path[..|path| - 1];
      var current := tree;
      for k := 0 to |parentPath|
        invariant Descend(current, parentPath[k..]) == Descend(tree, parentPath)
      {
        var index := parentPath[k];
        assert parentPath[k..][0] == index && parentPath[k..][1..] == parentPath[k + 1..];
        if index >= |current| {
          return None;
        }
        current := current[index].subtasks;
      }
      assert parentPath[|parentPath|..] == [];
      return Some(current);
    }

    /** Appends a new task (trimmed text, not done, no subtasks) to the roots or to the
        children of the task at `path`; blank text or an unresolved path changes nothing. */
    method AddTaskToPath(text: string, path: Option<Path>)
      modifies this
      ensures tree == AddTask(old(tree), text, path)
    {
      var trimmed := Trim(text);
      if trimmed == [] {
        return;
      }
      var newTask := Task(trimmed, false, []);
      match path
      case None =>
        tree := tree + [newTask];
      case Some(p) =>
        var parentTask := GetTaskFromPath(p);
        if parentTask.Some? {
          var t := parentTask.value;
          tree := Replace(tree, p, t.(subtasks := t.subtasks + [newTask]));
        }
    }

    /** The entry field's add: the entry is trimmed first and ignored when blank. */
    method AddMainTask(entry: string)
      modifies this
      ensures tree == AddTask(old(tree), entry, None)
    {
      var text := Trim(entry);
      AddTrimmed(tree, entry, None);
      if text != [] {
        AddTaskToPath(text, None);
      }
    }

    /** The subtask dialog's add under the task at `path`. */
    method AddSubtask(path: Path, entry: string)
      modifies this
      ensures tree == AddTask(old(tree), entry, Some(path))
    {
      var text := Trim(entry);
      AddTrimmed(tree, entry, Some(path));
      if text != [] {
        AddTaskToPath(text, Some(path));
      }
    }

    /** Flips `done` of the task at `path`, if there is one. */
    method ToggleTask(path: Path)
      modifies this
      ensures tree == Toggle(old(tree), path)
    {
      var task := GetTaskFromPath(path);
      if task.Some? {
        var t := task.value;
        tree := Replace(tree, path, t.(done := !t.done));
      }
    }

    /** Saving the edit dialog: the entry is trimmed, and a non-blank result becomes the text
        of the task at `path`. */
    method EditTask(path: Path, entry: string)
      modifies this
      ensures tree == Edit(old(tree), path, entry)
    {
      var task := GetTaskFromPath(path);
      if task.None? {
        return;
      }
      var newText := Trim(entry);
      if newText != [] {
        tree := Replace(tree, path, task.value.(text := newText));
      }
    }

    /** Deleting after the confirmation: the task at `path` is popped from its parent list,
        taking its subtasks with it. */
    method DeleteTask(path: Path)
      modifies this
      ensures tree == Delete(old(tree), path)
    {
      var task := GetTaskFromPath(path);
      if task.None? {
        return;
      }
      var parentList := GetParentListFromPath(path);
      var taskIndex := path[|path| - 1];
      ResolveViaParent(tree, path);
      if parentList.Some? && taskIndex < |parentList.value| {
        tree := RemoveAt(tree, path);
      }
    }
  }
}
