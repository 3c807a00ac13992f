# Nested to-do tree

This project models the data core of a desktop to-do list with arbitrarily nested subtasks.
The application object keeps the list in one field, `tasks_tree`. That field is an ordered
list of root tasks. Each task is a record of its text, a `done` flag and its ordered
`subtasks`. A task is addressed by a *path*: the index to follow at each level, starting
from the roots. The view builds paths afresh on every redraw. Every user action re-locates
its task through its path, then changes the tree in place:

- a new task is appended to the roots or under a parent;
- `done` is flipped;
- the text is replaced;
- a task is removed together with its subtree.

The display walks the tree depth first, a node before its subtasks. Each task is shown with
its path and its depth.

The Dafny model has five modules:

- `Text` (text.dfy): `Trim`, the whitespace stripping (Python's `str.strip()` with its `str.isspace()` character set) that decides whether a text is blank.
- `TaskTree` (tree.dfy): the value model.
  - `Task` and `Path`.
  - Lookup: `Resolve` (the node at a path), `Descend` and `ParentList` (the list holding it).
  - The two structural rewrites: `Replace` (one node) and `RemoveAt` (one subtree).
  - `Size`, the number of tasks.
  - `LabelAt`, the text and flag at a path. The labels at all paths determine a tree
    (`LabelsDetermineTree`), so "`LabelAt` changes at exactly these paths" is a complete
    description of a mutation.
- `Operations` (ops.dfy): the four mutations as functions from old tree to new tree:
  `AddTask`, `Toggle`, `Edit` and `Delete`. Each comes with lemmas saying exactly what changes.
- `Render` (render.dfy): the display traversal `Render`, proved sound, complete, in
  pre-order, and of one row per task.
- `TodoApp` (store.dfy): the class `TodoStore`.
  - Its field `tree` is the source's `tasks_tree`.
  - The two lookups are loops that walk a `current` list, as in the source. They are
    proved equal to `Resolve` and `ParentList`.
  - The mutating methods are proved equal to the functions of `Operations`.

Persistence (`save_tasks` after each mutation, `load_tasks` at start-up) is file I/O. The
constructor takes the loaded tree as a parameter, and saving is not modelled. The deletion
confirmation is taken as answered "yes".

## Model

| member | source | states |
|---|---|---|
| `Text.Trim` | note.py:246-250 | the stripped text is the slice of the input that starts right after its leading whitespace run (`LeadingSpace`: all whitespace, and followed by a non-whitespace character if any) and is followed only by whitespace, whitespace being exactly the characters Python's `str.isspace()` accepts; it is empty exactly when the input is all whitespace; otherwise it neither starts nor ends with whitespace |
| `Text.TrimIdempotent` | note.py:238-250 | stripping an already stripped text changes nothing |
| `TaskTree.Resolve` | note.py:204-218 | the lookup itself: the node a path leads to, or nothing for the empty path or an index out of range at any level; its contract is given by `ResolveViaParent`, `ResolveExtend` and `ResolveOutOfRange` below, and `TodoStore.GetTaskFromPath` is proved equal to it |
| `TaskTree.Descend` | note.py:226-233 | the walk over every index of a path, one `subtasks` list at a time, stopping with nothing at the first index out of range; `ResolveViaParent` ties it to `Resolve` |
| `TaskTree.ParentList` | note.py:220-234 | the list holding the node at a path: nothing for the empty path, the roots for a one-index path, otherwise the children reached by walking all but the last index; specified by `ResolveViaParent` and `RemoveFromParent`, and `TodoStore.GetParentListFromPath` is proved equal to it |
| `TaskTree.ResolveViaParent` | note.py:204-234 | both directions: a path resolves exactly when it is non-empty, its parent list exists and the last index is in range; the node found is that list's element at the last index; a one-index path's parent list is the root list |
| `TaskTree.ResolveExtend` | note.py:209-217 | resolving `p + [j]` gives child `j` of the node at `p`, or nothing when `p` fails or `j` is out of range |
| `TaskTree.ResolveOutOfRange` | note.py:211-217 | lookup fails as soon as any index along the path is out of range of the list it indexes |
| `TaskTree.LabelsDetermineTree` | note.py:249-253 | two trees with the same text and flag at every path are equal |
| `TaskTree.Relabel` | note.py:261-271 | replacing a node by one with the same children changes the label at that path only |
| `TaskTree.ReplaceOutside` | note.py:261-271 | a path that neither leads to nor passes through the replaced node finds the same node as before |
| `TaskTree.RemoveFromParent` | note.py:335-338 | removal takes exactly element `path[-1]` out of the parent list, keeping the order of the elements before and after it |
| `TaskTree.RemoveShift` | note.py:335-338 | after removal, the label at each path is the label its shifted path had before, so later siblings move up one place |
| `TaskTree.ShiftUnshift` | note.py:335-338 | every path outside the removed subtree is the shift of the path its node moves to |
| `TaskTree.RemoveSize` | note.py:335-338 | removal shrinks the tree by exactly the removed node and its subtree |
| `TaskTree.ReplaceSize` | note.py:256-262 | replacing one node changes the task count by the difference of the two subtrees |
| `Operations.AddTask` | note.py:244-262 | the addition as a function of the old tree; specified by `AddTaskLabels` (what changes, both cases), `AddTaskNode` (the node added, the new size) and `AddTrimmed` |
| `Operations.AddTaskLabels` | note.py:244-262 | blank text or an unresolved parent leaves the tree unchanged; otherwise exactly one new path resolves (after the last root, or after the parent's last child), with the trimmed text and not done, and every other path keeps its label |
| `Operations.AddTaskNode` | note.py:249-262 | the added node is `{trimmed text, not done, no subtasks}` at its path, and the tree grows by exactly one task |
| `Operations.AddTrimmed` | note.py:236-240 | the entry field's own strip before calling the add does not change the result (same for the subtask dialog, note.py:362-365) |
| `Operations.AddPlainText` | note.py:246-256 | a text without surrounding whitespace is stored as typed and appended after the last root |
| `Operations.Toggle` | note.py:267-271 | the toggle as a function of the old tree; specified by `ToggleLabels` and `ToggleTwice` |
| `Operations.ToggleLabels` | note.py:267-271 | an unresolved path is a no-op; otherwise only the target's `done` flips, its subtasks are kept, and every other path keeps its label |
| `Operations.ToggleTwice` | note.py:267-271 | toggling twice restores the original tree |
| `Operations.Edit` | note.py:302-305 | saving an edit as a function of the old tree; specified by `EditLabels` and `EditTwice` |
| `Operations.EditLabels` | note.py:277-279 | blank text or an unresolved path is a no-op; otherwise only the target's text changes, to the trimmed new text (note.py:302-305) |
| `Operations.EditTwice` | note.py:302-305 | saving the same edit twice equals saving it once |
| `Operations.Delete` | note.py:325-338 | the confirmed deletion as a function of the old tree; specified by `DeleteFromParent` and `DeleteLabels` |
| `Operations.DeleteFromParent` | note.py:325-338 | an empty or unresolved path is a no-op, and the deletion is plain removal at the path, since removal itself changes nothing when the path does not resolve (the bounds guard at note.py:337); otherwise the parent list loses exactly its element at the last index, which is the target task, and is one shorter |
| `Operations.DeleteLabels` | note.py:325-338 | after a deletion each path shows what its shifted path showed; no shifted path leads into the deleted subtree; every other node survives at its unshifted path; the tree shrinks by the deleted subtree |
| `Operations.SessionAddRoot` | note.py:244-256 | adding "Buy milk" to an empty list yields one root, not done, without subtasks |
| `Operations.AddPlainUnderFirst` | note.py:258-262 | adding a plain text under the first root appends it to that root's subtasks |
| `Operations.SessionAddSubtask` | note.py:258-262 | adding "2%" under `[0]` makes it the root's only subtask |
| `Operations.SessionToggleDelete` | note.py:267-338 | toggling `[0, 0]` ticks the subtask; deleting `[0]` then empties the list |
| `Operations.SessionStalePath` | note.py:267-271 | on a one-root list, `[5]` resolves to nothing and toggling it changes nothing |
| `Render.RenderFrom` | note.py:465-474 | the rows of a run of siblings and their subtrees, each sibling before its subtasks one level deeper; specified by `RenderFromSound`, `RenderFromComplete`, `RenderFromOrder` and `RenderFromSize` |
| `Render.Render` | note.py:462-463 | the whole display, root `i` at path `[i]` and depth 0; specified by `RenderSound`, `RenderComplete` and `RenderPreOrder` |
| `Render.RenderSound` | note.py:462-474 | every displayed row has a non-empty path that resolves to exactly the task shown, at depth path length minus one |
| `Render.RenderComplete` | note.py:462-474 | every task in the tree is displayed at its path, with depth path length minus one |
| `Render.RenderPreOrder` | note.py:462-474 | rows are in pre-order (a node before its subtree, earlier siblings' subtrees first); no path is shown twice; there is one row per task |
| `TodoApp.TodoStore.constructor` | note.py:33-40 | the store starts with the tree read from storage |
| `TodoApp.TodoStore.GetTaskFromPath` | note.py:204-218 | the loop returns exactly `Resolve(tree, path)` |
| `TodoApp.TodoStore.GetParentListFromPath` | note.py:220-234 | the loop returns exactly `ParentList(tree, path)` |
| `TodoApp.TodoStore.AddTaskToPath` | note.py:244-262 | the new tree is `AddTask(old tree, text, path)` |
| `TodoApp.TodoStore.AddMainTask` | note.py:236-240 | the new tree is `AddTask(old tree, entry, no parent)` |
| `TodoApp.TodoStore.AddSubtask` | note.py:362-365 | the new tree is `AddTask(old tree, entry, path)` |
| `TodoApp.TodoStore.ToggleTask` | note.py:267-271 | the new tree is `Toggle(old tree, path)` |
| `TodoApp.TodoStore.EditTask` | note.py:275-305 | the new tree is `Edit(old tree, path, entry)` |
| `TodoApp.TodoStore.DeleteTask` | note.py:325-338 | the new tree is `Delete(old tree, path)` |

## Left out

- Everything tkinter: window set-up, styles, buttons, task widgets, dialogs, scrolling and key bindings. It is presentation with no stateable behaviour.
- The delete confirmation (`messagebox.askyesno`) is user interaction. Deletion is modelled as the confirmed branch.
- `load_tasks`, `save_tasks` and `on_closing` are JSON file I/O. The loaded tree is the constructor's parameter. The save after each mutation and the write-failure warning are not modelled.
- Negative indices: Python would accept them in a path. Paths here are sequences of natural numbers, which is all that the display ever produces.
- Missing keys: tasks without `subtasks` or `done` (tolerated by `.get`) arise only from hand-edited files. Every modelled task has all three fields.
- `TodoApp.TodoStore.EditTask` resolves the task when the edit is saved. The source resolves it when the dialog opens, then writes into that same dict when the dialog is saved. The two agree because the dialog is modal and nothing changes the tree in between.
- The source mutates, in place, the dict or list found by lookup. The model rebuilds the tree as a value (`Replace`, `RemoveAt`). The two agree because no task object appears twice in the tree.
