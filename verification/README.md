# Todo CLI collection logic, modelled in Dafny

A model of the in-memory logic of a small command-line todo tool (`main.py`). A collection is an ordered list of notes `{name, desc, prio, date}`. The user addresses a note by its 1-based position or by its name. Each command loads the list of the active save file, changes it in place and writes it back. The model covers what happens to the list between that load and that save:

- creating a note under a validated name;
- reading and editing a note, by index or by name;
- deleting a note, by index or by name;
- clearing the list;
- the multi-key `sort` command.

It also covers the helpers around these commands:

- the priority table and the fallback used for its labels;
- the `.json` file-name normalisation;
- the default filled into the settings when `filename` is missing.

Layout (one module per file):

- `wrappers.dfy`: `Option`.
- `text.dfy`: Python's `str.strip()`, ASCII `str.lower()`, `endswith`, and the order Python uses for strings, with its laws.
- `priorities.dfy`: `PRIORITIES` (codes, labels, weights) and the label lookup with its fallback to MEDIUM.
- `todos.dfy`: the note record, the index check, lookup by index and by name, removal of one position, and the field rewrite of `_update_todo`.
- `naming.dfy`: `_get_valid_name`. Its nested prompting loops are a method over the sequence of answers, proved against a function that states which candidate is taken.
- `sorting.dfy`: Python's stable `list.sort`, modelled by an insertion sort. This file also holds the plan of sorts that `sort_todos` derives from its arguments, and the lemmas on order, permutation and stability.
- `store.dfy`: the class `TodoList`. Its field `items` is the loaded list, and its methods are the commands that change it.
- `files.dfy`: `_append_extension`, save file names, and the settings default.

The model follows the code in two places where its guarantees are partial:

- Names are not kept unique across a collection:
  - `_get_valid_name` tests uniqueness on the unstripped input but stores the stripped name. So `" a"` is accepted next to an existing `"a"` (`Naming.PaddedCandidateDuplicates`).
  - Editing (`_update_todo`) stores whatever name and priority the user types, without any check.
- Sorting by priority raises `KeyError` when a note has an unknown code. Such a code can only arrive through an edit.

## Model

| member | source | states |
|---|---|---|
| Priorities.Weight | main.py:14-20 | a code has a weight exactly when it is one of `o,l,m,h,c`; every weight is one of 10, 20, …, 50 |
| Priorities.WeightsFollowCodeOrder | main.py:14-20 | weights strictly increase along `o < l < m < h < c` |
| Priorities.PriorityLabel | main.py:382-387 | a known code shows its own label; the label is MEDIUM exactly when the code is missing, unknown or `m` |
| Todos.CheckIndex | main.py:343-350 | an index is accepted exactly when `1 <= idx <= length`; below 1 and above the length are told apart, and the latter reports the length |
| Todos.GetItem | main.py:366-370 | returns a note exactly when the index check passes, and that note is `items[idx-1]` |
| Todos.FindByName | main.py:373-379 | returns nothing exactly when no note has the name; otherwise returns the position and the note of the first note with exactly that name |
| Todos.Without | main.py:122 | removing position `k` keeps the notes before it, moves every later note up by one, and loses exactly that one note |
| Todos.ApplyEdit | main.py:294-299 | each of name, description and priority is the answer given, or the old value when the default is accepted; the date becomes today |
| Todos.KeepingDefaultsOnlyRedates | main.py:295-298 | accepting every default changes only the date |
| Todos.ReadAfterDelete | main.py:117-124 | after deleting index `i`, reading index `i` gives the former note `i+1`, or fails when `i` was the last index |
| Todos.AppendedIsFound | main.py:41-50 | a note appended under a name that is not yet in the list is found by that name, at the last position |
| Text.Strip | main.py:355-363 | the stripped string is empty exactly when the input is blank, and otherwise neither starts nor ends with white space |
| Text.StripIsSlice | main.py:363 | the stripped string is a slice of the input between a blank prefix and a blank suffix |
| Text.StripIdempotent | main.py:363 | stripping twice equals stripping once |
| Naming.FirstAcceptable | main.py:353-363 | picks the first candidate that is neither blank nor an existing name; nothing when every candidate is refused |
| Naming.AcceptedNameIsStripped | main.py:361-363 | a stored name is non-blank and already stripped |
| Naming.AcceptedName | main.py:353-363 | nothing exactly when every candidate is blank or already a name; otherwise the stripped form of the first acceptable candidate, every earlier one being blank or taken |
| Naming.StrippedCandidatesStayUnique | main.py:358-363 | when the accepted candidate is already stripped, it is stored as it is and differs from every existing name, whatever the refused candidates before it were |
| Naming.StrippedAnswersStayUnique | main.py:353-363 | the same, stated for the first answer and the later re-prompt answers: only the accepted answer needs to be stripped |
| Naming.PaddedCandidateDuplicates | main.py:358-363 | the uniqueness test compares the unstripped input: `" a"` is accepted next to `"a"` and stored as the duplicate `"a"` |
| Naming.DuplicateIsRefused | main.py:358-360 | a name equal to an existing one is refused, so with no further answer nothing is created |
| Naming.ValidName | main.py:353-363 | the nested prompting loops return the stripped first acceptable candidate among the first answer and the re-prompt answers, or nothing when the answers run out |
| Sorting.StableSort | main.py:158-173 | one `list.sort` call returns a permutation of its input (same length, same multiset) |
| Sorting.StableSortSorted | main.py:158-173 | the result is ordered by the key, reversed when `reverse=True` |
| Sorting.StableSortKeepsTies | main.py:158-173 | stability, also with `reverse=True`: for every key value, the notes with that key keep their relative order |
| Sorting.SortedTiesDetermine | main.py:158-173 | two lists sorted by the same step, with the same tie groups, are equal |
| Sorting.StableSortIsUnique | main.py:158-173 | any sort that orders the list by the key and keeps every tie group in order returns exactly `StableSort`'s result |
| Sorting.KeyOfMeaning | main.py:158-173 | the keys are the name, the priority weight and the date string; a priority code outside the table gets weight 0, where `PRIORITIES[x['prio']]` raises `KeyError` |
| Sorting.SortedMeaning | main.py:157-174 | in a sorted list: `a` means names ascending and `na` descending, and `d` means dates latest first and `nd` earliest first, whatever the priority codes; `p` means weights heaviest first and `np` lightest first, between notes whose codes are known |
| Sorting.Lowered | main.py:155 | every argument lower-cased, with the count and the order kept |
| Sorting.Pick | main.py:157-174 | one `if`/`elif` pair: at most one sort, a sort exactly when either directive is present, along the pair's axis, in the first directive's direction exactly when the first directive is present |
| Sorting.Plan | main.py:155-174 | at most three sorts, applied in the fixed order name, priority, date |
| Sorting.PlanChoosesDirectives | main.py:155-174 | `a` wins over `na`, `p` over `np` and `d` over `nd`, in any order and letter case |
| Sorting.ApplyPlan | main.py:157-174 | the list after all requested sorts is a permutation of the loaded list |
| Sorting.ApplyPlanSnoc | main.py:157-174 | each further sort works on the list that the earlier sorts produced |
| Sorting.ApplyPlanAppend | main.py:157-174 | running the sorts in two parts: the second part sorts what the first part produced |
| Sorting.PlanAsPicks | main.py:157-174 | the planned sorts are the three `if`/`elif` pairs in turn, each applied to the previous pair's result |
| Sorting.PlanOrdersByLastStep | main.py:157-175 | the saved list is ordered by the last sort applied; notes that tie on its key keep the order the earlier sorts gave them |
| Sorting.EarlierStepBreaksTies | main.py:157-174 | within each tie group of the last sort, notes are ordered by the sort before it (e.g. name order within equal priority) |
| Sorting.PlanOfP | main.py:155-165 | the argument `p` or `P` requests exactly one sort, by priority with `reverse=True` |
| Sorting.SortPair | main.py:158-173 | sorting two notes swaps them exactly when the first may not precede the second |
| Sorting.HeavierFirst | main.py:163-165 | the priority sort (`reverse=True`) puts the note with the heavier weight first |
| Sorting.PrioritySortExample | main.py:155-165 | `sort p` (or `P`) on two notes with known priorities, the second heavier, swaps them |
| Store.DeleteByNameAsWritten | main.py:129-138 | as written, deleting by name fails with an uncaught error exactly when no note has the name; on a hit it saves the list without the first note of that name |
| Store.UnknownNameCrashesDelete | main.py:131-134 | `deln` of a missing name ends in that error, not at the `item is None` guard |
| Store.TodoList.constructor | main.py:41 | the loaded list is the starting state |
| Store.TodoList.Create | main.py:39-50 | the list grows by one note: old notes as a prefix, then the validated name with the given description and priority and today's date. The name is non-blank and stripped, and new to the list whenever the accepted answer was stripped. Nothing changes when no name is accepted |
| Store.TodoList.EditAt | main.py:85-95 | with a valid index only that note is rewritten, and length and every other note are unchanged; with an invalid index nothing changes |
| Store.TodoList.EditByName | main.py:98-112 | only the first note with the name is rewritten; nothing changes for an unknown name |
| Store.TodoList.DeleteAt | main.py:115-124 | a valid index yields `old[..idx-1] + old[idx..]`; an invalid one changes nothing |
| Store.TodoList.DeleteByName | main.py:127-138 | exactly the first note with the name is removed, and the rest keep their order; an unknown name changes nothing |
| Store.TodoList.Sort | main.py:152-175 | the saved list is the loaded list after the planned sorts; a priority sort over an unknown code fails and leaves the list unchanged |
| Store.TodoList.SortAlong | main.py:157-162 | one `if`/`elif` pair sorts the list in place by the sort it picks, or leaves the list alone when it picks none |
| Store.TodoList.Clear | main.py:178-186 | once confirmed, the saved list is empty; otherwise it is unchanged |
| Files.AppendExtension | main.py:266-269 | the result always begins with the given name, and adds the extension only when the lower-cased name lacks it |
| Files.AppendExtensionIdempotent | main.py:266-269 | for a lower-case extension, the result ends with it (case-insensitively), and a second normalisation changes nothing |
| Files.SaveFileName | main.py:195-198 | a save file name always ends in `.json` (ignoring case) and begins with the name the user gave |
| Files.SaveFileNameIdempotent | main.py:272-273 | `notes` and `notes.json` address the same file |
| Files.RenameTargetAsWritten | main.py:219 | the renamed file's name begins with the name the user gave |
| Files.RenameTargetLosesDot | main.py:213-221 | `rename-file todos notes` produces `notesjson`, while `set-file notes` looks for `notes.json` |
| Files.WithDefaultFilename | main.py:426-430 | the result always has `filename`; a missing one becomes `todos.json`, and every entry already there is kept |
| Files.WithDefaultFilenameIdempotent | main.py:428-429 | filling in the default twice equals filling it in once |

## Left out

- Reading and writing the JSON files is not modelled (`_get_todo_list`, `_save_todo_list`, `_get_save_file_path`, `_create_save_file`, the file side of `_get_settings` and `_save_settings`, `_get_env_path`). The model starts from the loaded list and ends with the list that is saved. The unbound variable that `_get_todo_list` returns after a JSON decode error is also not modelled.
- The file-catalog commands (`create_file`, `rename_file`, `delete_file`, `list_files`, `clear_files`, `_set_file`) work on the disk. Only their name normalisation is modelled (`Files.SaveFileName`, `Files.RenameTargetAsWritten`).
- Prompts and confirmations are not modelled as interaction. Their answers are parameters: the re-prompt answers of `_get_valid_name`, the three edit answers, and the `confirmed` flag of `clear`. Running out of answers stands for the prompt aborting the command.
- Presentation is not modelled: `click.echo` messages, the tables of `_print_todo*`, the colours of `_get_priority_as_text`, and `read-all`/`list`. Several of the sort messages name the opposite direction to the sort actually performed. The model follows the sorts, not the messages.
- `date.today()` is the parameter `today`.
- The crash-report path (logging and `requests.post`) is network I/O and is not modelled.
- Store.TodoList.EditAt: notes are values, so the in-place mutation of the dict that the list shares with `_update_todo` is modelled as replacing the element at the located position.
- Store.TodoList.Sort: on an unknown priority code, the source raises `KeyError` after the name sort has already reordered the list in memory. The list is not saved. The model returns `false` with the list unchanged, which is what ends up on disk.
- Sorting.StableSort: Python's Timsort is replaced by an insertion sort. What is proved about it (permutation, order, stability) is what Python guarantees for `list.sort`, and `Sorting.StableSortIsUnique` shows that these guarantees leave only one possible result.
- Sorting.KeyOf: a priority code outside the table gets weight 0 instead of raising `KeyError`. Only `Store.TodoList.Sort` refuses such lists; the lemmas about `StableSort` and `ApplyPlan` describe the weight-0 order for them.
- Text.Lower: only ASCII letters are lower-cased, while Python's `str.lower()` covers all of Unicode.
- Todos.Todo: every note is taken to have all four fields as strings. The source reads `x.get('name')`, which is `None` for a note without a name. The label lookup's handling of a missing `prio` is kept (`Priorities.PriorityLabel`).
- Files.WithDefaultFilename: the settings document is taken to hold only string values.

## Findings

| source | as written | input that shows it | evidently intended | confidence | as-written member | corrected member |
|---|---|---|---|---|---|---|
| main.py:131-134 | the lookup result is unpacked into `idx, item` before it is checked, so an unknown name raises `TypeError` and the guard `if item is None` can never fire | `deln milk` on a list without a note named `milk` | leave the list unchanged and save nothing, as `update_todo_by_name` does (main.py:107-109) | high; not executed | Store.DeleteByNameAsWritten | Store.TodoList.DeleteByName |
| main.py:219 | the new name is normalised with `'json'`, without the dot | `rename-file todos notes` renames the file to `notesjson` | `notes.json`, the name every other command gives to `notes` | high; not executed | Files.RenameTargetAsWritten | Files.SaveFileName |
