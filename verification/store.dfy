/**
 * The commands of `main.py` that change the active collection. Each command
 * loads the list, changes it in place and saves it; `TodoList` is that list
 * between the load and the save, and each method states the list the
 * command saves.
 */
module Store {
  import opened Wrappers
  import opened Text
  import Priorities
  import opened Todos
  import opened Naming
  import opened Sorting

  /** How a command run ends, as far as the collection file is concerned. */
  datatype Run = Saved(items: seq<Todo>) | Crashed

  /**
   * `delete_todo_by_name` as written: for an unknown name
   * `_get_todo_item_by_name` returns `None`, and unpacking it into
   * `idx, item` raises before the guard `if item is None` is reached.
   */
  function DeleteByNameAsWritten(name: string, items: seq<Todo>): (r: Run)
    ensures r.Crashed? <==> !NameTaken(name, items)
    ensures r.Saved? ==> |r.items| == |items| - 1
    ensures r.Saved? ==> r.items == Without(items, FindByName(name, items).value.0)
  {
    match FindByName(name, items)
    case None => Crashed
    case Some((i, _)) => Saved(Without(items, i))
  }

  /** `deln` of a name that is not in the list aborts the command with an error instead of reporting it. */
  lemma UnknownNameCrashesDelete(items: seq<Todo>)
    requires forall i :: 0 <= i < |items| ==> items[i].name != "milk"
    ensures DeleteByNameAsWritten("milk", items) == Crashed
  {
  }

  /** Whether `args` asks for a sort by priority, whose key raises on an unknown code. */
  predicate PriorityRequested(args: seq<string>) {
    "p" in Lowered(args) || "np" in Lowered(args)
  }

  class TodoList {
    /** The notes of the active file, in stored order. */
    var items: seq<Todo>

    /** The list `_get_todo_list` loaded. */
    constructor (loaded: seq<Todo>)
      ensures items == loaded
    {
      items := loaded;
    }

    /**
     * `create_todo`: the name is settled by `_get_valid_name` from `name`
     * and the later `answers`, and the note is appended with today's date.
     * The stored name is stripped and not blank; it is new to the list when
     * the accepted candidate was already stripped, whatever the refused
     * answers before it looked like.
     */
    method Create(name: string, answers: seq<string>, desc: string, prio: string, today: string)
      returns (stored: Option<string>)
      requires prio in Priorities.Codes
      modifies this
      ensures stored == AcceptedName([name] + answers, old(items))
      ensures stored.Some? ==> items == old(items) + [Todo(stored.value, desc, prio, today)]
      ensures stored.None? ==> items == old(items)
      ensures stored.Some? ==> stored.value != [] && Strip(stored.value) == stored.value
      ensures var candidates := [name] + answers;
        var first := FirstAcceptable(candidates, old(items));
        (stored.Some? && first.Some? && Strip(candidates[first.value]) == candidates[first.value])
        ==> !NameTaken(stored.value, old(items))
    {
      stored := ValidName(name, items, answers);
      if stored.Some? {
        AcceptedNameIsStripped([name] + answers, items);
        var first := FirstAcceptable([name] + answers, items);
        if first.Some? && Strip(([name] + answers)[first.value]) == ([name] + answers)[first.value] {
          StrippedAnswersStayUnique(name, answers, items);
        }
        items := items + [Todo(stored.value, desc, prio, today)];
      }
    }

    /** `update_todo`: the note at 1-based `idx` is rewritten by `_update_todo`; nothing else changes. */
    method EditAt(idx: int, edit: Edit, today: string) returns (check: IndexCheck)
      modifies this
      ensures check == CheckIndex(idx, |old(items)|)
      ensures check == InRange ==> items == old(items)[idx - 1 := ApplyEdit(old(items)[idx - 1], edit, today)]
      ensures check != InRange ==> items == old(items)
    {
      check := CheckIndex(idx, |items|);
      var item := GetItem(idx, items);
      if item.None? {
        return;
      }
      items := items[idx - 1 := ApplyEdit(item.value, edit, today)];
    }

    /** `update_todo_by_name`: the first note named `name` is rewritten; nothing else changes. */
    method EditByName(name: string, edit: Edit, today: string) returns (found: Option<nat>)
      modifies this
      ensures found.Some? <==> NameTaken(name, old(items))
      ensures found.Some? ==> found.value == FindByName(name, old(items)).value.0
      ensures found.Some? ==> items == old(items)[found.value := ApplyEdit(old(items)[found.value], edit, today)]
      ensures found.None? ==> items == old(items)
    {
      var entry := FindByName(name, items);
      if entry.None? {
        return None;
      }
      var (i, item) := entry.value;
      items := items[i := ApplyEdit(item, edit, today)];
      found := Some(i);
    }

    /** `delete_todo`: the note at 1-based `idx` is removed and the later ones move up; an invalid index changes nothing. */
    method DeleteAt(idx: int) returns (check: IndexCheck)
      modifies this
      ensures check == CheckIndex(idx, |old(items)|)
      ensures check == InRange ==> items == old(items)[..idx - 1] + old(items)[idx..]
      ensures check != InRange ==> items == old(items)
    {
      check := CheckIndex(idx, |items|);
      if check != InRange {
        return;
      }
      items := Without(items, idx - 1);
    }

    /**
     * `delete_todo_by_name` with its evident intent: the first note named
     * `name` is removed, the others keep their order; an unknown name
     * changes nothing, like `update_todo_by_name` does.
     */
    method DeleteByName(name: string) returns (found: Option<nat>)
      modifies this
      ensures found.Some? <==> NameTaken(name, old(items))
      ensures found.Some? ==> found.value == FindByName(name, old(items)).value.0
      ensures found.Some? ==> items == Without(old(items), found.value)
      ensures found.None? ==> items == old(items)
    {
      var entry := FindByName(name, items);
      if entry.None? {
        return None;
      }
      found := Some(entry.value.0);
      items := Without(items, entry.value.0);
    }

    /**
     * `sort_todos(args)`: the sorts of `Plan(args)` applied in order. A
     * priority sort over a note with an unknown code raises `KeyError`
     * before anything is saved; then `ok` is false and the list is unchanged.
     */
    method Sort(args: seq<string>) returns (ok: bool)
      modifies this
      ensures ok <==> !(PriorityRequested(args) && !AllKnown(old(items)))
      ensures ok ==> items == ApplyPlan(old(items), Plan(args))
      ensures !ok ==> items == old(items)
    {
      var lowered := Lowered(args);
      if ("p" in lowered || "np" in lowered) && !AllKnown(items) {
        return false;
      }
      ghost var loaded := items;
      SortAlong(lowered, "a", "na", ByName, false);
      SortAlong(lowered, "p", "np", ByPriority, true);
      SortAlong(lowered, "d", "nd", ByDate, true);
      PlanAsPicks(loaded, args);
      ok := true;
    }

    /**
     * One `if on in args: sort(...) elif off in args: sort(...)` pair of
     * `sort_todos`: `on` sorts along `axis` with `reverse=reverseOn`, `off`
     * with the opposite direction.
     */
    method SortAlong(lowered: seq<string>, on: string, off: string, axis: Axis, reverseOn: bool)
      modifies this
      ensures items == ApplyPlan(old(items), Pick(lowered, on, off, axis, reverseOn))
    {
      if on in lowered {
        ApplyOneStep(items, Step(axis, reverseOn));
        items := StableSort(Step(axis, reverseOn), items);
      } else if off in lowered {
        ApplyOneStep(items, Step(axis, !reverseOn));
        items := StableSort(Step(axis, !reverseOn), items);
      }
    }

    /** `clear_todos`: once confirmed, the list saved is empty. */
    method Clear(confirmed: bool)
      modifies this
      ensures items == if confirmed then [] else old(items)
    {
      if confirmed {
        items := [];
      }
    }
  }
}
