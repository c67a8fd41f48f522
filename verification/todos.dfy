/**
 * A todo collection as `main.py` holds it in memory: an ordered list of
 * records `{name, desc, prio, date}` that the user addresses by a 1-based
 * index or by name.
 */
module Todos {
  import opened Wrappers

  /** One note. `prio` is a priority code and `date` an ISO `YYYY-MM-DD` string. */
  datatype Todo = Todo(name: string, desc: string, prio: string, date: string)

  /** What `_is_index_valid` decides, with the bound it reports when the index is too large. */
  datatype IndexCheck = InRange | BelowOne | AboveLength(length: nat)

  /** `_is_index_valid(idx, length)`: a 1-based index is usable exactly when it lies in `[1, length]`. */
  function CheckIndex(idx: int, length: nat): (r: IndexCheck)
    ensures r == InRange <==> 1 <= idx <= length
    ensures r == BelowOne <==> idx < 1
    ensures r.AboveLength? <==> 1 <= idx && length < idx
    ensures r.AboveLength? ==> r.length == length
  {
    if idx < 1 then BelowOne
    else if idx > length then AboveLength(length)
    else InRange
  }

  /** `_get_todo_item`: the note at 1-based position `idx`, or nothing when the index is invalid. */
  function GetItem(idx: int, items: seq<Todo>): (r: Option<Todo>)
    ensures r.Some? <==> CheckIndex(idx, |items|) == InRange
    ensures r.Some? ==> r.value == items[idx - 1]
  {
    if CheckIndex(idx, |items|) == InRange then Some(items[idx - 1]) else None
  }

  /** Some note of `items` carries exactly the name `name`. */
  predicate NameTaken(name: string, items: seq<Todo>) {
    exists i :: 0 <= i < |items| && items[i].name == name
  }

  /**
   * `_get_todo_item_by_name`: the 0-based position and the note of the FIRST
   * note whose name equals `name` (exact, case-sensitive), or nothing.
   */
  function FindByName(name: string, items: seq<Todo>): (r: Option<(nat, Todo)>)
    ensures r.None? <==> !NameTaken(name, items)
    ensures r.Some? ==> r.value.0 < |items| && items[r.value.0] == r.value.1
    ensures r.Some? ==> r.value.1.name == name
    ensures r.Some? ==> forall j :: 0 <= j < r.value.0 ==> items[j].name != name
  {
    if items == [] then None
    else if items[0].name == name then Some((0, items[0]))
    else
      match FindByName(name, items[1..])
      case None => None
      case Some((i, t)) => Some((i + 1, t))
  }

  /** `items` with the note at 0-based position `k` taken out and the later ones moved up by one. */
  function Without(items: seq<Todo>, k: nat): (r: seq<Todo>)
    requires k < |items|
    ensures |r| == |items| - 1
    ensures forall j :: 0 <= j < k ==> r[j] == items[j]
    ensures forall j :: k <= j < |r| ==> r[j] == items[j + 1]
    ensures multiset(r) + multiset{items[k]} == multiset(items)
  {
    assert items == items[..k] + [items[k]] + items[k + 1..];
    items[..k] + items[k + 1..]
  }

  /**
   * The answers to the three `click.prompt` calls of `_update_todo`; `None`
   * stands for accepting the shown default, which is the current value.
   */
  datatype Edit = Edit(name: Option<string>, desc: Option<string>, prio: Option<string>)

  /** `_update_todo`: the note after editing on day `today`. */
  function ApplyEdit(t: Todo, e: Edit, today: string): (r: Todo)
    ensures r.date == today
    ensures e.name.Some? ==> r.name == e.name.value
    ensures e.name.None? ==> r.name == t.name
    ensures e.desc.Some? ==> r.desc == e.desc.value
    ensures e.desc.None? ==> r.desc == t.desc
    ensures e.prio.Some? ==> r.prio == e.prio.value
    ensures e.prio.None? ==> r.prio == t.prio
  {
    Todo(e.name.GetOr(t.name), e.desc.GetOr(t.desc), e.prio.GetOr(t.prio), today)
  }

  /** Accepting every default changes nothing but the date. */
  lemma KeepingDefaultsOnlyRedates(t: Todo, today: string)
    ensures ApplyEdit(t, Edit(None, None, None), today) == t.(date := today)
  {
  }

  /**
   * Reading position `idx` after deleting it yields what used to be the next
   * note, or fails when the deleted note was the last one.
   */
  lemma ReadAfterDelete(items: seq<Todo>, idx: int)
    requires CheckIndex(idx, |items|) == InRange
    ensures GetItem(idx, Without(items, idx - 1)) == if idx < |items| then Some(items[idx]) else None
  {
  }

  /** A note appended under a fresh name is found by that name, at the end. */
  lemma AppendedIsFound(items: seq<Todo>, t: Todo)
    requires !NameTaken(t.name, items)
    ensures FindByName(t.name, items + [t]) == Some((|items|, t))
  {
    assert (items + [t])[|items|].name == t.name;
  }
}
