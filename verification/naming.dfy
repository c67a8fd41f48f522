/**
 * `_get_valid_name`: the name a new note is stored under. The user's first
 * answer and every answer to the re-prompt "Please input a valid name" are
 * candidates; the first candidate that is not blank and is not already the
 * name of a note wins, and it is stored stripped of surrounding white space.
 * The uniqueness test compares the candidate BEFORE stripping, so a padded
 * candidate can still produce a duplicate name.
 */
module Naming {
  import opened Wrappers
  import opened Text
  import opened Todos

  /** A candidate the prompting loops let through. */
  predicate Acceptable(candidate: string, items: seq<Todo>) {
    !IsBlank(candidate) && !NameTaken(candidate, items)
  }

  /** The position of the first acceptable candidate, or nothing when every candidate is refused. */
  function FirstAcceptable(candidates: seq<string>, items: seq<Todo>): (r: Option<nat>)
    ensures r.Some? ==> r.value < |candidates| && Acceptable(candidates[r.value], items)
    ensures r.Some? ==> forall j :: 0 <= j < r.value ==> !Acceptable(candidates[j], items)
    ensures r.None? <==> forall j :: 0 <= j < |candidates| ==> !Acceptable(candidates[j], items)
  {
    if candidates == [] then None
    else if Acceptable(candidates[0], items) then Some(0)
    else
      match FirstAcceptable(candidates[1..], items)
      case None => None
      case Some(i) => Some(i + 1)
  }

  /** The name `_get_valid_name` returns for this sequence of candidates, or nothing when the prompts run out. */
  function AcceptedName(candidates: seq<string>, items: seq<Todo>): (r: Option<string>)
    ensures r.None? <==> forall j :: 0 <= j < |candidates| ==> !Acceptable(candidates[j], items)
    ensures r.Some? ==> exists i :: 0 <= i < |candidates| && Acceptable(candidates[i], items)
                                     && (forall j :: 0 <= j < i ==> !Acceptable(candidates[j], items))
                                     && r.value == Strip(candidates[i])
  {
    match FirstAcceptable(candidates, items)
    case None => None
    case Some(i) => Some(Strip(candidates[i]))
  }

  /** A stored name is never blank and carries no surrounding white space. */
  lemma AcceptedNameIsStripped(candidates: seq<string>, items: seq<Todo>)
    requires AcceptedName(candidates, items).Some?
    ensures var n := AcceptedName(candidates, items).value;
      n != [] && Strip(n) == n && !IsBlank(n)
  {
    var i := FirstAcceptable(candidates, items).value;
    StripIdempotent(candidates[i]);
  }

  /**
   * When the accepted candidate was already stripped, the stored name is that
   * candidate, and it differs from every existing name.
   */
  lemma StrippedCandidatesStayUnique(candidates: seq<string>, items: seq<Todo>)
    requires FirstAcceptable(candidates, items).Some?
    requires Strip(candidates[FirstAcceptable(candidates, items).value])
          == candidates[FirstAcceptable(candidates, items).value]
    ensures AcceptedName(candidates, items) == Some(candidates[FirstAcceptable(candidates, items).value])
    ensures !NameTaken(AcceptedName(candidates, items).value, items)
  {
  }

  /**
   * The same for `_get_valid_name`'s first answer `name` and its later
   * `answers`: refused answers, blank or padded, and answers never reached
   * do not matter.
   */
  lemma StrippedAnswersStayUnique(name: string, answers: seq<string>, items: seq<Todo>)
    requires FirstAcceptable([name] + answers, items).Some?
    requires Strip(([name] + answers)[FirstAcceptable([name] + answers, items).value])
          == ([name] + answers)[FirstAcceptable([name] + answers, items).value]
    ensures !NameTaken(AcceptedName([name] + answers, items).value, items)
  {
    StrippedCandidatesStayUnique([name] + answers, items);
  }

  /**
   * The gap in the uniqueness test: with a note named "a" stored, the
   * candidate " a" passes the test and is stored as the duplicate "a".
   */
  lemma PaddedCandidateDuplicates()
    ensures var items := [Todo("a", "", "m", "2024-01-01")];
      AcceptedName([" a"], items) == Some("a") && NameTaken("a", items)
  {
    var items := [Todo("a", "", "m", "2024-01-01")];
    assert !IsSpace('a');
    assert !IsBlank(" a") by { assert " a"[1] == 'a'; }
    assert !NameTaken(" a", items) by { assert items[0].name != " a"; }
    assert Strip(" a") == "a" by {
      assert SkipSpaces(" a", 0) == 1;
      assert " a"[1..2] == "a";
    }
    assert items[0].name == "a";
  }

  /** A candidate equal to a stored name is refused; with no further answer nothing is created. */
  lemma DuplicateIsRefused(name: string, desc: string, prio: string, date: string)
    ensures AcceptedName([name], [Todo(name, desc, prio, date)]) == None
  {
    assert [Todo(name, desc, prio, date)][0].name == name;
  }

  /** The first acceptable candidate is the one at `k` when it is acceptable and none before it is. */
  lemma FirstAcceptableAt(candidates: seq<string>, items: seq<Todo>, k: nat)
    requires k < |candidates| && Acceptable(candidates[k], items)
    requires forall j :: 0 <= j < k ==> !Acceptable(candidates[j], items)
    ensures FirstAcceptable(candidates, items) == Some(k)
  {
  }

  /** When the last candidate is refused as well as every earlier one, no name is accepted. */
  lemma NoneAcceptableAfter(candidates: seq<string>, items: seq<Todo>, k: nat)
    requires |candidates| == k + 1 && !Acceptable(candidates[k], items)
    requires forall j :: 0 <= j < k ==> !Acceptable(candidates[j], items)
    ensures FirstAcceptable(candidates, items) == None
  {
  }

  /**
   * `_get_valid_name(name, items)` with `answers` as the replies to the
   * re-prompts; `None` when the replies run out before a name is accepted
   * (the prompt then aborts the command).
   */
  method ValidName(name: string, items: seq<Todo>, answers: seq<string>) returns (r: Option<string>)
    ensures r == AcceptedName([name] + answers, items)
  {
    ghost var candidates := [name] + answers;
    var current := name;
    var used := 0;
    while true
      invariant used <= |answers| && current == candidates[used]
      invariant forall j :: 0 <= j < used ==> !Acceptable(candidates[j], items)
      decreases |answers| - used
    {
      ghost var start := used;
      // `not name.strip()`: Strip's contract makes it the same test as IsBlank
      while IsBlank(current)
        invariant start <= used <= |answers| && current == candidates[used]
        invariant forall j :: 0 <= j < used ==> !Acceptable(candidates[j], items)
        decreases |answers| - used
      {
        if used == |answers| {
          NoneAcceptableAfter(candidates, items, used);
          return None;
        }
        assert !Acceptable(candidates[used], items);
        current := answers[used];
        used := used + 1;
      }
      while NameTaken(current, items)
        invariant start <= used <= |answers| && current == candidates[used]
        invariant forall j :: 0 <= j < used ==> !Acceptable(candidates[j], items)
        invariant used > start || !IsBlank(current)
        decreases |answers| - used
      {
        if used == |answers| {
          NoneAcceptableAfter(candidates, items, used);
          return None;
        }
        assert !Acceptable(candidates[used], items);
        current := answers[used];
        used := used + 1;
      }
      if IsBlank(current) {
        continue;
      }
      FirstAcceptableAt(candidates, items, used);
      return Some(Strip(current));
    }
  }
}
