/**
 * `sort_todos`: up to three calls of Python's stable `list.sort`, by name,
 * then by priority weight, then by date string. Each call is modelled by
 * `StableSort`, an insertion sort that puts every record after all records
 * it may follow; its contract and lemmas state what Python promises of
 * `list.sort`: a permutation, ordered by the key (reversed when `reverse` is
 * set), and records with equal keys kept in their previous order.
 */
module Sorting {
  import opened Wrappers
  import opened Text
  import opened Priorities
  import opened Todos

  datatype Axis = ByName | ByPriority | ByDate

  /** One `todo_list.sort(key=..., reverse=...)` call. */
  datatype Step = Step(axis: Axis, reverse: bool)

  /** A sort key: the priority weight is a number, name and date are strings. */
  datatype Key = Num(n: int) | Str(s: string)

  /** The weight a sort sees for a priority code; only used once every code is known. */
  function Rank(code: string): int {
    Weight(code).GetOr(0)
  }

  /** The key function of the sort along `axis`. */
  function KeyOf(axis: Axis, t: Todo): Key {
    match axis
    case ByName => Str(t.name)
    case ByPriority => Num(Rank(t.prio))
    case ByDate => Str(t.date)
  }

  /**
   * The three sort keys: the name, the date, and the priority weight. A code
   * outside the table gets weight 0 here, where the source's
   * `PRIORITIES[x['prio']]` raises `KeyError`.
   */
  lemma KeyOfMeaning(axis: Axis, t: Todo)
    ensures KeyOf(axis, t).Num? <==> axis == ByPriority
    ensures axis == ByName ==> KeyOf(axis, t) == Str(t.name)
    ensures axis == ByDate ==> KeyOf(axis, t) == Str(t.date)
    ensures axis == ByPriority && t.prio in Codes ==> KeyOf(axis, t) == Num(Weight(t.prio).value)
    ensures axis == ByPriority && t.prio !in Codes ==> KeyOf(axis, t) == Num(0)
  {
  }

  /** Python's `<=` on keys of one kind (the two kinds are never compared by the source). */
  predicate KeyLe(a: Key, b: Key) {
    match (a, b)
    case (Num(x), Num(y)) => x <= y
    case (Str(x), Str(y)) => StrLe(x, y)
    case (Num(_), Str(_)) => true
    case (Str(_), Num(_)) => false
  }

  /** `a` may stand before `b` in a list that `step` has sorted. */
  predicate Precedes(step: Step, a: Todo, b: Todo) {
    var ka, kb := KeyOf(step.axis, a), KeyOf(step.axis, b);
    if step.reverse then KeyLe(kb, ka) else KeyLe(ka, kb)
  }

  predicate SortedBy(step: Step, s: seq<Todo>) {
    forall i, j :: 0 <= i < j < |s| ==> Precedes(step, s[i], s[j])
  }

  /** The records of `s` whose key along `axis` is `k`, in their order in `s`. */
  function Ties(axis: Axis, s: seq<Todo>, k: Key): seq<Todo> {
    if s == [] then [] else (if KeyOf(axis, s[0]) == k then [s[0]] else []) + Ties(axis, s[1..], k)
  }

  lemma KeyLeReflexive(a: Key)
    ensures KeyLe(a, a)
  {
    if a.Str? {
      StrLeReflexive(a.s);
    }
  }

  lemma KeyLeTotal(a: Key, b: Key)
    ensures KeyLe(a, b) || KeyLe(b, a)
  {
    if a.Str? && b.Str? {
      StrLeTotal(a.s, b.s);
    }
  }

  lemma KeyLeTransitive(a: Key, b: Key, c: Key)
    requires KeyLe(a, b) && KeyLe(b, c)
    ensures KeyLe(a, c)
  {
    if a.Str? && b.Str? && c.Str? {
      StrLeTransitive(a.s, b.s, c.s);
    }
  }

  lemma KeyLeAntisymmetric(a: Key, b: Key)
    requires KeyLe(a, b) && KeyLe(b, a)
    ensures a == b
  {
    if a.Str? && b.Str? {
      StrLeAntisymmetric(a.s, b.s);
    }
  }

  /** Two records that may each precede the other carry the same key. */
  lemma PrecedesAntisymmetric(step: Step, a: Todo, b: Todo)
    requires Precedes(step, a, b) && Precedes(step, b, a)
    ensures KeyOf(step.axis, a) == KeyOf(step.axis, b)
  {
    KeyLeAntisymmetric(KeyOf(step.axis, a), KeyOf(step.axis, b));
  }

  /** Records with equal keys may stand in either order. */
  lemma EqualKeysPrecede(step: Step, a: Todo, b: Todo)
    requires KeyOf(step.axis, a) == KeyOf(step.axis, b)
    ensures Precedes(step, a, b)
  {
    KeyLeReflexive(KeyOf(step.axis, a));
  }

  lemma PrecedesTotal(step: Step, a: Todo, b: Todo)
    ensures Precedes(step, a, b) || Precedes(step, b, a)
  {
    KeyLeTotal(KeyOf(step.axis, a), KeyOf(step.axis, b));
  }

  lemma PrecedesTransitive(step: Step, a: Todo, b: Todo, c: Todo)
    requires Precedes(step, a, b) && Precedes(step, b, c)
    ensures Precedes(step, a, c)
  {
    var ka, kb, kc := KeyOf(step.axis, a), KeyOf(step.axis, b), KeyOf(step.axis, c);
    if step.reverse {
      KeyLeTransitive(kc, kb, ka);
    } else {
      KeyLeTransitive(ka, kb, kc);
    }
  }

  /** `r` with `x` placed after the last record of `r` that may precede it. */
  function Insert(step: Step, x: Todo, r: seq<Todo>): (out: seq<Todo>)
    ensures |out| == |r| + 1
    ensures multiset(out) == multiset(r) + multiset{x}
  {
    if r == [] then [x]
    else if Precedes(step, r[|r| - 1], x) then r + [x]
    else
      assert r == r[..|r| - 1] + [r[|r| - 1]];
      Insert(step, x, r[..|r| - 1]) + [r[|r| - 1]]
  }

  /** Python's `list.sort(key, reverse)` on `s`: each record inserted in input order. */
  function StableSort(step: Step, s: seq<Todo>): (r: seq<Todo>)
    ensures |r| == |s|
    ensures multiset(r) == multiset(s)
  {
    if s == [] then []
    else
      assert s == s[..|s| - 1] + [s[|s| - 1]];
      Insert(step, s[|s| - 1], StableSort(step, s[..|s| - 1]))
  }

  lemma {:induction false} TiesAppend(axis: Axis, a: seq<Todo>, b: seq<Todo>, k: Key)
    ensures Ties(axis, a + b, k) == Ties(axis, a, k) + Ties(axis, b, k)
  {
    if a == [] {
      assert a + b == b;
    } else {
      var head := if KeyOf(axis, a[0]) == k then [a[0]] else [];
      calc {
        Ties(axis, a + b, k);
        { assert (a + b)[0] == a[0]; }
        head + Ties(axis, (a + b)[1..], k);
        { assert (a + b)[1..] == a[1..] + b; }
        head + Ties(axis, a[1..] + b, k);
        { TiesAppend(axis, a[1..], b, k); }
        head + (Ties(axis, a[1..], k) + Ties(axis, b, k));
        (head + Ties(axis, a[1..], k)) + Ties(axis, b, k);
        Ties(axis, a, k) + Ties(axis, b, k);
      }
    }
  }

  /** A sorted list stays sorted when a record that every element may precede is appended. */
  lemma SortedSnoc(step: Step, s: seq<Todo>, y: Todo)
    requires SortedBy(step, s)
    requires forall i :: 0 <= i < |s| ==> Precedes(step, s[i], y)
    ensures SortedBy(step, s + [y])
  {
    var out := s + [y];
    forall i, j | 0 <= i < j < |out|
      ensures Precedes(step, out[i], out[j])
    {
      assert out[i] == s[i];
      if j < |s| {
        assert out[j] == s[j];
      }
    }
  }

  /** Appending a record that may precede `y` keeps every record of the list able to precede `y`. */
  lemma AllPrecedeSnoc(step: Step, s: seq<Todo>, z: Todo, y: Todo)
    requires forall i :: 0 <= i < |s| ==> Precedes(step, s[i], y)
    requires Precedes(step, z, y)
    ensures forall i :: 0 <= i < |s + [z]| ==> Precedes(step, (s + [z])[i], y)
  {
    var out := s + [z];
    forall i | 0 <= i < |out|
      ensures Precedes(step, out[i], y)
    {
      if i < |s| {
        assert out[i] == s[i];
      }
    }
  }

  /** If `x` and every record of `r` may precede `y`, so may every record after the insertion. */
  lemma {:induction false} InsertBelow(step: Step, x: Todo, r: seq<Todo>, y: Todo)
    requires forall i :: 0 <= i < |r| ==> Precedes(step, r[i], y)
    requires Precedes(step, x, y)
    ensures forall i :: 0 <= i < |Insert(step, x, r)| ==> Precedes(step, Insert(step, x, r)[i], y)
  {
    if r == [] {
      assert Insert(step, x, r) == [x];
    } else if Precedes(step, r[|r| - 1], x) {
      assert Insert(step, x, r) == r + [x];
      AllPrecedeSnoc(step, r, x, y);
    } else {
      var init, last := r[..|r| - 1], r[|r| - 1];
      assert Insert(step, x, r) == Insert(step, x, init) + [last];
      InsertBelow(step, x, init, y);
      AllPrecedeSnoc(step, Insert(step, x, init), last, y);
    }
  }

  lemma {:induction false} InsertSorted(step: Step, x: Todo, r: seq<Todo>)
    requires SortedBy(step, r)
    ensures SortedBy(step, Insert(step, x, r))
  {
    if r != [] {
      var init, last := r[..|r| - 1], r[|r| - 1];
      if Precedes(step, last, x) {
        forall i | 0 <= i < |r|
          ensures Precedes(step, r[i], x)
        {
          if i < |r| - 1 {
            PrecedesTransitive(step, r[i], last, x);
          }
        }
        SortedSnoc(step, r, x);
      } else {
        PrecedesTotal(step, last, x);
        assert SortedBy(step, init) by {
          forall i, j | 0 <= i < j < |init|
            ensures Precedes(step, init[i], init[j])
          {
            assert init[i] == r[i] && init[j] == r[j];
          }
        }
        InsertSorted(step, x, init);
        InsertBelow(step, x, init, last);
        SortedSnoc(step, Insert(step, x, init), last);
        assert Insert(step, x, r) == Insert(step, x, init) + [last];
      }
    }
  }

  /** The tie group of a one-record list. */
  lemma TiesSingleton(axis: Axis, x: Todo, k: Key)
    ensures Ties(axis, [x], k) == if KeyOf(axis, x) == k then [x] else []
  {
    assert [x][1..] == [];
  }

  /** Ties of `init + [last]`, split at the last record. */
  lemma TiesSnoc(axis: Axis, init: seq<Todo>, last: Todo, k: Key)
    ensures Ties(axis, init + [last], k)
         == Ties(axis, init, k) + (if KeyOf(axis, last) == k then [last] else [])
  {
    TiesAppend(axis, init, [last], k);
    TiesSingleton(axis, last, k);
  }

  /** A record that may not follow `last` is inserted before it. */
  lemma InsertPast(step: Step, x: Todo, init: seq<Todo>, last: Todo)
    requires !Precedes(step, last, x)
    ensures Insert(step, x, init + [last]) == Insert(step, x, init) + [last]
  {
    assert (init + [last])[..|init|] == init;
  }

  /** Inserting `x` adds it at the end of its key's tie group and leaves every other group alone. */
  lemma {:induction false} InsertTies(step: Step, x: Todo, r: seq<Todo>, k: Key)
    ensures Ties(step.axis, Insert(step, x, r), k)
         == Ties(step.axis, r, k) + (if KeyOf(step.axis, x) == k then [x] else [])
  {
    var axis := step.axis;
    if r == [] {
      TiesSingleton(axis, x, k);
    } else if Precedes(step, r[|r| - 1], x) {
      TiesSnoc(axis, r, x, k);
    } else {
      var init, last := r[..|r| - 1], r[|r| - 1];
      assert r == init + [last];
      if KeyOf(axis, x) == k && KeyOf(axis, last) == k {
        EqualKeysPrecede(step, last, x);
      } else {
        var ins := Insert(step, x, init);
        var a := Ties(axis, init, k);
        var xs := if KeyOf(axis, x) == k then [x] else [];
        var ls := if KeyOf(axis, last) == k then [last] else [];
        calc {
          Ties(axis, Insert(step, x, r), k);
          { InsertPast(step, x, init, last); }
          Ties(axis, ins + [last], k);
          { TiesSnoc(axis, ins, last, k); }
          Ties(axis, ins, k) + ls;
          { InsertTies(step, x, init, k); }
          (a + xs) + ls;
          { if xs == [] { assert a + xs == a; } else { assert ls == []; } }
          (a + ls) + xs;
          { TiesSnoc(axis, init, last, k); }
          Ties(axis, r, k) + xs;
        }
      }
    }
  }

  lemma SortedTail(step: Step, s: seq<Todo>)
    requires SortedBy(step, s) && s != []
    ensures SortedBy(step, s[1..])
  {
    forall i, j | 0 <= i < j < |s| - 1
      ensures Precedes(step, s[1..][i], s[1..][j])
    {
      assert s[1..][i] == s[i + 1] && s[1..][j] == s[j + 1];
    }
  }

  /** A non-empty list has a non-empty tie group: that of its first record's key. */
  lemma TiesOfHead(axis: Axis, s: seq<Todo>)
    requires s != []
    ensures Ties(axis, s, KeyOf(axis, s[0])) != []
  {
  }

  /**
   * A sorted list is determined by its tie groups: two lists sorted by the
   * same step, with the same records in the same order for every key, are
   * equal.
   */
  lemma {:induction false} SortedTiesDetermine(step: Step, r1: seq<Todo>, r2: seq<Todo>)
    requires SortedBy(step, r1) && SortedBy(step, r2)
    requires forall k :: Ties(step.axis, r1, k) == Ties(step.axis, r2, k)
    ensures r1 == r2
    decreases |r1|
  {
    var axis := step.axis;
    if r1 == [] && r2 != [] {
      TiesOfHead(axis, r2);
    } else if r1 != [] && r2 == [] {
      TiesOfHead(axis, r1);
    } else if r1 != [] && r2 != [] {
      var x, y := r1[0], r2[0];
      var kx, ky := KeyOf(axis, x), KeyOf(axis, y);
      assert x == y by {
        assert Ties(axis, r1, kx)[0] == x;
        if ky == kx {
          assert Ties(axis, r2, kx)[0] == y;
        } else {
          assert x in Ties(axis, r2, kx);
          TiesMembers(axis, r2, kx, x);
          var m :| 0 <= m < |r2| && r2[m] == x;
          assert Precedes(step, y, x);
          assert Ties(axis, r2, ky)[0] == y;
          assert y in Ties(axis, r1, ky);
          TiesMembers(axis, r1, ky, y);
          var n :| 0 <= n < |r1| && r1[n] == y;
          assert Precedes(step, x, y);
          PrecedesAntisymmetric(step, x, y);
        }
      }
      SortedTail(step, r1);
      SortedTail(step, r2);
      forall k
        ensures Ties(axis, r1[1..], k) == Ties(axis, r2[1..], k)
      {
        var h := if KeyOf(axis, x) == k then [x] else [];
        var t1, t2 := Ties(axis, r1[1..], k), Ties(axis, r2[1..], k);
        assert Ties(axis, r1, k) == h + t1;
        assert Ties(axis, r2, k) == h + t2;
        assert t1 == (h + t1)[|h|..];
        assert t2 == (h + t2)[|h|..];
      }
      SortedTiesDetermine(step, r1[1..], r2[1..]);
      assert r1 == [x] + r1[1..];
      assert r2 == [y] + r2[1..];
    }
  }

  /**
   * Any sort that orders `s` by `step` and keeps every tie group in its
   * order (what Python promises of `list.sort`, whatever algorithm it uses)
   * returns exactly `StableSort(step, s)`.
   */
  lemma StableSortIsUnique(step: Step, s: seq<Todo>, r: seq<Todo>)
    requires SortedBy(step, r)
    requires forall k :: Ties(step.axis, r, k) == Ties(step.axis, s, k)
    ensures r == StableSort(step, s)
  {
    StableSortSorted(step, s);
    forall k
      ensures Ties(step.axis, StableSort(step, s), k) == Ties(step.axis, s, k)
    {
      StableSortKeepsTies(step, s, k);
    }
    SortedTiesDetermine(step, r, StableSort(step, s));
  }

  /** The result of `StableSort` is ordered by its key (`Precedes` from every record to every later one). */
  lemma {:induction false} StableSortSorted(step: Step, s: seq<Todo>)
    ensures SortedBy(step, StableSort(step, s))
  {
    if s != [] {
      StableSortSorted(step, s[..|s| - 1]);
      InsertSorted(step, s[|s| - 1], StableSort(step, s[..|s| - 1]));
    }
  }

  /** Stability: for every key, the records carrying it appear in the same order before and after the sort. */
  lemma {:induction false} StableSortKeepsTies(step: Step, s: seq<Todo>, k: Key)
    ensures Ties(step.axis, StableSort(step, s), k) == Ties(step.axis, s, k)
  {
    if s != [] {
      var init, last := s[..|s| - 1], s[|s| - 1];
      assert s == init + [last];
      var sorted := StableSort(step, init);
      StableSortKeepsTies(step, init, k);
      InsertTies(step, last, sorted, k);
      TiesSnoc(step.axis, init, last, k);
    }
  }

  lemma {:induction false} TiesMembers(axis: Axis, s: seq<Todo>, k: Key, y: Todo)
    requires y in Ties(axis, s, k)
    ensures y in s
  {
    if s[0] != y {
      TiesMembers(axis, s[1..], k, y);
    }
  }

  /** A subsequence picked out of a sorted list is sorted. */
  lemma {:induction false} TiesOfSorted(step: Step, axis: Axis, s: seq<Todo>, k: Key)
    requires SortedBy(step, s)
    ensures SortedBy(step, Ties(axis, s, k))
  {
    if s != [] {
      var rest := Ties(axis, s[1..], k);
      assert SortedBy(step, s[1..]) by {
        forall i, j | 0 <= i < j < |s[1..]|
          ensures Precedes(step, s[1..][i], s[1..][j])
        {
          assert s[1..][i] == s[i + 1] && s[1..][j] == s[j + 1];
        }
      }
      TiesOfSorted(step, axis, s[1..], k);
      if KeyOf(axis, s[0]) == k {
        forall j | 0 <= j < |rest|
          ensures Precedes(step, s[0], rest[j])
        {
          TiesMembers(axis, s[1..], k, rest[j]);
          var m :| 0 <= m < |s[1..]| && s[1..][m] == rest[j];
          assert s[m + 1] == rest[j];
        }
        assert Ties(axis, s, k) == [s[0]] + rest;
      } else {
        assert Ties(axis, s, k) == rest;
      }
    }
  }

  /** `args` after `tuple(x.lower() for x in args)`. */
  function Lowered(args: seq<string>): (r: seq<string>)
    ensures |r| == |args| && forall i :: 0 <= i < |args| ==> r[i] == Lower(args[i])
  {
    seq(|args|, i requires 0 <= i < |args| => Lower(args[i]))
  }

  /** One `if on in args: ... elif off in args: ...` pair: the directive `on` wins over `off`. */
  function Pick(lowered: seq<string>, on: string, off: string, axis: Axis, reverseOn: bool): (pick: seq<Step>)
    ensures |pick| <= 1
    ensures pick != [] <==> on in lowered || off in lowered
    ensures pick != [] ==> pick[0].axis == axis && (pick[0].reverse == reverseOn <==> on in lowered)
  {
    if on in lowered then [Step(axis, reverseOn)]
    else if off in lowered then [Step(axis, !reverseOn)]
    else []
  }

  /** The position of an axis in the fixed order in which `sort_todos` applies them. */
  function AxisOrder(axis: Axis): nat {
    match axis
    case ByName => 0
    case ByPriority => 1
    case ByDate => 2
  }

  /**
   * The sorts `sort_todos(args)` performs, in order: `a`/`na` sort by name
   * ascending/descending, `p`/`np` by priority weight descending/ascending,
   * `d`/`nd` by date descending/ascending; arguments are compared lower-cased.
   */
  function Plan(args: seq<string>): (plan: seq<Step>)
    ensures |plan| <= 3
    ensures forall i, j :: 0 <= i < j < |plan| ==> AxisOrder(plan[i].axis) < AxisOrder(plan[j].axis)
  {
    var lowered := Lowered(args);
    Pick(lowered, "a", "na", ByName, false)
      + Pick(lowered, "p", "np", ByPriority, true)
      + Pick(lowered, "d", "nd", ByDate, true)
  }

  /**
   * Which directive wins on each axis: `a` over `na`, `p` over `np`, `d` over
   * `nd`, whatever their order and case on the command line.
   */
  lemma PlanChoosesDirectives(args: seq<string>)
    ensures var plan, lowered := Plan(args), Lowered(args);
      && (Step(ByName, false) in plan <==> "a" in lowered)
      && (Step(ByName, true) in plan <==> "na" in lowered && "a" !in lowered)
      && (Step(ByPriority, true) in plan <==> "p" in lowered)
      && (Step(ByPriority, false) in plan <==> "np" in lowered && "p" !in lowered)
      && (Step(ByDate, true) in plan <==> "d" in lowered)
      && (Step(ByDate, false) in plan <==> "nd" in lowered && "d" !in lowered)
  {
  }

  /** The list after the sorts of `plan`, applied first to last. */
  function ApplyPlan(s: seq<Todo>, plan: seq<Step>): (r: seq<Todo>)
    ensures multiset(r) == multiset(s)
  {
    if plan == [] then s else StableSort(plan[|plan| - 1], ApplyPlan(s, plan[..|plan| - 1]))
  }

  /** Applying one more sort after a plan. */
  lemma ApplyPlanSnoc(s: seq<Todo>, plan: seq<Step>, step: Step)
    ensures ApplyPlan(s, plan + [step]) == StableSort(step, ApplyPlan(s, plan))
  {
    assert (plan + [step])[..|plan|] == plan;
  }

  /** Running a plan in two parts: the second part sorts what the first part produced. */
  lemma {:induction false} ApplyPlanAppend(s: seq<Todo>, first: seq<Step>, second: seq<Step>)
    ensures ApplyPlan(s, first + second) == ApplyPlan(ApplyPlan(s, first), second)
    decreases |second|
  {
    if second == [] {
      assert first + second == first;
    } else {
      var init, last := second[..|second| - 1], second[|second| - 1];
      assert second == init + [last];
      assert first + second == (first + init) + [last];
      ApplyPlanSnoc(s, first + init, last);
      ApplyPlanAppend(s, first, init);
      ApplyPlanSnoc(ApplyPlan(s, first), init, last);
    }
  }

  /** `sort_todos` as its three `if`/`elif` pairs, each sorting what the pair before it produced. */
  lemma PlanAsPicks(s: seq<Todo>, args: seq<string>)
    ensures var lowered := Lowered(args);
      ApplyPlan(s, Plan(args))
      == ApplyPlan(ApplyPlan(ApplyPlan(s, Pick(lowered, "a", "na", ByName, false)),
                             Pick(lowered, "p", "np", ByPriority, true)),
                   Pick(lowered, "d", "nd", ByDate, true))
  {
    var lowered := Lowered(args);
    var byName := Pick(lowered, "a", "na", ByName, false);
    var byPriority := Pick(lowered, "p", "np", ByPriority, true);
    var byDate := Pick(lowered, "d", "nd", ByDate, true);
    ApplyPlanAppend(s, byName + byPriority, byDate);
    ApplyPlanAppend(s, byName, byPriority);
  }

  /** A plan of one sort is that sort. */
  lemma ApplyOneStep(s: seq<Todo>, step: Step)
    ensures ApplyPlan(s, [step]) == StableSort(step, s)
  {
    ApplyPlanSnoc(s, [], step);
    assert [] + [step] == [step];
  }

  /**
   * After `sort_todos` the list is ordered by the last sort applied, and
   * records with equal keys on that sort keep the order the earlier sorts
   * gave them.
   */
  lemma PlanOrdersByLastStep(s: seq<Todo>, earlier: seq<Step>, last: Step)
    ensures SortedBy(last, ApplyPlan(s, earlier + [last]))
    ensures forall k :: Ties(last.axis, ApplyPlan(s, earlier + [last]), k) == Ties(last.axis, ApplyPlan(s, earlier), k)
  {
    var before := ApplyPlan(s, earlier);
    ApplyPlanSnoc(s, earlier, last);
    StableSortSorted(last, before);
    forall k
      ensures Ties(last.axis, StableSort(last, before), k) == Ties(last.axis, before, k)
    {
      StableSortKeepsTies(last, before, k);
    }
  }

  /**
   * The multi-key order: among records with equal keys on the last sort, the
   * order is that of the sort just before it (for example, notes of equal
   * priority stay in name order after `sort a p`).
   */
  lemma EarlierStepBreaksTies(s: seq<Todo>, earlier: seq<Step>, previous: Step, last: Step, k: Key)
    ensures SortedBy(previous, Ties(last.axis, ApplyPlan(s, earlier + [previous, last]), k))
  {
    assert earlier + [previous, last] == (earlier + [previous]) + [last];
    PlanOrdersByLastStep(s, earlier + [previous], last);
    PlanOrdersByLastStep(s, earlier, previous);
    TiesOfSorted(previous, last.axis, ApplyPlan(s, earlier + [previous]), k);
  }

  /** Every record has one of the five priority codes, so the priority sort can compute its keys. */
  predicate AllKnown(items: seq<Todo>) {
    forall i :: 0 <= i < |items| ==> Weight(items[i].prio).Some?
  }

  /** The single argument `p` (in either case) asks for one sort: by priority, heaviest first. */
  lemma PlanOfP(p: string)
    requires p == "p" || p == "P"
    ensures Plan([p]) == [Step(ByPriority, true)]
  {
    assert Lower(p) == "p" by {
      assert Lower(p)[0] == LowerChar(p[0]) == 'p';
    }
    assert Lowered([p]) == ["p"];
  }

  /** Sorting two records swaps them exactly when the first may not precede the second. */
  lemma SortPair(step: Step, a: Todo, b: Todo)
    ensures StableSort(step, [a, b]) == if Precedes(step, a, b) then [a, b] else [b, a]
  {
    assert [a][..0] == [];
    assert StableSort(step, [a]) == [a];
    assert [a, b][..1] == [a];
  }

  /**
   * What a sorted list means along each axis: names ascending for `a` and
   * descending for `na`; weights heaviest first for `p` and lightest first
   * for `np` (between notes whose codes are known); date strings latest
   * first for `d` and earliest first for `nd`, whatever the priority codes.
   */
  lemma SortedMeaning(step: Step, s: seq<Todo>, i: nat, j: nat)
    requires SortedBy(step, s) && i < j < |s|
    ensures step == Step(ByName, false) ==> StrLe(s[i].name, s[j].name)
    ensures step == Step(ByName, true) ==> StrLe(s[j].name, s[i].name)
    ensures step == Step(ByPriority, true) && Weight(s[i].prio).Some? && Weight(s[j].prio).Some?
            ==> Weight(s[i].prio).value >= Weight(s[j].prio).value
    ensures step == Step(ByPriority, false) && Weight(s[i].prio).Some? && Weight(s[j].prio).Some?
            ==> Weight(s[i].prio).value <= Weight(s[j].prio).value
    ensures step == Step(ByDate, true) ==> StrLe(s[j].date, s[i].date)
    ensures step == Step(ByDate, false) ==> StrLe(s[i].date, s[j].date)
  {
    assert Precedes(step, s[i], s[j]);
  }

  /** The priority sort puts the heavier of two notes first. */
  lemma HeavierFirst(a: Todo, b: Todo)
    requires Weight(a.prio).Some? && Weight(b.prio).Some?
    requires Weight(a.prio).value < Weight(b.prio).value
    ensures StableSort(Step(ByPriority, true), [a, b]) == [b, a]
  {
    SortPair(Step(ByPriority, true), a, b);
  }

  /** `sort p` (in either case) on a note followed by one of heavier priority puts the heavier one first. */
  lemma PrioritySortExample(p: string, a: Todo, b: Todo)
    requires p == "p" || p == "P"
    requires Weight(a.prio).Some? && Weight(b.prio).Some?
    requires Weight(a.prio).value < Weight(b.prio).value
    ensures ApplyPlan([a, b], Plan([p])) == [b, a]
  {
    PlanOfP(p);
    ApplyOneStep([a, b], Step(ByPriority, true));
    HeavierFirst(a, b);
  }
}
