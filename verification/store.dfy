/** The planner's state object and the handlers that change it: adding, editing and
    deleting tasks, roster entries and budget lines, clearing finished tasks, importing a
    roster file and the budget totals shown under the budget list. Every handler saves the
    state and redraws a list afterwards; saving and drawing are not part of this model. */
module Store {
  import opened Seqs
  import opened Strings
  import opened Entities
  import opened TaskInput
  import opened Csv

  // ---------------------------------------------------------------- budget totals

  /** The total of the estimated amounts, added up from the first line to the last. */
  function SumEstimated(b: seq<BudgetItem>): int {
    if b == [] then 0 else SumEstimated(b[..|b| - 1]) + b[|b| - 1].estimated
  }

  /** The total of the actual amounts, added up from the first line to the last. */
  function SumActual(b: seq<BudgetItem>): int {
    if b == [] then 0 else SumActual(b[..|b| - 1]) + b[|b| - 1].actual
  }

  /** The totals of no lines are zero; with no negative amount a total is non-negative and
      at least every single amount. */
  lemma {:induction false} SumBounds(b: seq<BudgetItem>)
    ensures b == [] ==> SumEstimated(b) == 0 && SumActual(b) == 0
    ensures (forall i :: 0 <= i < |b| ==> b[i].estimated >= 0) ==>
              SumEstimated(b) >= 0 && forall i :: 0 <= i < |b| ==> b[i].estimated <= SumEstimated(b)
    ensures (forall i :: 0 <= i < |b| ==> b[i].actual >= 0) ==>
              SumActual(b) >= 0 && forall i :: 0 <= i < |b| ==> b[i].actual <= SumActual(b)
  {
    if b != [] {
      var p := b[..|b| - 1];
      SumBounds(p);
      assert forall i :: 0 <= i < |p| ==> p[i] == b[i];
    }
  }

  /** The totals of two lists placed one after the other add up. */
  lemma {:induction false} SumAppend(a: seq<BudgetItem>, b: seq<BudgetItem>)
    ensures SumEstimated(a + b) == SumEstimated(a) + SumEstimated(b)
    ensures SumActual(a + b) == SumActual(a) + SumActual(b)
  {
    if b == [] {
      assert a + b == a;
    } else {
      var b' := b[..|b| - 1];
      assert (a + b)[..|a + b| - 1] == a + b';
      assert (a + b)[|a + b| - 1] == b[|b| - 1];
      SumAppend(a, b');
    }
  }

  /** Changing one line's estimate moves the estimated total by the difference and leaves
      the actual total alone. */
  lemma SumSetEstimated(b: seq<BudgetItem>, i: nat, v: int)
    requires i < |b|
    ensures SumEstimated(b[i := b[i].(estimated := v)]) == SumEstimated(b) - b[i].estimated + v
    ensures SumActual(b[i := b[i].(estimated := v)]) == SumActual(b)
  {
    SumSplit(b, i);
    SumSplit(b[i := b[i].(estimated := v)], i);
    assert b[i := b[i].(estimated := v)][..i] == b[..i];
    assert b[i := b[i].(estimated := v)][i + 1..] == b[i + 1..];
  }

  /** Changing one line's actual amount moves the actual total by the difference and leaves
      the estimated total alone. */
  lemma SumSetActual(b: seq<BudgetItem>, i: nat, v: int)
    requires i < |b|
    ensures SumActual(b[i := b[i].(actual := v)]) == SumActual(b) - b[i].actual + v
    ensures SumEstimated(b[i := b[i].(actual := v)]) == SumEstimated(b)
  {
    SumSplit(b, i);
    SumSplit(b[i := b[i].(actual := v)], i);
    assert b[i := b[i].(actual := v)][..i] == b[..i];
    assert b[i := b[i].(actual := v)][i + 1..] == b[i + 1..];
  }

  /** The totals of a list are those of the lines before `i`, line `i`, and the lines after. */
  lemma SumSplit(b: seq<BudgetItem>, i: nat)
    requires i < |b|
    ensures SumEstimated(b) == SumEstimated(b[..i]) + b[i].estimated + SumEstimated(b[i + 1..])
    ensures SumActual(b) == SumActual(b[..i]) + b[i].actual + SumActual(b[i + 1..])
  {
    assert b == b[..i] + [b[i]] + b[i + 1..];
    SumAppend(b[..i] + [b[i]], b[i + 1..]);
    assert (b[..i] + [b[i]])[..i] == b[..i];
  }

  // ---------------------------------------------------------------- the state

  /** A task as the quick-entry box creates it. */
  predicate TaskFilledIn(t: Task) {
    t.task != [] && t.category != [] && t.owner != []
  }

  ghost predicate ValidTasks(ts: seq<Task>) {
    UniqueKeys(ts, TaskId) && forall t :: t in ts ==> TaskFilledIn(t)
  }

  ghost predicate ValidRoster(rs: seq<RosterEntry>) {
    UniqueKeys(rs, RosterId) && forall p :: p in rs ==> p.name != []
  }

  ghost predicate ValidBudget(bs: seq<BudgetItem>) {
    UniqueKeys(bs, BudgetId) && forall b :: b in bs ==> b.item != []
  }

  /** `state`: the event date, the tasks, the roster and the budget. */
  class AppState {
    var eventDate: Option<string>
    var tasks: seq<Task>
    var roster: seq<RosterEntry>
    var budget: seq<BudgetItem>

    /** What every handler keeps: ids are unique within each list (they key the delete and
        edit handlers), every task has a title, category and owner, every participant a name
        and every budget line an item. */
    ghost predicate Valid()
      reads this
    {
      ValidTasks(tasks) && ValidRoster(roster) && ValidBudget(budget)
    }

    /** The state before anything is loaded: no date and three empty lists. */
    constructor()
      ensures Valid()
      ensures eventDate == None && tasks == [] && roster == [] && budget == []
    {
      eventDate := None;
      tasks := [];
      roster := [];
      budget := [];
    }

    /** The sample state written when nothing was saved before: an event date and two tasks,
        one in progress and one done, with no budget and no roster. */
    method LoadDefaults(id1: string, id2: string)
      modifies this
      requires id1 != id2
      ensures Valid()
      ensures eventDate == Some("2025-11-14")
      ensures tasks == [Task(id1, "Confirm DJ lineup", "Entertainment", "Team A", InProgress, "2025-10-30"),
                        Task(id2, "Design promo flyer", "Marketing", "Design", Done, "2025-10-25")]
      ensures budget == [] && roster == []
    {
      eventDate := Some("2025-11-14");
      tasks := [Task(id1, "Confirm DJ lineup", "Entertainment", "Team A", InProgress, "2025-10-30"),
                Task(id2, "Design promo flyer", "Marketing", "Design", Done, "2025-10-25")];
      budget := [];
      roster := [];
    }

    /** The date picker's change handler. */
    method SetEventDate(d: string)
      modifies this`eventDate
      requires Valid()
      ensures Valid()
      ensures eventDate == Some(d)
    {
      eventDate := Some(d);
    }

    // ------------------------------------------------------------ tasks

    /** The quick-entry box: blank input adds nothing; otherwise one Pending task with the
        parsed fields and the new id `newId` is appended. */
    method AddTaskFromInput(input: string, newId: string) returns (added: bool)
      modifies this`tasks
      requires Valid() && !HasKey(tasks, TaskId, newId)
      ensures Valid()
      ensures added <==> Trim(input) != []
      ensures !added ==> tasks == old(tasks)
      ensures added ==> (ParseTaskInput(input).Some? &&
                         var f := ParseTaskInput(input).value;
                         tasks == old(tasks) + [Task(newId, f.task, f.category, f.owner, Pending, f.deadline)])
    {
      var parsed := ParseTaskInput(input);
      match parsed
      case None =>
        added := false;
      case Some(f) =>
        var t := Task(newId, f.task, f.category, f.owner, Pending, f.deadline);
        AppendTaskValid(tasks, t);
        tasks := tasks + [t];
        added := true;
    }

    /** The Remove button of a task: every task with that id goes. */
    method DeleteTask(id: string)
      modifies this`tasks
      requires Valid()
      ensures Valid()
      ensures tasks == RemoveKey(old(tasks), TaskId, id)
      ensures HasKey(old(tasks), TaskId, id) ==> |tasks| == |old(tasks)| - 1
    {
      var before := tasks;
      tasks := RemoveKey(tasks, TaskId, id);
      RemovalKeeps(before, tasks, TaskId, id);
    }

    /** The status selector of a task: the first task with that id takes the new status; an
        unknown id changes nothing. */
    method SetTaskStatus(id: string, s: Status) returns (found: bool)
      modifies this`tasks
      requires Valid()
      ensures Valid()
      ensures found <==> HasKey(old(tasks), TaskId, id)
      ensures !found ==> tasks == old(tasks)
      ensures found ==> var i := FirstIndex(old(tasks), TaskId, id).value;
                        tasks == old(tasks)[i := old(tasks)[i].(status := s)]
    {
      var at := FirstIndex(tasks, TaskId, id);
      match at
      case None =>
        found := false;
      case Some(i) =>
        var t := tasks[i].(status := s);
        ReplaceKeepsKeys(tasks, TaskId, i, t);
        assert TaskFilledIn(t) by { assert tasks[i] in tasks; }
        tasks := tasks[i := t];
        found := true;
    }

    /** The Clear Done button: every Done task goes, every other task stays in its place. */
    method ClearDone()
      modifies this`tasks
      requires Valid()
      ensures Valid()
      ensures tasks == Filter(old(tasks), NotDone)
      ensures forall t :: t in tasks ==> t.status != Done
      ensures forall t :: t in old(tasks) && t.status != Done ==> t in tasks
    {
      var before := tasks;
      tasks := Filter(tasks, NotDone);
      FilterCount(before, NotDone);
      SubsequenceUniqueKeys(tasks, before, TaskId);
      forall t | t in tasks ensures TaskFilledIn(t) {
        assert t in before;
      }
      forall t | t in before && t.status != Done ensures t in tasks {
        assert multiset(before)[t] > 0;
      }
    }

    // ------------------------------------------------------------ roster

    /** The Add button of the roster form: both inputs are trimmed; an empty name adds
        nothing (the page shows an alert); otherwise one entry is appended with an empty
        contact, attendance and notes. */
    method AddRoster(nameInput: string, roleInput: string, newId: string) returns (ok: bool)
      modifies this`roster
      requires Valid() && !HasKey(roster, RosterId, newId)
      ensures Valid()
      ensures ok <==> Trim(nameInput) != []
      ensures !ok ==> roster == old(roster)
      ensures ok ==> roster == old(roster) + [RosterEntry(newId, Trim(nameInput), Trim(roleInput), "", Some(""), Some(""))]
    {
      var name := Trim(nameInput);
      var role := Trim(roleInput);
      ok := name != [];
      if ok {
        var p := RosterEntry(newId, name, role, "", Some(""), Some(""));
        AppendRosterValid(roster, p);
        roster := roster + [p];
      }
    }

    /** The Remove button of a roster entry. */
    method DeleteRoster(id: string)
      modifies this`roster
      requires Valid()
      ensures Valid()
      ensures roster == RemoveKey(old(roster), RosterId, id)
      ensures HasKey(old(roster), RosterId, id) ==> |roster| == |old(roster)| - 1
    {
      var before := roster;
      roster := RemoveKey(roster, RosterId, id);
      RemovalKeeps(before, roster, RosterId, id);
    }

    /** The roster file import. Text that is blank once trimmed has no header line, and the
        handler stops with an error before changing anything; otherwise one entry per data
        line is appended in file order, `ids[k]` being the id generated for the k-th. */
    method ImportRosterCSV(text: string, ids: seq<string>) returns (ok: bool)
      modifies this`roster
      requires Valid()
      requires |ids| >= |DataLines(text)|
      requires Distinct(ids) && forall k :: 0 <= k < |ids| ==> !HasKey(roster, RosterId, ids[k])
      ensures Valid()
      ensures ok <==> Trim(text) != []
      ensures roster == old(roster) + ImportedRoster(text, ids)
      ensures |roster| == |old(roster)| + |DataLines(text)|
    {
      CsvLinesEmpty(text);
      var lines := CsvLines(text);
      if lines == [] {
        ok := false;
        return;
      }
      var headers := HeaderNames(lines[0]);
      assert ImportedRoster(text, ids) == ImportEntries(headers, lines[1..], ids);
      AppendImported(headers, lines[1..], ids);
      ok := true;
    }

    /** The loop over the data lines of a roster file: each line, read under `headers`,
        becomes one entry appended with the next id. */
    method AppendImported(headers: seq<string>, data: seq<string>, ids: seq<string>)
      modifies this`roster
      requires Valid()
      requires |ids| >= |data|
      requires Distinct(ids) && forall k :: 0 <= k < |ids| ==> !HasKey(roster, RosterId, ids[k])
      ensures Valid()
      ensures roster == old(roster) + ImportEntries(headers, data, ids)
    {
      var start := roster;
      ghost var entries := ImportEntries(headers, data, ids);
      var i := 0;
      while i < |data|
        invariant 0 <= i <= |data|
        invariant roster == start + entries[..i]
        invariant Valid()
      {
        var p := ImportedEntry(headers, data[i], ids[i]);
        assert p == entries[i];
        AppendNext(start, entries, i);
        ImportedIdFresh(start, entries[..i], ids, i);
        AppendRosterValid(roster, p);
        roster := roster + [p];
        i := i + 1;
      }
      assert entries[..i] == entries;
    }

    // ------------------------------------------------------------ budget

    /** The Add button of the budget form: the item is trimmed; an empty item adds nothing
        (the page shows an alert); otherwise a General line with estimate `est` and actual 0
        is appended. `est` is the number read from the estimate field, 0 when it is empty. */
    method AddBudget(itemInput: string, est: int, newId: string) returns (ok: bool)
      modifies this`budget
      requires Valid() && !HasKey(budget, BudgetId, newId)
      ensures Valid()
      ensures ok <==> Trim(itemInput) != []
      ensures !ok ==> budget == old(budget)
      ensures ok ==> budget == old(budget) + [BudgetItem(newId, Trim(itemInput), "General", est, 0)]
      ensures ok ==> SumEstimated(budget) == SumEstimated(old(budget)) + est &&
                     SumActual(budget) == SumActual(old(budget))
    {
      var item := Trim(itemInput);
      if item == [] {
        ok := false;
        return;
      }
      var b := BudgetItem(newId, item, "General", est, 0);
      AppendBudgetValid(budget, b);
      budget := budget + [b];
      assert budget[..|budget| - 1] == old(budget);
      ok := true;
    }

    /** The Del button of a budget line. */
    method DeleteBudget(id: string)
      modifies this`budget
      requires Valid()
      ensures Valid()
      ensures budget == RemoveKey(old(budget), BudgetId, id)
      ensures HasKey(old(budget), BudgetId, id) ==> |budget| == |old(budget)| - 1
    {
      var before := budget;
      budget := RemoveKey(budget, BudgetId, id);
      RemovalKeeps(before, budget, BudgetId, id);
    }

    /** The estimate field of a budget line: the first line with that id takes the new
        estimate and the estimated total moves by the difference; an unknown id changes
        nothing. */
    method SetBudgetEstimated(id: string, v: int) returns (found: bool)
      modifies this`budget
      requires Valid()
      ensures Valid()
      ensures found <==> HasKey(old(budget), BudgetId, id)
      ensures !found ==> budget == old(budget)
      ensures found ==> var i := FirstIndex(old(budget), BudgetId, id).value;
                        budget == old(budget)[i := old(budget)[i].(estimated := v)] &&
                        SumEstimated(budget) == SumEstimated(old(budget)) - old(budget)[i].estimated + v &&
                        SumActual(budget) == SumActual(old(budget))
    {
      var at := FirstIndex(budget, BudgetId, id);
      match at
      case None =>
        found := false;
      case Some(i) =>
        var b := budget[i].(estimated := v);
        ReplaceKeepsKeys(budget, BudgetId, i, b);
        SumSetEstimated(budget, i, v);
        budget := budget[i := b];
        found := true;
    }

    /** The actual-amount field of a budget line, like the estimate field. */
    method SetBudgetActual(id: string, v: int) returns (found: bool)
      modifies this`budget
      requires Valid()
      ensures Valid()
      ensures found <==> HasKey(old(budget), BudgetId, id)
      ensures !found ==> budget == old(budget)
      ensures found ==> var i := FirstIndex(old(budget), BudgetId, id).value;
                        budget == old(budget)[i := old(budget)[i].(actual := v)] &&
                        SumActual(budget) == SumActual(old(budget)) - old(budget)[i].actual + v &&
                        SumEstimated(budget) == SumEstimated(old(budget))
    {
      var at := FirstIndex(budget, BudgetId, id);
      match at
      case None =>
        found := false;
      case Some(i) =>
        var b := budget[i].(actual := v);
        ReplaceKeepsKeys(budget, BudgetId, i, b);
        SumSetActual(budget, i, v);
        budget := budget[i := b];
        found := true;
    }

    /** The two totals shown under the budget list, added up line by line. */
    method Totals() returns (est: int, act: int)
      ensures est == SumEstimated(budget) && act == SumActual(budget)
    {
      est, act := 0, 0;
      var i := 0;
      while i < |budget|
        invariant 0 <= i <= |budget|
        invariant est == SumEstimated(budget[..i]) && act == SumActual(budget[..i])
      {
        assert budget[..i + 1][..i] == budget[..i];
        est := est + budget[i].estimated;
        act := act + budget[i].actual;
        i := i + 1;
      }
      assert budget[..i] == budget;
    }
  }

  // ---------------------------------------------------------------- keeping ids unique

  lemma AppendTaskValid(ts: seq<Task>, t: Task)
    requires ValidTasks(ts) && !HasKey(ts, TaskId, t.id) && TaskFilledIn(t)
    ensures ValidTasks(ts + [t])
  {
    NewKeyStaysUnique(ts, TaskId, t);
  }

  lemma AppendRosterValid(rs: seq<RosterEntry>, p: RosterEntry)
    requires ValidRoster(rs) && !HasKey(rs, RosterId, p.id) && p.name != []
    ensures ValidRoster(rs + [p])
  {
    NewKeyStaysUnique(rs, RosterId, p);
  }

  lemma AppendBudgetValid(bs: seq<BudgetItem>, b: BudgetItem)
    requires ValidBudget(bs) && !HasKey(bs, BudgetId, b.id) && b.item != []
    ensures ValidBudget(bs + [b])
  {
    NewKeyStaysUnique(bs, BudgetId, b);
  }

  /** Appending an entry whose key no entry has keeps the keys unique. */
  lemma NewKeyStaysUnique<T>(xs: seq<T>, key: T -> string, x: T)
    requires UniqueKeys(xs, key) && !HasKey(xs, key, key(x))
    ensures UniqueKeys(xs + [x], key)
  {
    var ys := xs + [x];
    forall i, j | 0 <= i < j < |ys| ensures key(ys[i]) != key(ys[j]) {
      if j == |xs| {
        assert ys[i] == xs[i];
      }
    }
  }

  /** Taking one more entry of `entries` appends that entry. */
  lemma AppendNext<T>(start: seq<T>, entries: seq<T>, i: nat)
    requires i < |entries|
    ensures start + entries[..i + 1] == (start + entries[..i]) + [entries[i]]
  {
    assert entries[..i + 1] == entries[..i] + [entries[i]];
  }

  /** The id generated for the i-th imported line belongs to no entry so far: neither to
      those present before the import nor to those it added, which carry the earlier ids. */
  lemma ImportedIdFresh(start: seq<RosterEntry>, added: seq<RosterEntry>, ids: seq<string>, i: nat)
    requires i < |ids| && |added| == i && Distinct(ids)
    requires forall k :: 0 <= k < |ids| ==> !HasKey(start, RosterId, ids[k])
    requires forall k :: 0 <= k < i ==> added[k].id == ids[k]
    ensures !HasKey(start + added, RosterId, ids[i])
  {
    var all := start + added;
    forall j | 0 <= j < |all| ensures RosterId(all[j]) != ids[i] {
      if j < |start| {
        assert all[j] == start[j];
      } else {
        assert all[j] == added[j - |start|];
      }
    }
  }

  /** Replacing an entry by one with the same key keeps the keys unique. */
  lemma ReplaceKeepsKeys<T>(xs: seq<T>, key: T -> string, i: nat, x: T)
    requires UniqueKeys(xs, key) && i < |xs| && key(x) == key(xs[i])
    ensures UniqueKeys(xs[i := x], key)
    ensures forall y :: y in xs[i := x] ==> y == x || y in xs
  {
    var ys := xs[i := x];
    forall y | y in ys ensures y == x || y in xs {
      var k :| 0 <= k < |ys| && ys[k] == y;
      if k != i {
        assert xs[k] == y;
      }
    }
  }

  /** What a delete by key keeps: unique keys, only entries that were there, and one entry
      fewer when the key was present. */
  lemma RemovalKeeps<T>(xs: seq<T>, r: seq<T>, key: T -> string, k: string)
    requires UniqueKeys(xs, key) && r == RemoveKey(xs, key, k)
    ensures UniqueKeys(r, key)
    ensures forall y :: y in r ==> y in xs
    ensures HasKey(xs, key, k) ==> |r| == |xs| - 1
  {
    SubsequenceUniqueKeys(r, xs, key);
    SubsequenceElements(r, xs);
    if HasKey(xs, key, k) {
      RemovePresentKey(xs, key, k);
    }
  }
}
