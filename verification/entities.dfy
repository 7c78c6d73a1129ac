/** The three kinds of record the event planner keeps (tasks, roster entries, budget lines). */
module Entities {
  import opened Seqs

  /** The three values of a task's status selector. */
  datatype Status = Pending | InProgress | Done

  /** The text the status selector shows and the CSV export writes. */
  function StatusText(s: Status): string {
    match s
    case Pending => "Pending"
    case InProgress => "In Progress"
    case Done => "Done"
  }

  /** A checklist task; `deadline` is "" when none was given. */
  datatype Task = Task(id: string, task: string, category: string, owner: string, status: Status, deadline: string)

  /** A participant. Entries added by hand carry empty `attendance` and `notes`; entries read
      from a CSV file carry neither key at all, hence the options. */
  datatype RosterEntry = RosterEntry(id: string, name: string, role: string, contact: string,
                                     attendance: Option<string>, notes: Option<string>)

  /** A budget line with its estimated and actual amounts. */
  datatype BudgetItem = BudgetItem(id: string, item: string, category: string, estimated: int, actual: int)

  function TaskId(t: Task): string { t.id }
  function RosterId(r: RosterEntry): string { r.id }
  function BudgetId(b: BudgetItem): string { b.id }

  /** The condition `clearDone` keeps a task under. */
  predicate NotDone(t: Task) { t.status != Done }
}
