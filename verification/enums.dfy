/** The closed status and priority enumerations and their wire strings. */
module Enums {
  import opened Wrappers

  datatype Status = Pending | InProgress | Done

  datatype Priority = Low | Medium | High

  /** The string value a status carries on the wire and in the database. */
  function StatusName(s: Status): string {
    match s
    case Pending => "pending"
    case InProgress => "in_progress"
    case Done => "done"
  }

  function PriorityName(p: Priority): string {
    match p
    case Low => "low"
    case Medium => "medium"
    case High => "high"
  }

  /** Parsing accepts exactly the rendered names, and each one yields the status it names. */
  function ParseStatus(w: string): (r: Option<Status>)
    ensures forall s :: r == Some(s) <==> StatusName(s) == w
    ensures r.None? <==> w !in {"pending", "in_progress", "done"}
  {
    if w == "pending" then Some(Pending)
    else if w == "in_progress" then Some(InProgress)
    else if w == "done" then Some(Done)
    else None
  }

  function ParsePriority(w: string): (r: Option<Priority>)
    ensures forall p :: r == Some(p) <==> PriorityName(p) == w
    ensures r.None? <==> w !in {"low", "medium", "high"}
  {
    if w == "low" then Some(Low)
    else if w == "medium" then Some(Medium)
    else if w == "high" then Some(High)
    else None
  }

  lemma StatusRoundTrip(s: Status)
    ensures ParseStatus(StatusName(s)) == Some(s)
  {
  }

  lemma PriorityRoundTrip(p: Priority)
    ensures ParsePriority(PriorityName(p)) == Some(p)
  {
  }
}
