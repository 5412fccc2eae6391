/** The Report row that tracks one asynchronous BEL upload, and its status predicates.

    Time is an integer count of microseconds (the resolution of Python's `datetime`); the
    current time is passed in instead of read from a clock. */
module Reports {
  import opened Wrappers

  type NetworkId = nat

  /** The status-bearing columns of a report. `completed` is a nullable boolean and `message`
      a nullable text, so both are optional. */
  datatype Report = Report(
    created: int,
    completed: Option<bool>,
    message: Option<string>,
    network: Option<NetworkId>,
    numberNodes: Option<int>)

  /** Python truthiness of a nullable text column: set and non-empty. */
  predicate HasText(t: Option<string>) {
    t.Some? && t.value != ""
  }

  /** Three hours, the age after which an unfinished job counts as stalled. */
  const StallMicros: int := 3 * 60 * 60 * 1000000

  /** `Report.incomplete`: still running. */
  predicate Incomplete(r: Report) {
    r.completed.None? && !HasText(r.message)
  }

  /** `Report.failed`: the completion flag was set to false. */
  predicate Failed(r: Report) {
    r.completed.Some? && !r.completed.value
  }

  /** `Report.stalled` at time `now`. */
  function Stalled(r: Report, now: int): (s: bool)
    ensures s ==> r.created < now
    ensures r.created + StallMicros < now <==> s
  {
    now - r.created > StallMicros
  }

  /** `Report.is_displayable`: a node count is known, non-zero and below one hundred. */
  function IsDisplayable(r: Report): (d: bool)
    ensures d ==> r.numberNodes.Some? && r.numberNodes.value < 100
    ensures r.numberNodes == Some(0) ==> !d
    ensures r.numberNodes.Some? && 0 < r.numberNodes.value < 100 ==> d
  {
    r.numberNodes.Some? && r.numberNodes.value != 0 && r.numberNodes.value < 100
  }

  /** The four ways `Report.__repr__` describes a report, checked in its order. */
  datatype Status = Running | FailedRun | Done(network: NetworkId) | Cancelled

  /** Finished without the failure flag: marked completed, or left unmarked with a message. */
  predicate Settled(r: Report) {
    (r.completed.Some? && r.completed.value) || (r.completed.None? && HasText(r.message))
  }

  function StatusOf(r: Report): (s: Status)
    ensures s == Running <==> Incomplete(r)
    ensures s == FailedRun <==> Failed(r)
    ensures s.Done? <==> r.network.Some? && Settled(r)
    ensures s == Cancelled <==> r.network.None? && Settled(r)
  {
    if Incomplete(r) then Running
    else if Failed(r) then FailedRun
    else if r.network.Some? then Done(r.network.value)
    else Cancelled
  }
}
