/**
 * Summarising the events collected from a video: report whether there is
 * a violation and, if so, the first event of the highest severity.
 */
module EventSummary {
  import opened FrameRules

  /** The result dictionary of an analysis. */
  datatype Report =
    | NoViolation                   // {"hasViolation": false, "events": []}
    | Violation(violationType: string, severity: string, details: string, events: seq<Event>)
    | Failed(error: string)         // {"hasViolation": false, "error": ...}
  {
    predicate HasViolation()
    {
      Violation?
    }
  }

  /** `severity_rank.get(severity, 0)`: low < medium < high, anything else ranks as low. */
  function Rank(severity: string): nat
  {
    if severity == LOW then 0
    else if severity == MEDIUM then 1
    else if severity == HIGH then 2
    else 0
  }

  /** `events[i]` has the highest rank, and every earlier event ranks strictly lower. */
  predicate IsFirstMax(events: seq<Event>, i: int)
  {
    && 0 <= i < |events|
    && (forall j :: 0 <= j < |events| ==> Rank(events[j].severity) <= Rank(events[i].severity))
    && (forall j :: 0 <= j < i ==> Rank(events[j].severity) < Rank(events[i].severity))
  }

  /**
   * The position `max(events, key=rank)` picks: it scans from the left and
   * replaces its candidate only by a strictly higher rank.
   */
  function FirstMax(events: seq<Event>): (i: nat)
    requires events != []
    ensures IsFirstMax(events, i)
    decreases |events|
  {
    if |events| == 1 then 0
    else
      var last := |events| - 1;
      var k := FirstMax(events[..last]);
      if Rank(events[last].severity) > Rank(events[k].severity) then last else k
  }

  /** There is only one first maximum. */
  lemma FirstMaxUnique(events: seq<Event>, i: int, j: int)
    requires IsFirstMax(events, i) && IsFirstMax(events, j)
    ensures i == j
  {
    NoFirstMaxBefore(events, i, j);
    NoFirstMaxBefore(events, j, i);
  }

  lemma NoFirstMaxBefore(events: seq<Event>, i: int, j: int)
    requires IsFirstMax(events, j)
    ensures 0 <= i < j ==> !IsFirstMax(events, i)
  {
    if 0 <= i < j {
      assert Rank(events[i].severity) < Rank(events[j].severity);
    }
  }

  /** `summarize_events(events)` */
  function Summarize(events: seq<Event>): (r: Report)
    ensures r.HasViolation() <==> events != []
    ensures events == [] ==> r == NoViolation
    ensures r.Violation? ==> r.events == events
    ensures r.Violation? ==>
      exists i :: IsFirstMax(events, i) && events[i] == Event(r.violationType, r.severity, r.details)
  {
    if events == [] then NoViolation
    else
      var best := events[FirstMax(events)];
      Violation(best.kind, best.severity, best.details, events)
  }

  /** Once any event is high, the summary reports a high-severity violation. */
  lemma SummaryOfHigh(events: seq<Event>)
    requires HasHigh(events)
    ensures Summarize(events).Violation? && Summarize(events).severity == HIGH
  {
    var h :| 0 <= h < |events| && events[h].severity == HIGH;
    var r := Summarize(events);
    var i :| IsFirstMax(events, i) && events[i] == Event(r.violationType, r.severity, r.details);
    assert Rank(events[h].severity) == 2;
  }
}
