/** The lifecycle of a stored incident: approval by a manager and closing, as transitions on
    one incident record, and what sequences of them can and cannot reach. */
module IncidentLifecycle {
  import opened Common
  import opened Models
  import opened BusinessRules
  import opened IncidentValidation

  /** Approval of an incident by `approvedBy` at time `now`. It needs the approval flag (checked
      first) and the status PendingApproval; on success the status becomes Approved and the
      approver and date are recorded, and nothing else changes. */
  function Approve(inc: Incident, approvedBy: string, now: int): (r: Result<Incident, IncidentError>)
    ensures !inc.requiresManagerApproval ==> r == Err(ApprovalNotRequired)
    ensures inc.requiresManagerApproval && inc.status != PendingApproval ==> r == Err(NotPendingApproval)
    ensures r.Ok? <==> inc.requiresManagerApproval && inc.status == PendingApproval
    ensures r.Ok? ==> r.value == inc.(status := Approved,
                                      managerApprovalDate := Some(now),
                                      managerApprovedBy := Some(approvedBy))
  {
    if !inc.requiresManagerApproval then Err(ApprovalNotRequired)
    else if inc.status != PendingApproval then Err(NotPendingApproval)
    else Ok(inc.(status := Approved, managerApprovalDate := Some(now), managerApprovedBy := Some(approvedBy)))
  }

  /** Closing of an incident at time `now`. It is refused when the incident is already resolved,
      then when approval is required and the status is not Approved, then when review is required
      and the status is not Approved. On success the incident is resolved at `now` with status
      Closed, and nothing else changes. */
  function Close(inc: Incident, now: int): (r: Result<Incident, IncidentError>)
    ensures inc.isResolved ==> r == Err(AlreadyResolved)
    ensures (!inc.isResolved && inc.requiresManagerApproval && inc.status != Approved)
              ==> r == Err(ApprovalRequiredBeforeClose)
    ensures (!inc.isResolved && !inc.requiresManagerApproval && inc.requiresSafetyReview
             && inc.status != Approved) ==> r == Err(ReviewRequiredBeforeClose)
    ensures r.Ok? <==> !inc.isResolved
                       && (inc.requiresManagerApproval || inc.requiresSafetyReview ==> inc.status == Approved)
    ensures r.Ok? ==> r.value == inc.(isResolved := true, resolvedDate := Some(now), status := Closed)
  {
    if inc.isResolved then Err(AlreadyResolved)
    else if inc.requiresManagerApproval && inc.status != Approved then Err(ApprovalRequiredBeforeClose)
    else if inc.requiresSafetyReview && inc.status != Approved then Err(ReviewRequiredBeforeClose)
    else Ok(inc.(isResolved := true, resolvedDate := Some(now), status := Closed))
  }

  /** One lifecycle request on an incident. */
  datatype Step = ApproveStep(approvedBy: string, at: int) | CloseStep(at: int)

  /** The incident after one request: the new record when the request is accepted, the same
      record when it is refused (a refused request changes nothing). */
  function After(inc: Incident, step: Step): Incident {
    var r := match step
      case ApproveStep(who, at) => Approve(inc, who, at)
      case CloseStep(at) => Close(inc, at);
    if r.Ok? then r.value else inc
  }

  /** The incident after a sequence of approve and close requests. */
  function Run(inc: Incident, steps: seq<Step>): Incident
    decreases |steps|
  {
    if steps == [] then inc else Run(After(inc, steps[0]), steps[1..])
  }

  /** An unresolved incident that needs approval or review but whose status is neither
      PendingApproval nor Approved (so Reported, or Closed when an update set that status): no
      approve or close request is ever accepted for it. */
  predicate Stuck(inc: Incident) {
    && !inc.isResolved
    && (inc.requiresManagerApproval || inc.requiresSafetyReview)
    && inc.status != PendingApproval
    && inc.status != Approved
  }

  /** A stuck incident stays exactly as it is whatever approve and close requests follow. */
  lemma {:induction false} StuckIsForever(inc: Incident, steps: seq<Step>)
    requires Stuck(inc)
    ensures Run(inc, steps) == inc
    decreases |steps|
  {
    if steps != [] {
      assert After(inc, steps[0]) == inc;
      StuckIsForever(inc, steps[1..]);
    }
  }

  /** An unresolved incident that needs review but not approval can never be approved, so
      unless it is already Approved no close request is accepted either. This covers the status
      PendingApproval too, which only an update can give it. */
  lemma {:induction false} ReviewOnlyIsForever(inc: Incident, steps: seq<Step>)
    requires !inc.isResolved && !inc.requiresManagerApproval && inc.requiresSafetyReview
    requires inc.status != Approved
    ensures Run(inc, steps) == inc
    decreases |steps|
  {
    if steps != [] {
      assert After(inc, steps[0]) == inc;
      ReviewOnlyIsForever(inc, steps[1..]);
    }
  }

  /** Classification leaves two kinds of new incidents stuck: a Low-severity incident whose
      approval comes from a cost above 5000, and a Low-severity electric shock (review required,
      approval not). Both stay Reported, so they can never be approved or closed. */
  lemma NewIncidentStuck(inc: Incident)
    requires !inc.isResolved && inc.severity == Low
    requires inc.estimatedCost > 5000 || inc.incidentType == ElectricShock
    ensures Stuck(Classified(inc))
  {
  }

  /** The gate invariant: the resolved flag and the status Closed go together; Approved and
      Closed records that needed approval name their approver; an Approved record needed
      approval; and a closed record that needed review went through approval. */
  predicate GatesRespected(inc: Incident) {
    && (inc.isResolved <==> inc.status == Closed)
    && (inc.isResolved ==> inc.resolvedDate.Some?)
    && (inc.status == Approved ==> inc.requiresManagerApproval)
    && ((inc.requiresManagerApproval && (inc.status == Approved || inc.status == Closed))
          ==> inc.managerApprovedBy.Some? && inc.managerApprovalDate.Some?)
    && (inc.status == Closed && inc.requiresSafetyReview ==> inc.managerApprovedBy.Some?)
  }

  /** A classified new incident respects the gates. */
  lemma NewIncidentRespectsGates(req: IncidentCreateRequest)
    ensures GatesRespected(Classified(NewIncident(req)))
  {
  }

  /** Approve and close requests keep the gate invariant. In particular a closed incident that
      needed approval or review has a recorded approver: it cannot be closed past its gates. */
  lemma {:induction false} RunRespectsGates(inc: Incident, steps: seq<Step>)
    requires GatesRespected(inc)
    ensures GatesRespected(Run(inc, steps))
    ensures Run(inc, steps).requiresManagerApproval == inc.requiresManagerApproval
    ensures Run(inc, steps).requiresSafetyReview == inc.requiresSafetyReview
    decreases |steps|
  {
    if steps != [] {
      var next := After(inc, steps[0]);
      assert GatesRespected(next);
      RunRespectsGates(next, steps[1..]);
    }
  }

  /** The high-severity path: a new High incident is pending approval; once approved it can be
      closed, ending Closed and resolved with the approver on record. */
  lemma HighSeverityApproveThenClose(req: IncidentCreateRequest, approvedBy: string, t1: int, t2: int)
    requires req.severity == High
    ensures var inc := Classified(NewIncident(req));
      && inc.status == PendingApproval && inc.requiresManagerApproval && inc.requiresSafetyReview
      && Close(inc, t1) == Err(ApprovalRequiredBeforeClose)
      && Approve(inc, approvedBy, t1).Ok?
      && var approved := Approve(inc, approvedBy, t1).value;
         && approved.status == Approved
         && approved.managerApprovedBy == Some(approvedBy)
         && Close(approved, t2).Ok?
         && Close(approved, t2).value.status == Closed
         && Close(approved, t2).value.isResolved
  {
  }

  /** An update may set the status directly. It lets a pending incident that needs approval be
      closed with no approval ever recorded, which approve and close alone never allow. */
  lemma UpdateStatusBypassesApproval(inc: Incident)
    requires !inc.isResolved && inc.requiresManagerApproval && inc.status == PendingApproval
    requires inc.managerApprovedBy.None?
    ensures var upd := IncidentUpdateRequest(None, None, None, None, None, None, None, Some(Approved), None);
      && var updated := UpdateFields(inc, upd);
         && Close(updated, 0).Ok?
         && Close(updated, 0).value.status == Closed
         && Close(updated, 0).value.managerApprovedBy.None?
         && !GatesRespected(Close(updated, 0).value)
  {
  }
}
