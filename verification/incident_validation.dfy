/** The errors of the incident service and the checks a create or update request must pass. */
module IncidentValidation {
  import opened Common
  import opened Models
  import opened Data
  import opened Ordering

  /** Every way an incident operation can be rejected. */
  datatype IncidentError =
    | IncidentNotFound
    | ResolvedIncidentImmutable
    | AlreadyResolved
    | ApprovalRequiredBeforeClose
    | ReviewRequiredBeforeClose
    | ApprovalNotRequired
    | NotPendingApproval
    | FutureDate
    | DateTooOld
    | UnknownReporter
    | InactiveReporter
    | UnknownInvolvedEmployee
    | InactiveInvolvedEmployee
    | UnknownInspection
    | DuplicateIncident
    | MissingCorrectiveAction
    | MissingInvestigationNotes
    | StaleSafetyTraining

  /** The message the service raises for each error: a sentence ending in a full stop. */
  function Message(e: IncidentError): (r: string)
    ensures |r| > 0 && r[|r| - 1] == '.'
  {
    match e
    case IncidentNotFound => "Incident not found."
    case ResolvedIncidentImmutable => "Cannot update a resolved incident."
    case AlreadyResolved => "Incident is already resolved."
    case ApprovalRequiredBeforeClose => "Incident requires manager approval before closing."
    case ReviewRequiredBeforeClose => "Incident requires safety review before closing."
    case ApprovalNotRequired => "This incident does not require approval."
    case NotPendingApproval => "Incident is not pending approval."
    case FutureDate => "Incident date cannot be in the future."
    case DateTooOld => "Incident date cannot be more than 1 year in the past."
    case UnknownReporter => "Reported by employee not found."
    case InactiveReporter => "Cannot report incident with inactive employee."
    case UnknownInvolvedEmployee => "Involved employee not found."
    case InactiveInvolvedEmployee => "Cannot involve inactive employee in incident."
    case UnknownInspection => "Safety inspection not found."
    case DuplicateIncident => "Duplicate incident detected: same location, description, and date."
    case MissingCorrectiveAction => "High severity fall incidents require corrective action."
    case MissingInvestigationNotes => "Electric shock incidents require investigation notes."
    case StaleSafetyTraining => "Employee involved in PPE incident must have recent safety training."
  }

  // ---------------------------------------------------------------------------------------
  // Creation

  /** The stored incident and the request describe the same event: same place, same text,
      same reporter, on the same calendar day whatever the time of day. */
  predicate SameSubmission(inc: Incident, req: IncidentCreateRequest) {
    && inc.location == req.location
    && inc.description == req.description
    && Day(inc.date) == Day(req.date)
    && inc.reportedById == req.reportedById
  }

  /** The duplicate query: scans the stored incidents for one that matches the request. It
      answers yes exactly when some stored incident describes the same submission. */
  function IsDuplicate(incidents: map<Id, Incident>, req: IncidentCreateRequest): (r: bool)
    ensures r <==> exists id :: id in incidents && SameSubmission(incidents[id], req)
  {
    var matches := Filter(Entries(incidents), (p: (Id, Incident)) => SameSubmission(p.1, req));
    assert (exists id :: id in incidents && SameSubmission(incidents[id], req)) ==> matches != [] by {
      if exists id :: id in incidents && SameSubmission(incidents[id], req) {
        var id :| id in incidents && SameSubmission(incidents[id], req);
        assert (id, incidents[id]) in matches;
      }
    }
    assert matches != [] ==> matches[0] in matches;
    matches != []
  }

  /** The type-specific gates. A high-severity fall needs a corrective action; an electric
      shock above Low severity needs investigation notes; a PPE incident with an involved
      employee needs that employee's last safety training to be known and not older than
      six months. Collisions and other incidents are never rejected here. */
  function ValidateTypeSpecificRules(employees: map<Id, Employee>, clock: Clock,
                                     req: IncidentCreateRequest): (r: Outcome<IncidentError>)
    ensures req.incidentType == Collision || req.incidentType == Other ==> r == Pass
    ensures r == Fail(MissingCorrectiveAction) <==>
              req.incidentType == Fall && req.severity == High && IsNullOrEmpty(req.correctiveAction)
    ensures r == Fail(MissingInvestigationNotes) <==>
              req.incidentType == ElectricShock && req.severity != Low
              && IsNullOrEmpty(req.investigationNotes)
    ensures r == Fail(StaleSafetyTraining) <==>
              req.incidentType == ImproperUseOfPPE && req.involvedEmployeeId.Some?
              && !TrainedSince(employees, req.involvedEmployeeId.value, clock.sixMonthsAgo)
    ensures r.Fail? ==> r.error in {MissingCorrectiveAction, MissingInvestigationNotes, StaleSafetyTraining}
  {
    match req.incidentType
    case Fall =>
      if req.severity == High && IsNullOrEmpty(req.correctiveAction) then Fail(MissingCorrectiveAction)
      else Pass
    case ElectricShock =>
      if req.severity != Low && IsNullOrEmpty(req.investigationNotes) then Fail(MissingInvestigationNotes)
      else Pass
    case ImproperUseOfPPE =>
      if req.involvedEmployeeId.Some? then
        var employee := if req.involvedEmployeeId.value in employees
                        then Some(employees[req.involvedEmployeeId.value]) else None;
        if employee.None? || employee.value.lastSafetyTraining.None?
           || employee.value.lastSafetyTraining.value < clock.sixMonthsAgo
        then Fail(StaleSafetyTraining)
        else Pass
      else Pass
    case _ => Pass
  }

  /** The employee exists and was last trained at or after `since`. */
  predicate TrainedSince(employees: map<Id, Employee>, id: Id, since: int) {
    id in employees && employees[id].lastSafetyTraining.Some?
    && employees[id].lastSafetyTraining.value >= since
  }

  /** The position of each creation check in the chain; the earliest failing check decides
      the error. The type gates share a position: at most one of them applies to a request.
      Errors that creation never raises come last. */
  function CreationRank(e: IncidentError): nat {
    match e
    case FutureDate => 0
    case DateTooOld => 1
    case UnknownReporter => 2
    case InactiveReporter => 3
    case UnknownInvolvedEmployee => 4
    case InactiveInvolvedEmployee => 5
    case UnknownInspection => 6
    case DuplicateIncident => 7
    case MissingCorrectiveAction => 8
    case MissingInvestigationNotes => 8
    case StaleSafetyTraining => 8
    case _ => 9
  }

  /** Each creation check on its own: whether the request fails it. */
  predicate CreationViolated(e: IncidentError, s: Snapshot, clock: Clock, req: IncidentCreateRequest) {
    match e
    case FutureDate => req.date > clock.now
    case DateTooOld => req.date < clock.oneYearAgo
    case UnknownReporter => req.reportedById !in s.employees
    case InactiveReporter => req.reportedById in s.employees && !s.employees[req.reportedById].isActive
    case UnknownInvolvedEmployee =>
      req.involvedEmployeeId.Some? && req.involvedEmployeeId.value !in s.employees
    case InactiveInvolvedEmployee =>
      req.involvedEmployeeId.Some? && req.involvedEmployeeId.value in s.employees
      && !s.employees[req.involvedEmployeeId.value].isActive
    case UnknownInspection =>
      req.safetyInspectionId.Some? && req.safetyInspectionId.value !in s.inspections
    case DuplicateIncident => IsDuplicate(s.incidents, req)
    case MissingCorrectiveAction =>
      req.incidentType == Fall && req.severity == High && IsNullOrEmpty(req.correctiveAction)
    case MissingInvestigationNotes =>
      req.incidentType == ElectricShock && req.severity != Low && IsNullOrEmpty(req.investigationNotes)
    case StaleSafetyTraining =>
      req.incidentType == ImproperUseOfPPE && req.involvedEmployeeId.Some?
      && !TrainedSince(s.employees, req.involvedEmployeeId.value, clock.sixMonthsAgo)
    case _ => false
  }

  /** The creation checks in the service's order. A request passes exactly when it fails no
      check; otherwise the error is a check it fails, and it passes every earlier check. */
  function ValidateIncidentCreation(s: Snapshot, clock: Clock, req: IncidentCreateRequest)
    : (r: Outcome<IncidentError>)
    ensures r.Fail? ==> CreationViolated(r.error, s, clock, req)
    ensures r == Pass ==> forall e :: !CreationViolated(e, s, clock, req)
    ensures r.Fail? ==>
      forall e :: CreationRank(e) < CreationRank(r.error) ==> !CreationViolated(e, s, clock, req)
  {
    if req.date > clock.now then Fail(FutureDate)
    else if req.date < clock.oneYearAgo then Fail(DateTooOld)
    else if req.reportedById !in s.employees then Fail(UnknownReporter)
    else if !s.employees[req.reportedById].isActive then Fail(InactiveReporter)
    else if req.involvedEmployeeId.Some? && req.involvedEmployeeId.value !in s.employees
    then Fail(UnknownInvolvedEmployee)
    else if req.involvedEmployeeId.Some? && !s.employees[req.involvedEmployeeId.value].isActive
    then Fail(InactiveInvolvedEmployee)
    else if req.safetyInspectionId.Some? && req.safetyInspectionId.value !in s.inspections
    then Fail(UnknownInspection)
    else if IsDuplicate(s.incidents, req) then Fail(DuplicateIncident)
    else ValidateTypeSpecificRules(s.employees, clock, req)
  }

  /** The incident built from a create request before classification: not resolved, status
      Reported, no flags, no approval recorded, and the request's own fields copied, so the
      stored incident is the same submission as its request. */
  function NewIncident(req: IncidentCreateRequest): (r: Incident)
    ensures r.status == Reported && !r.isResolved && r.resolvedDate.None?
    ensures !r.requiresManagerApproval && !r.requiresSafetyReview
    ensures r.managerApprovalDate.None? && r.managerApprovedBy.None?
    ensures SameSubmission(r, req)
    ensures && r.incidentType == req.incidentType && r.severity == req.severity
            && r.estimatedCost == req.estimatedCost && r.correctiveAction == req.correctiveAction
            && r.involvedEmployeeId == req.involvedEmployeeId
            && r.safetyInspectionId == req.safetyInspectionId
            && r.investigationNotes == req.investigationNotes
  {
    Incident(
      date := req.date,
      location := req.location,
      description := req.description,
      incidentType := req.incidentType,
      severity := req.severity,
      correctiveAction := req.correctiveAction,
      isResolved := false,
      resolvedDate := None,
      reportedById := req.reportedById,
      involvedEmployeeId := req.involvedEmployeeId,
      safetyInspectionId := req.safetyInspectionId,
      status := Reported,
      requiresManagerApproval := false,
      requiresSafetyReview := false,
      managerApprovalDate := None,
      managerApprovedBy := None,
      investigationNotes := req.investigationNotes,
      estimatedCost := req.estimatedCost)
  }

  /** The duplicate check ignores the time of day. */
  lemma DuplicateIgnoresTimeOfDay(incidents: map<Id, Incident>, req: IncidentCreateRequest, t: int)
    requires Day(t) == Day(req.date)
    ensures IsDuplicate(incidents, req.(date := t)) == IsDuplicate(incidents, req)
  {
  }

  /** Once a request has been accepted and its incident stored, submitting the same request
      again is rejected as a duplicate, at the duplicate check itself: every earlier check
      still passes. */
  lemma {:induction false} ResubmissionIsDuplicate(s: Snapshot, clock: Clock, req: IncidentCreateRequest,
                                                   newId: Id, stored: Incident)
    requires ValidateIncidentCreation(s, clock, req) == Pass
    requires stored.date == req.date && stored.location == req.location
    requires stored.description == req.description && stored.reportedById == req.reportedById
    ensures ValidateIncidentCreation(s.(incidents := s.incidents[newId := stored]), clock, req)
              == Fail(DuplicateIncident)
  {
    var s' := s.(incidents := s.incidents[newId := stored]);
    assert SameSubmission(s'.incidents[newId], req);
    assert IsDuplicate(s'.incidents, req);
    assert !CreationViolated(FutureDate, s, clock, req);
    assert !CreationViolated(DateTooOld, s, clock, req);
    assert !CreationViolated(UnknownReporter, s, clock, req);
    assert !CreationViolated(InactiveReporter, s, clock, req);
    assert !CreationViolated(UnknownInvolvedEmployee, s, clock, req);
    assert !CreationViolated(InactiveInvolvedEmployee, s, clock, req);
    assert !CreationViolated(UnknownInspection, s, clock, req);
  }

  // ---------------------------------------------------------------------------------------
  // Update

  /** The checks of an update request: a supplied involved employee must exist and be active,
      and a supplied safety inspection must exist, in that order. */
  function ValidateIncidentUpdate(s: Snapshot, upd: IncidentUpdateRequest): (r: Outcome<IncidentError>)
    ensures r == Fail(UnknownInvolvedEmployee) <==>
              upd.involvedEmployeeId.Some? && upd.involvedEmployeeId.value !in s.employees
    ensures r == Fail(InactiveInvolvedEmployee) <==>
              upd.involvedEmployeeId.Some? && upd.involvedEmployeeId.value in s.employees
              && !s.employees[upd.involvedEmployeeId.value].isActive
    ensures r == Fail(UnknownInspection) <==>
              (upd.involvedEmployeeId.Some? ==>
                 upd.involvedEmployeeId.value in s.employees
                 && s.employees[upd.involvedEmployeeId.value].isActive)
              && upd.safetyInspectionId.Some? && upd.safetyInspectionId.value !in s.inspections
    ensures r.Fail? ==> r.error in {UnknownInvolvedEmployee, InactiveInvolvedEmployee, UnknownInspection}
  {
    if upd.involvedEmployeeId.Some? && upd.involvedEmployeeId.value !in s.employees
    then Fail(UnknownInvolvedEmployee)
    else if upd.involvedEmployeeId.Some? && !s.employees[upd.involvedEmployeeId.value].isActive
    then Fail(InactiveInvolvedEmployee)
    else if upd.safetyInspectionId.Some? && upd.safetyInspectionId.value !in s.inspections
    then Fail(UnknownInspection)
    else Pass
  }

  /** Writes the supplied fields of an update request onto the incident: the update mapping
      copies every field the request supplies. The fields the request does not carry (date,
      reporter, resolution, both flags, approval, notes) are never changed by it. */
  function UpdateFields(inc: Incident, upd: IncidentUpdateRequest): (r: Incident)
    ensures r.date == inc.date && r.reportedById == inc.reportedById
    ensures r.isResolved == inc.isResolved && r.resolvedDate == inc.resolvedDate
    ensures r.requiresManagerApproval == inc.requiresManagerApproval
    ensures r.requiresSafetyReview == inc.requiresSafetyReview
    ensures r.managerApprovalDate == inc.managerApprovalDate
    ensures r.managerApprovedBy == inc.managerApprovedBy
    ensures r.investigationNotes == inc.investigationNotes
  {
    inc.(location := GetOr(upd.location, inc.location),
         description := GetOr(upd.description, inc.description),
         incidentType := GetOr(upd.incidentType, inc.incidentType),
         severity := GetOr(upd.severity, inc.severity),
         correctiveAction := if upd.correctiveAction.Some? then upd.correctiveAction else inc.correctiveAction,
         involvedEmployeeId :=
           if upd.involvedEmployeeId.Some? then upd.involvedEmployeeId else inc.involvedEmployeeId,
         safetyInspectionId :=
           if upd.safetyInspectionId.Some? then upd.safetyInspectionId else inc.safetyInspectionId,
         status := GetOr(upd.status, inc.status),
         estimatedCost := GetOr(upd.estimatedCost, inc.estimatedCost))
  }

  /** Supplied fields take the supplied value and fields left out keep theirs. The status is
      among the fields a request may supply. */
  lemma UpdateWritesSuppliedFields(inc: Incident, upd: IncidentUpdateRequest)
    ensures var r := UpdateFields(inc, upd);
      (upd.location.Some? ==> r.location == upd.location.value) &&
      (upd.location.None? ==> r.location == inc.location) &&
      (upd.description.Some? ==> r.description == upd.description.value) &&
      (upd.description.None? ==> r.description == inc.description) &&
      (upd.incidentType.Some? ==> r.incidentType == upd.incidentType.value) &&
      (upd.incidentType.None? ==> r.incidentType == inc.incidentType) &&
      (upd.severity.Some? ==> r.severity == upd.severity.value) &&
      (upd.severity.None? ==> r.severity == inc.severity) &&
      (upd.correctiveAction.Some? ==> r.correctiveAction == upd.correctiveAction) &&
      (upd.correctiveAction.None? ==> r.correctiveAction == inc.correctiveAction) &&
      (upd.involvedEmployeeId.Some? ==> r.involvedEmployeeId == upd.involvedEmployeeId) &&
      (upd.involvedEmployeeId.None? ==> r.involvedEmployeeId == inc.involvedEmployeeId) &&
      (upd.safetyInspectionId.Some? ==> r.safetyInspectionId == upd.safetyInspectionId) &&
      (upd.safetyInspectionId.None? ==> r.safetyInspectionId == inc.safetyInspectionId) &&
      (upd.status.Some? ==> r.status == upd.status.value) &&
      (upd.status.None? ==> r.status == inc.status) &&
      (upd.estimatedCost.Some? ==> r.estimatedCost == upd.estimatedCost.value) &&
      (upd.estimatedCost.None? ==> r.estimatedCost == inc.estimatedCost)
  {
  }

  /** Applying the same update twice is the same as applying it once. */
  lemma UpdateFieldsIdempotent(inc: Incident, upd: IncidentUpdateRequest)
    ensures UpdateFields(UpdateFields(inc, upd), upd) == UpdateFields(inc, upd)
  {
  }

  /** After the fields are written, the incident's severity equals any supplied severity, so the
      "severity changed" test that follows is never true. */
  lemma SeverityTestAfterMappingIsFalse(inc: Incident, upd: IncidentUpdateRequest)
    requires upd.severity.Some?
    ensures !(upd.severity.value != UpdateFields(inc, upd).severity)
  {
  }
}
