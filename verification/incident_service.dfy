/** The incident service: create, update, approve and close incidents in the database, and
    the high-risk and pending-approval listings. */
module IncidentService {
  import opened Common
  import opened Models
  import opened Data
  import opened Ordering
  import opened BusinessRules
  import opened IncidentValidation
  import opened IncidentLifecycle

  /** Creates an incident under the fresh id `newId`. The request is validated against the
      current tables; when it passes, the incident built from it is classified by the business
      rules and added, and it is the only change to the database. */
  method CreateIncident(db: Db, req: IncidentCreateRequest, clock: Clock, newId: Id)
    returns (r: Result<Incident, IncidentError>)
    requires newId !in db.incidents
    modifies db
    ensures db.employees == old(db.employees) && db.inspections == old(db.inspections)
    ensures var v := ValidateIncidentCreation(old(db.Snap()), clock, req);
      && (v.Fail? ==> r == Err(v.error) && db.incidents == old(db.incidents))
      && (v.Pass? ==> && r == Ok(Classified(NewIncident(req)))
                      && db.incidents == old(db.incidents)[newId := r.value]
                      && |db.incidents| == |old(db.incidents)| + 1)
  {
    var v := ValidateIncidentCreation(db.Snap(), clock, req);
    if v.Fail? {
      return Err(v.error);
    }
    var inc := NewIncident(req);
    inc := ApplyBusinessRules(inc);
    db.incidents := db.incidents[newId := inc];
    r := Ok(inc);
  }

  /** Updates the incident `id`. A missing incident and a resolved one are refused before
      anything is looked at; then the request is validated; then the supplied fields are
      written. Classification is not run again: the severity test comes after the fields are
      written, when the incident's severity already equals any supplied one. */
  method UpdateIncident(db: Db, id: Id, upd: IncidentUpdateRequest)
    returns (r: Result<Incident, IncidentError>)
    modifies db
    ensures db.employees == old(db.employees) && db.inspections == old(db.inspections)
    ensures id !in old(db.incidents) ==> r == Err(IncidentNotFound) && db.incidents == old(db.incidents)
    ensures id in old(db.incidents) && old(db.incidents[id]).isResolved ==>
              r == Err(ResolvedIncidentImmutable) && db.incidents == old(db.incidents)
    ensures id in old(db.incidents) && !old(db.incidents[id]).isResolved ==>
      var v := ValidateIncidentUpdate(old(db.Snap()), upd);
      && (v.Fail? ==> r == Err(v.error) && db.incidents == old(db.incidents))
      && (v.Pass? ==> && r == Ok(UpdateFields(old(db.incidents[id]), upd))
                      && db.incidents == old(db.incidents)[id := r.value])
  {
    if id !in db.incidents {
      return Err(IncidentNotFound);
    }
    var inc := db.incidents[id];
    if inc.isResolved {
      return Err(ResolvedIncidentImmutable);
    }
    var v := ValidateIncidentUpdate(db.Snap(), upd);
    if v.Fail? {
      return Err(v.error);
    }
    inc := UpdateFields(inc, upd);
    if upd.severity.Some? && upd.severity.value != inc.severity {
      inc := ApplyBusinessRules(inc);
    }
    db.incidents := db.incidents[id := inc];
    r := Ok(inc);
  }

  /** Approves the incident `id` on behalf of `approvedBy` at time `now`: refused when the
      incident is missing, otherwise exactly the approval transition on the stored record.
      The body keeps the service's own guard-by-guard statements and updates the stored
      record in place; the function `Approve` is the specification it is proved against. */
  method ApproveIncident(db: Db, id: Id, approvedBy: string, now: int)
    returns (r: Outcome<IncidentError>)
    modifies db
    ensures db.employees == old(db.employees) && db.inspections == old(db.inspections)
    ensures id !in old(db.incidents) ==> r == Fail(IncidentNotFound) && db.incidents == old(db.incidents)
    ensures id in old(db.incidents) ==>
      match Approve(old(db.incidents[id]), approvedBy, now)
      case Ok(inc) => r == Pass && db.incidents == old(db.incidents)[id := inc]
      case Err(e) => r == Fail(e) && db.incidents == old(db.incidents)
  {
    if id !in db.incidents {
      return Fail(IncidentNotFound);
    }
    var inc := db.incidents[id];
    if !inc.requiresManagerApproval {
      return Fail(ApprovalNotRequired);
    }
    if inc.status != PendingApproval {
      return Fail(NotPendingApproval);
    }
    inc := inc.(status := Approved, managerApprovalDate := Some(now), managerApprovedBy := Some(approvedBy));
    db.incidents := db.incidents[id := inc];
    r := Pass;
  }

  /** Closes the incident `id` at time `now`: refused when the incident is missing, otherwise
      exactly the close transition on the stored record. As for approval, the body follows the
      service's statements and the function `Close` is its specification. */
  method CloseIncident(db: Db, id: Id, now: int) returns (r: Outcome<IncidentError>)
    modifies db
    ensures db.employees == old(db.employees) && db.inspections == old(db.inspections)
    ensures id !in old(db.incidents) ==> r == Fail(IncidentNotFound) && db.incidents == old(db.incidents)
    ensures id in old(db.incidents) ==>
      match Close(old(db.incidents[id]), now)
      case Ok(inc) => r == Pass && db.incidents == old(db.incidents)[id := inc]
      case Err(e) => r == Fail(e) && db.incidents == old(db.incidents)
  {
    if id !in db.incidents {
      return Fail(IncidentNotFound);
    }
    var inc := db.incidents[id];
    if inc.isResolved {
      return Fail(AlreadyResolved);
    }
    if inc.requiresManagerApproval && inc.status != Approved {
      return Fail(ApprovalRequiredBeforeClose);
    }
    if inc.requiresSafetyReview && inc.status != Approved {
      return Fail(ReviewRequiredBeforeClose);
    }
    inc := inc.(isResolved := true, resolvedDate := Some(now), status := Closed);
    db.incidents := db.incidents[id := inc];
    r := Pass;
  }

  // ---------------------------------------------------------------------------------------
  // Listings

  /** The filter of the pending-approval listing. */
  predicate IsPendingApproval(inc: Incident) {
    inc.requiresManagerApproval && inc.status == PendingApproval
  }

  /** The filter of the high-risk listing. */
  predicate IsHighRisk(inc: Incident) {
    inc.severity == High || inc.estimatedCost > 10000
  }

  /** Both listings order by incident date, newest first. */
  predicate NewestFirst(p: (Id, Incident), q: (Id, Incident)) {
    p.1.date >= q.1.date
  }

  lemma NewestFirstIsTotalPreorder()
    ensures TotalPreorder(NewestFirst)
  {
  }

  /** The incidents awaiting approval, each once, newest first. */
  function GetPendingApproval(incidents: map<Id, Incident>): (r: seq<(Id, Incident)>)
    ensures forall p :: p in r <==> p.0 in incidents && p.1 == incidents[p.0] && IsPendingApproval(p.1)
    ensures forall id :: id in incidents && IsPendingApproval(incidents[id]) ==>
              multiset(r)[(id, incidents[id])] == 1
    ensures forall i, j :: 0 <= i < j < |r| ==> r[i].1.date >= r[j].1.date
  {
    NewestFirstIsTotalPreorder();
    Query(incidents, IsPendingApproval, NewestFirst)
  }

  /** The high-risk incidents, each once, newest first. */
  function GetHighRisk(incidents: map<Id, Incident>): (r: seq<(Id, Incident)>)
    ensures forall p :: p in r <==> p.0 in incidents && p.1 == incidents[p.0] && IsHighRisk(p.1)
    ensures forall id :: id in incidents && IsHighRisk(incidents[id]) ==>
              multiset(r)[(id, incidents[id])] == 1
    ensures forall i, j :: 0 <= i < j < |r| ==> r[i].1.date >= r[j].1.date
  {
    NewestFirstIsTotalPreorder();
    Query(incidents, IsHighRisk, NewestFirst)
  }

  /** A newly classified incident is awaiting approval exactly when its severity is not Low:
      an approval required only by cost never puts it in the pending listing. */
  lemma NewIncidentPendingIffNotLow(inc: Incident)
    ensures IsPendingApproval(Classified(inc)) <==> inc.severity != Low
  {
  }

  /** A newly classified high-risk incident always needs safety review. */
  lemma NewHighRiskNeedsReview(inc: Incident)
    requires IsHighRisk(inc)
    ensures Classified(inc).requiresSafetyReview
  {
  }
}
