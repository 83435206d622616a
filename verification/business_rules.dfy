/** The incident classification rules: from severity, type and estimated cost, whether the
    incident needs manager approval and safety review, and the status it starts in. */
module BusinessRules {
  import opened Models

  /** What classification assigns to an incident. */
  datatype Classification = Classification(
    requiresManagerApproval: bool,
    requiresSafetyReview: bool,
    status: IncidentStatus
  )

  /** The severity rule: the baseline that the later rules start from. */
  function SeverityBaseline(severity: SeverityLevel): (c: Classification)
    ensures c.status == (if severity == Low then Reported else PendingApproval)
    ensures c.requiresManagerApproval == (severity != Low)
    ensures c.requiresSafetyReview == (severity == High)
  {
    match severity
    case High => Classification(true, true, PendingApproval)
    case Medium => Classification(true, false, PendingApproval)
    case Low => Classification(false, false, Reported)
  }

  /** A rule that may raise the approval flag and the review flag, never lower them. */
  datatype Raise = Raise(approval: bool, review: bool)

  /** The type rule: an electric shock always needs review; a high-severity fall needs both. */
  function TypeRaise(incidentType: IncidentType, severity: SeverityLevel): Raise {
    match incidentType
    case ElectricShock => Raise(false, true)
    case Fall => if severity == High then Raise(true, true) else Raise(false, false)
    case _ => Raise(false, false)
  }

  /** The cost rules: above 5000 approval is needed, above 10000 review is needed. */
  function CostRaise(estimatedCost: int): Raise {
    Raise(estimatedCost > 5000, estimatedCost > 10000)
  }

  /** The classification as a table: the severity baseline, raised by the type rule and the cost
      rule. No rule changes the status the severity rule chose.  */
  function Classify(severity: SeverityLevel, incidentType: IncidentType, estimatedCost: int)
    : (c: Classification)
    ensures c.status == SeverityBaseline(severity).status
    ensures SeverityBaseline(severity).requiresManagerApproval ==> c.requiresManagerApproval
    ensures SeverityBaseline(severity).requiresSafetyReview ==> c.requiresSafetyReview
    ensures c.requiresManagerApproval <==> severity != Low || estimatedCost > 5000
    ensures c.requiresSafetyReview <==>
              severity == High || incidentType == ElectricShock || estimatedCost > 10000
  {
    var base := SeverityBaseline(severity);
    var byType := TypeRaise(incidentType, severity);
    var byCost := CostRaise(estimatedCost);
    Classification(
      base.requiresManagerApproval || byType.approval || byCost.approval,
      base.requiresSafetyReview || byType.review || byCost.review,
      base.status)
  }

  /** The incident with its classification fields set from its own severity, type and cost. */
  function Classified(inc: Incident): Incident {
    var c := Classify(inc.severity, inc.incidentType, inc.estimatedCost);
    inc.(requiresManagerApproval := c.requiresManagerApproval,
         requiresSafetyReview := c.requiresSafetyReview,
         status := c.status)
  }

  /** Applies the three rule blocks to the incident one after the other, overwriting its
      fields as it goes. The result is the table classification of the incident, and every
      field other than the two flags and the status is left as it was. */
  method ApplyBusinessRules(inc: Incident) returns (r: Incident)
    ensures r.requiresManagerApproval <==> inc.severity != Low || inc.estimatedCost > 5000
    ensures r.requiresSafetyReview <==>
              inc.severity == High || inc.incidentType == ElectricShock || inc.estimatedCost > 10000
    ensures r.status == (if inc.severity == Low then Reported else PendingApproval)
    ensures r == Classified(inc)
  {
    r := inc;
    // Severity rules
    match r.severity {
      case High =>
        r := r.(requiresManagerApproval := true, requiresSafetyReview := true, status := PendingApproval);
      case Medium =>
        r := r.(requiresManagerApproval := true, requiresSafetyReview := false, status := PendingApproval);
      case Low =>
        r := r.(requiresManagerApproval := false, requiresSafetyReview := false, status := Reported);
    }
    // Type rules
    match r.incidentType {
      case ElectricShock =>
        r := r.(requiresSafetyReview := true);
      case Fall =>
        if r.severity == High {
          r := r.(requiresManagerApproval := true, requiresSafetyReview := true);
        }
      case _ =>
    }
    // Cost rules
    if r.estimatedCost > 5000 {
      r := r.(requiresManagerApproval := true);
    }
    if r.estimatedCost > 10000 {
      r := r.(requiresSafetyReview := true);
    }
  }

  /** Classification reads only severity, type and cost and writes none of them, so classifying
      an already classified incident changes nothing. */
  lemma ClassifiedIdempotent(inc: Incident)
    ensures Classified(Classified(inc)) == Classified(inc)
  {
  }

  /** The severity rule alone decides when neither the type rule nor the cost rules apply:
      High gives (approval, review, PendingApproval), Medium (approval, no review,
      PendingApproval), Low (no approval, no review, Reported). */
  lemma SeverityDecidesAlone(severity: SeverityLevel, incidentType: IncidentType, estimatedCost: int)
    requires incidentType != ElectricShock && estimatedCost <= 5000
    ensures Classify(severity, incidentType, estimatedCost) ==
      match severity
      case High => Classification(true, true, PendingApproval)
      case Medium => Classification(true, false, PendingApproval)
      case Low => Classification(false, false, Reported)
  {
  }

  /** A low-severity incident whose approval comes from its cost alone keeps the status
      Reported: the rules never move it to PendingApproval. */
  lemma CostApprovalKeepsReported(incidentType: IncidentType, estimatedCost: int)
    requires estimatedCost > 5000
    ensures var c := Classify(Low, incidentType, estimatedCost);
      c.requiresManagerApproval && c.status == Reported
  {
  }
}
