/** The records the services work on: incidents, employees, and the requests that create
    or change them. */
module Models {
  import opened Common

  datatype IncidentType = Fall | ElectricShock | ImproperUseOfPPE | Collision | Other

  datatype SeverityLevel = Low | Medium | High

  datatype IncidentStatus = Reported | PendingApproval | Approved | Closed

  /** A stored incident. Besides the columns of the entity class, it carries the fields the
      incident service reads and writes although the entity class does not declare them
      (safety review flag, approval date and approver, investigation notes, linked inspection).
      Relationships are foreign-key ids only. */
  datatype Incident = Incident(
    date: int,
    location: string,
    description: string,
    incidentType: IncidentType,
    severity: SeverityLevel,
    correctiveAction: Option<string>,
    isResolved: bool,
    resolvedDate: Option<int>,
    reportedById: Id,
    involvedEmployeeId: Option<Id>,
    safetyInspectionId: Option<Id>,
    status: IncidentStatus,
    requiresManagerApproval: bool,
    requiresSafetyReview: bool,
    managerApprovalDate: Option<int>,
    managerApprovedBy: Option<string>,
    investigationNotes: Option<string>,
    estimatedCost: int
  )

  /** The body of a create-incident request. The near-miss flag and the witnesses have no
      counterpart on the stored incident: the create mapping drops them. */
  datatype IncidentCreateRequest = IncidentCreateRequest(
    date: int,
    location: string,
    incidentType: IncidentType,
    description: string,
    severity: SeverityLevel,
    correctiveAction: Option<string>,
    reportedById: Id,
    involvedEmployeeId: Option<Id>,
    safetyInspectionId: Option<Id>,
    investigationNotes: Option<string>,
    estimatedCost: int,
    isNearMiss: bool,
    witnesses: Option<string>
  )

  /** The body of an update-incident request: every field is optional, and only the supplied
      ones are written onto the stored incident. */
  datatype IncidentUpdateRequest = IncidentUpdateRequest(
    location: Option<string>,
    description: Option<string>,
    incidentType: Option<IncidentType>,
    severity: Option<SeverityLevel>,
    correctiveAction: Option<string>,
    involvedEmployeeId: Option<Id>,
    safetyInspectionId: Option<Id>,
    status: Option<IncidentStatus>,
    estimatedCost: Option<int>
  )

  datatype Employee = Employee(
    name: string,
    employeeCode: string,
    department: string,
    position: string,
    hireDate: int,
    isActive: bool,
    safetyTrainingLevel: Option<string>,
    lastSafetyTraining: Option<int>
  )

  /** The body of a create-employee request. */
  datatype EmployeeCreateRequest = EmployeeCreateRequest(
    name: string,
    employeeCode: string,
    department: string,
    position: string,
    hireDate: int,
    safetyTrainingLevel: Option<string>,
    lastSafetyTraining: Option<int>
  )

  /** `string.IsNullOrEmpty`. */
  predicate IsNullOrEmpty(s: Option<string>) {
    s.None? || s.value == ""
  }
}
