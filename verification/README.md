# Safety incidents: rule engine and lifecycle, in Dafny

This project models the core of a workplace-safety incident tracking service. Employees report
incidents. A rule engine validates each report and classifies it from its severity, type and
estimated cost: it decides whether the incident needs manager approval and/or safety review, and
sets its initial status. Managers approve pending incidents, and incidents are closed once their
gates are satisfied. A second, smaller service keeps the employee directory: it validates new
employees, records safety trainings, and lists active employees and employees due for training.

Layout, one module per file:

- `common.dfy` (`Common`): ids, `Option`/`Result`/`Outcome`, calendar day, and the `Clock` of
  supplied time thresholds.
- `models.dfy` (`Models`): the incident and employee records, and the create/update requests.
- `data.dfy` (`Data`): the database context as a class `Db`. It holds the incident and employee
  tables as maps from id to record, plus the set of safety-inspection ids. The service operations
  reassign these maps.
- `business_rules.dfy` (`BusinessRules`): classification. `Classify` is a table-driven reference
  definition. `ApplyBusinessRules` is the step-by-step field overwriting of the service, proved
  equal to it.
- `incident_validation.dfy` (`IncidentValidation`): error codes and their exact messages, the
  creation guard chain, the duplicate query, the update checks, and the field mapping of an update.
- `incident_lifecycle.dfy` (`IncidentLifecycle`): the approve and close transitions on one record,
  and what sequences of them can reach.
- `incident_service.dfy` (`IncidentService`): create, update, approve and close on the database,
  and the pending-approval and high-risk listings.
- `employee_service.dfy` (`EmployeeService`): employee creation, training record, and the two
  employee listings.
- `ordering.dfy` (`Ordering`): the filter-and-sort shape shared by every listing.

Behaviour of the code that the model keeps on purpose:

- A cost above 5000 raises the approval flag but leaves a Low-severity incident at `Reported`.
  Approve then refuses it as not pending, and Close refuses it as unapproved. A Low-severity
  electric shock needs review but not approval: Approve refuses it as not requiring approval, and
  Close refuses it for missing review. Both stay stuck forever under approve and close
  (`StuckIsForever`, `NewIncidentStuck`).
- Update writes the supplied fields before it compares severities, so the comparison is never true
  and classification is never re-run (`SeverityTestAfterMappingIsFalse`, `UpdateIncident`). The
  update request may set the status directly, which bypasses approval
  (`UpdateStatusBypassesApproval`).
- Close checks the safety-review flag as a gate of its own, after the approval gate.

## Model

| member | source | states |
|---|---|---|
| `BusinessRules.Classify` | SafetyIncidentsApp/Services/IncidentService.cs:273-320 | Approval is required iff severity is not Low or cost > 5000. Review is required iff severity is High, the type is ElectricShock, or cost > 10000. Status is Reported for Low and PendingApproval otherwise. The type and cost rules only raise flags over the severity baseline and never change the status. |
| `BusinessRules.ApplyBusinessRules` | SafetyIncidentsApp/Services/IncidentService.cs:273-320 | The three rule blocks, applied one after another, yield exactly the table classification. Only the two flags and the status change. |
| `BusinessRules.SeverityDecidesAlone` | SafetyIncidentsApp/Services/IncidentService.cs:276-295 | With no electric shock and cost ≤ 5000, severity alone decides: High gives (approval, review, PendingApproval), Medium gives (approval, no review, PendingApproval), Low gives (no approval, no review, Reported). |
| `BusinessRules.ClassifiedIdempotent` | SafetyIncidentsApp/Services/IncidentService.cs:298-319 | Classifying an already classified incident changes nothing. |
| `BusinessRules.CostApprovalKeepsReported` | SafetyIncidentsApp/Services/IncidentService.cs:290-314 | Low severity with cost > 5000 requires approval, yet the status stays Reported. |
| `IncidentValidation.ValidateIncidentCreation` | SafetyIncidentsApp/Services/IncidentService.cs:169-212 | The checks run in a fixed order: future date, date older than one year, unknown or inactive reporter, unknown or inactive involved employee (only when one is supplied), unknown inspection (only when one is supplied), duplicate, type gate. A request passes iff it fails no check. Otherwise the error is a check it fails, and it passes every earlier check. |
| `IncidentValidation.ValidateTypeSpecificRules` | SafetyIncidentsApp/Services/IncidentService.cs:236-271 | A high fall without a corrective action fails. An electric shock above Low without investigation notes fails. A PPE incident whose involved employee's training is missing or older than six months fails. Each of these is an iff. Collision and Other always pass. |
| `IncidentValidation.DuplicateIgnoresTimeOfDay` | SafetyIncidentsApp/Services/IncidentService.cs:322-329 | The duplicate query depends only on the calendar day of the date. |
| `IncidentValidation.IsDuplicate` | SafetyIncidentsApp/Services/IncidentService.cs:322-329 | The scan over the stored incidents answers yes iff some stored incident has the same location, description, calendar day and reporter as the request. |
| `IncidentValidation.ResubmissionIsDuplicate` | SafetyIncidentsApp/Services/IncidentService.cs:205-208 | Once an accepted request's incident is stored, the same request is refused as a duplicate. Every earlier check still passes. |
| `IncidentValidation.NewIncident` | SafetyIncidentsApp/Mappings/MappingProfile.cs:16-23 | The created record starts Reported and unresolved, with no flags and no approval: the mapping ignores these fields and the entity's defaults apply. It carries the request's type, severity, cost, corrective action, linked employee and inspection, and notes, and it is the same submission as its request. |
| `IncidentValidation.ValidateIncidentUpdate` | SafetyIncidentsApp/Services/IncidentService.cs:214-234 | A supplied involved employee must exist, then must be active. After that, a supplied inspection must exist. Each error is characterised iff. |
| `IncidentValidation.Message` | SafetyIncidentsApp/Services/IncidentService.cs:53-271 | Gives the exact exception text for each rejection. Each text is a sentence ending in a full stop. |
| `IncidentValidation.UpdateWritesSuppliedFields` | SafetyIncidentsApp/Mappings/MappingProfile.cs:25-33 | Each field the request supplies takes the supplied value, including Status. Each field it leaves out keeps its value. |
| `IncidentValidation.UpdateFields` | SafetyIncidentsApp/Mappings/MappingProfile.cs:25-32 | The fields the update mapping ignores or does not carry never change on update: date, reporter, resolution, both flags, approval date, approver and investigation notes. |
| `IncidentValidation.UpdateFieldsIdempotent` | SafetyIncidentsApp/Mappings/MappingProfile.cs:33 | Applying the same update twice equals applying it once. |
| `IncidentValidation.SeverityTestAfterMappingIsFalse` | SafetyIncidentsApp/Services/IncidentService.cs:64-70 | After the mapping, the "severity changed" test is false, so classification is not re-run. |
| `IncidentLifecycle.Approve` | SafetyIncidentsApp/Services/IncidentService.cs:138-155 | Without the approval flag it fails with "does not require approval", checked first. Otherwise it fails "not pending approval" unless the status is PendingApproval. It succeeds iff both hold, and then the status becomes Approved, the approver and date are recorded, and nothing else changes. |
| `IncidentLifecycle.Close` | SafetyIncidentsApp/Services/IncidentService.cs:78-100 | Checks run in order: already resolved, then approval required but not Approved, then review required but not Approved. It succeeds iff the incident is unresolved and approved whenever a gate applies. On success it is resolved at `now` with status Closed, and nothing else changes. |
| `IncidentLifecycle.StuckIsForever` | SafetyIncidentsApp/Services/IncidentService.cs:85-93 | An unresolved incident that needs approval or review but is neither pending nor approved is unchanged by any sequence of approve and close requests. |
| `IncidentLifecycle.ReviewOnlyIsForever` | SafetyIncidentsApp/Services/IncidentService.cs:85-93 | An unresolved incident that needs review but not approval, and is not Approved, is unchanged by any sequence of approve and close requests, even when an update made it PendingApproval. |
| `IncidentLifecycle.NewIncidentStuck` | SafetyIncidentsApp/Services/IncidentService.cs:290-319 | A new Low incident is stuck when its cost is above 5000 or it is an electric shock. |
| `IncidentLifecycle.NewIncidentRespectsGates` | SafetyIncidentsApp/Services/IncidentService.cs:36-51 | A newly created incident satisfies the gate invariant. |
| `IncidentLifecycle.RunRespectsGates` | SafetyIncidentsApp/Services/IncidentService.cs:78-100 | Approve and close keep the gate invariant and the flags. Resolved goes with Closed. A closed or approved incident that needed approval has an approver on record, and so does a closed one that needed review. |
| `IncidentLifecycle.HighSeverityApproveThenClose` | SafetyIncidentsApp/Services/IncidentService.cs:138-155 | A new High incident is pending, with both flags set. Close before Approve fails "requires manager approval". After Approve it is Approved with the approver recorded, and Close then makes it Closed and resolved. |
| `IncidentLifecycle.UpdateStatusBypassesApproval` | SafetyIncidentsApp/DTOs/IncidentUpdateDto.cs:23 | An update that sets status Approved lets a pending incident be closed with no approver on record, breaking the gate invariant. |
| `IncidentService.CreateIncident` | SafetyIncidentsApp/Services/IncidentService.cs:36-51 | A refused request changes nothing and returns the validation error. An accepted request adds exactly the classified new incident under the new id. |
| `IncidentService.UpdateIncident` | SafetyIncidentsApp/Services/IncidentService.cs:53-76 | Checks run in order: not found, then resolved ("Cannot update a resolved incident", before anything else is looked at), then validation. On success the stored record becomes the mapped incident without re-classification. |
| `IncidentService.ApproveIncident` | SafetyIncidentsApp/Services/IncidentService.cs:138-155 | A missing incident fails with not found. Otherwise the store changes by exactly the `Approve` transition, or not at all when it fails. |
| `IncidentService.CloseIncident` | SafetyIncidentsApp/Services/IncidentService.cs:78-100 | A missing incident fails with not found. Otherwise the store changes by exactly the `Close` transition, or not at all when it fails. |
| `IncidentService.GetPendingApproval` | SafetyIncidentsApp/Services/IncidentService.cs:126-136 | Returns exactly the incidents that require approval and are PendingApproval, each once, newest first. |
| `IncidentService.GetHighRisk` | SafetyIncidentsApp/Services/IncidentService.cs:157-167 | Returns exactly the incidents with High severity or cost > 10000, each once, newest first. |
| `IncidentService.NewIncidentPendingIffNotLow` | SafetyIncidentsApp/Services/IncidentService.cs:131 | A newly classified incident is in the pending listing iff its severity is not Low. |
| `IncidentService.NewHighRiskNeedsReview` | SafetyIncidentsApp/Services/IncidentService.cs:162 | A newly classified high-risk incident needs safety review. |
| `EmployeeService.ValidateEmployeeCreation` | SafetyIncidentsApp/Services/EmployeeService.cs:91-124 | Checks run in order: code already used, hire date in the future or more than 50 years back, supplied last training in the future or before the hire date, non-empty level outside the four accepted ones. The first failing check decides the error, and a request passes iff it fails none. |
| `EmployeeService.CreationKeepsCodesUnique` | SafetyIncidentsApp/Services/EmployeeService.cs:93-98 | Adding an employee that passed validation keeps employee codes unique across the directory. |
| `EmployeeService.NewEmployee` | SafetyIncidentsApp/Services/EmployeeService.cs:41 | The created employee is active, as the entity default sets it, and every field of the request is copied. |
| `EmployeeService.CreateEmployee` | SafetyIncidentsApp/Services/EmployeeService.cs:37-47 | A refused request changes nothing. An accepted one adds exactly the new active employee: the directory grows by one and codes stay unique. |
| `EmployeeService.CreatedEmployeeIsListed` | SafetyIncidentsApp/Services/EmployeeService.cs:21-29 | A newly created employee is in the listing of active employees. |
| `EmployeeService.RecordTraining` | SafetyIncidentsApp/Services/EmployeeService.cs:72-89 | Refusals come in order: not found, inactive, date in the future, date more than five years back. It succeeds iff none applies, and then only the last training date changes. |
| `EmployeeService.UpdateTrainingRecord` | SafetyIncidentsApp/Services/EmployeeService.cs:72-89 | The directory changes by exactly the `RecordTraining` transition, or not at all when it fails. |
| `EmployeeService.TrainingKeepsCodesUnique` | SafetyIncidentsApp/Services/EmployeeService.cs:87 | Recording a training keeps codes unique. |
| `EmployeeService.Message` | SafetyIncidentsApp/Services/EmployeeService.cs:72-124 | Gives the exact exception text for each rejection. Each text is a sentence ending in a full stop. |
| `EmployeeService.GetAll` | SafetyIncidentsApp/Services/EmployeeService.cs:21-29 | Returns exactly the active employees, each once, ordered by name (code-point order). |
| `EmployeeService.GetEmployeesNeedingTraining` | SafetyIncidentsApp/Services/EmployeeService.cs:59-70 | Returns exactly the active employees whose training is missing or before the six-month threshold, each once, ordered by training date with missing dates first. |
| `EmployeeService.RecordedTrainingLeavesListing` | SafetyIncidentsApp/Services/EmployeeService.cs:61-65 | After a training is recorded at or after the six-month threshold, the employee is no longer in the training listing. |
| `EmployeeService.RecentTrainingAccepted` | SafetyIncidentsApp/Services/EmployeeService.cs:72-89 | When the clock's thresholds are in calendar order, a training of an active employee dated within the last six months is accepted, and the employee then no longer needs training. |

## Left out

- Time: `DateTime.UtcNow` and the calendar arithmetic `AddMonths(-6)`, `AddYears(-1)`, `AddYears(-5)` and `AddYears(-50)` become a supplied `Clock` of instants. One clock serves a whole request, whereas the code reads the system clock at each check.
- Ids: new Guids are supplied by the caller and assumed fresh, and an incident or employee id is an opaque number.
- Asynchrony, EF Core persistence, and repository round trips (re-reading the created incident with its relations) are not modelled. Each operation is one atomic change of the `Db` maps.
- The incident read DTO and the navigation properties (reporter and involved-employee names) are not modelled. Operations return the stored record.
- The controllers, HTTP status mapping, dependency injection and host wiring are not modelled.
- The DTO validation attributes enforced by the framework are not modelled: length limits on location, description and notes, and a non-negative cost. Costs are unbounded integers. The rules only compare them, so 32-bit width plays no part.
- The update request as declared has no `SafetyInspectionId`, but the update check reads one. The model gives the update request that optional field, and the mapping copies it like the others.
- The incident queries by severity, by employee and for recent incidents, the by-department employee list, and the get-by-id reads are not part of the modelled core. The by-employee and by-department queries filter and sort the context themselves. They have the same filter-and-sort shape as `Ordering.Query`, which the modelled listings use.
- The create request's near-miss flag and witnesses have no column on the stored incident. The create mapping drops them, and the model's incident record does not carry them.
- Safety inspections are only ids: the services only ask whether one exists.
- The listings break ties between equal sort keys by ascending id, whereas the database leaves that order unspecified.
