/** The employee service: the directory checks on creating an employee and on recording a
    safety training, and the listings of active employees and of employees due for training. */
module EmployeeService {
  import opened Common
  import opened Models
  import opened Data
  import opened Ordering

  datatype EmployeeError =
    | EmployeeNotFound
    | InactiveEmployee
    | TrainingDateInFuture
    | TrainingDateTooOld
    | DuplicateEmployeeCode
    | HireDateInFuture
    | HireDateTooOld
    | LastTrainingInFuture
    | LastTrainingBeforeHire
    | InvalidTrainingLevel

  /** The message the service raises for each error: a sentence ending in a full stop. */
  function Message(e: EmployeeError): (r: string)
    ensures |r| > 0 && r[|r| - 1] == '.'
  {
    match e
    case EmployeeNotFound => "Employee not found."
    case InactiveEmployee => "Cannot update training record for inactive employee."
    case TrainingDateInFuture => "Training date cannot be in the future."
    case TrainingDateTooOld => "Training date cannot be more than 5 years in the past."
    case DuplicateEmployeeCode => "Employee code already exists."
    case HireDateInFuture => "Hire date cannot be in the future."
    case HireDateTooOld => "Hire date cannot be more than 50 years in the past."
    case LastTrainingInFuture => "Last safety training date cannot be in the future."
    case LastTrainingBeforeHire => "Last safety training date cannot be before hire date."
    case InvalidTrainingLevel => "Invalid safety training level."
  }

  /** The accepted safety training levels. */
  const TrainingLevels: seq<string> := ["Básico", "Intermediário", "Avançado", "Especialista"]

  /** Some stored employee, active or not, already has this code. */
  predicate CodeTaken(employees: map<Id, Employee>, code: string) {
    exists id :: id in employees && employees[id].employeeCode == code
  }

  /** No two employees of the directory share a code. */
  ghost predicate UniqueCodes(employees: map<Id, Employee>) {
    forall a, b :: (a in employees && b in employees
                    && employees[a].employeeCode == employees[b].employeeCode) ==> a == b
  }

  // ---------------------------------------------------------------------------------------
  // Creation

  /** The position of each creation check in the chain; errors creation never raises last. */
  function CreationRank(e: EmployeeError): nat {
    match e
    case DuplicateEmployeeCode => 0
    case HireDateInFuture => 1
    case HireDateTooOld => 2
    case LastTrainingInFuture => 3
    case LastTrainingBeforeHire => 4
    case InvalidTrainingLevel => 5
    case _ => 6
  }

  /** Each creation check on its own: whether the request fails it. */
  predicate CreationViolated(e: EmployeeError, employees: map<Id, Employee>, clock: Clock,
                             req: EmployeeCreateRequest) {
    match e
    case DuplicateEmployeeCode => CodeTaken(employees, req.employeeCode)
    case HireDateInFuture => req.hireDate > clock.now
    case HireDateTooOld => req.hireDate < clock.fiftyYearsAgo
    case LastTrainingInFuture => req.lastSafetyTraining.Some? && req.lastSafetyTraining.value > clock.now
    case LastTrainingBeforeHire =>
      req.lastSafetyTraining.Some? && req.lastSafetyTraining.value < req.hireDate
    case InvalidTrainingLevel =>
      !IsNullOrEmpty(req.safetyTrainingLevel) && req.safetyTrainingLevel.value !in TrainingLevels
    case _ => false
  }

  /** The creation checks in the service's order: unique code, hire date within the last 50
      years, a supplied last training neither in the future nor before the hire date, and a
      supplied non-empty training level among the accepted ones. A request passes exactly when
      it fails no check; otherwise the error is a check it fails, and it passes every earlier
      check. */
  function ValidateEmployeeCreation(employees: map<Id, Employee>, clock: Clock, req: EmployeeCreateRequest)
    : (r: Outcome<EmployeeError>)
    ensures r.Fail? ==> CreationViolated(r.error, employees, clock, req)
    ensures r == Pass ==> forall e :: !CreationViolated(e, employees, clock, req)
    ensures r.Fail? ==>
      forall e :: CreationRank(e) < CreationRank(r.error) ==> !CreationViolated(e, employees, clock, req)
  {
    if CodeTaken(employees, req.employeeCode) then Fail(DuplicateEmployeeCode)
    else if req.hireDate > clock.now then Fail(HireDateInFuture)
    else if req.hireDate < clock.fiftyYearsAgo then Fail(HireDateTooOld)
    else if req.lastSafetyTraining.Some? && req.lastSafetyTraining.value > clock.now
    then Fail(LastTrainingInFuture)
    else if req.lastSafetyTraining.Some? && req.lastSafetyTraining.value < req.hireDate
    then Fail(LastTrainingBeforeHire)
    else if !IsNullOrEmpty(req.safetyTrainingLevel) && req.safetyTrainingLevel.value !in TrainingLevels
    then Fail(InvalidTrainingLevel)
    else Pass
  }

  /** The employee built from a create request: active (the entity's default), with every
      field of the request copied. */
  function NewEmployee(req: EmployeeCreateRequest): (r: Employee)
    ensures r.isActive
    ensures && r.name == req.name && r.employeeCode == req.employeeCode
            && r.department == req.department && r.position == req.position
            && r.hireDate == req.hireDate && r.safetyTrainingLevel == req.safetyTrainingLevel
            && r.lastSafetyTraining == req.lastSafetyTraining
  {
    Employee(
      name := req.name,
      employeeCode := req.employeeCode,
      department := req.department,
      position := req.position,
      hireDate := req.hireDate,
      isActive := true,
      safetyTrainingLevel := req.safetyTrainingLevel,
      lastSafetyTraining := req.lastSafetyTraining)
  }

  /** Adding an employee that passed the checks keeps employee codes unique. */
  lemma CreationKeepsCodesUnique(employees: map<Id, Employee>, clock: Clock,
                                 req: EmployeeCreateRequest, newId: Id)
    requires UniqueCodes(employees) && newId !in employees
    requires ValidateEmployeeCreation(employees, clock, req) == Pass
    ensures UniqueCodes(employees[newId := NewEmployee(req)])
  {
    assert !CreationViolated(DuplicateEmployeeCode, employees, clock, req);
  }

  /** Creates an employee under the fresh id `newId`. When the request passes the checks the
      new employee is added, the directory grows by exactly one and codes stay unique; it is
      the only change to the database. */
  method CreateEmployee(db: Db, req: EmployeeCreateRequest, clock: Clock, newId: Id)
    returns (r: Result<Employee, EmployeeError>)
    requires newId !in db.employees
    modifies db
    ensures db.incidents == old(db.incidents) && db.inspections == old(db.inspections)
    ensures var v := ValidateEmployeeCreation(old(db.employees), clock, req);
      && (v.Fail? ==> r == Err(v.error) && db.employees == old(db.employees))
      && (v.Pass? ==> && r == Ok(NewEmployee(req))
                      && db.employees == old(db.employees)[newId := r.value]
                      && |db.employees| == |old(db.employees)| + 1
                      && (UniqueCodes(old(db.employees)) ==> UniqueCodes(db.employees)))
  {
    var v := ValidateEmployeeCreation(db.employees, clock, req);
    if v.Fail? {
      return Err(v.error);
    }
    var employee := NewEmployee(req);
    if UniqueCodes(db.employees) {
      CreationKeepsCodesUnique(db.employees, clock, req, newId);
    }
    db.employees := db.employees[newId := employee];
    r := Ok(employee);
  }

  // ---------------------------------------------------------------------------------------
  // Training record

  /** Recording a safety training on `date` for employee `id`. Refused, in this order, when the
      employee is missing, inactive, when the date is in the future, and when it is more than
      five years back. On success only the employee's last training date changes. */
  function RecordTraining(employees: map<Id, Employee>, id: Id, date: int, clock: Clock)
    : (r: Result<Employee, EmployeeError>)
    ensures id !in employees ==> r == Err(EmployeeNotFound)
    ensures id in employees && !employees[id].isActive ==> r == Err(InactiveEmployee)
    ensures id in employees && employees[id].isActive && date > clock.now ==> r == Err(TrainingDateInFuture)
    ensures (id in employees && employees[id].isActive && date <= clock.now && date < clock.fiveYearsAgo)
              ==> r == Err(TrainingDateTooOld)
    ensures r.Ok? <==> id in employees && employees[id].isActive && clock.fiveYearsAgo <= date <= clock.now
    ensures r.Ok? ==> r.value == employees[id].(lastSafetyTraining := Some(date))
  {
    if id !in employees then Err(EmployeeNotFound)
    else if !employees[id].isActive then Err(InactiveEmployee)
    else if date > clock.now then Err(TrainingDateInFuture)
    else if date < clock.fiveYearsAgo then Err(TrainingDateTooOld)
    else Ok(employees[id].(lastSafetyTraining := Some(date)))
  }

  /** Records a safety training: exactly the training transition on the stored employee. The
      body follows the service's statements guard by guard; the function `RecordTraining` is
      the specification it is proved against. */
  method UpdateTrainingRecord(db: Db, id: Id, date: int, clock: Clock) returns (r: Outcome<EmployeeError>)
    modifies db
    ensures db.incidents == old(db.incidents) && db.inspections == old(db.inspections)
    ensures match RecordTraining(old(db.employees), id, date, clock)
      case Ok(e) => r == Pass && db.employees == old(db.employees)[id := e]
      case Err(err) => r == Fail(err) && db.employees == old(db.employees)
  {
    if id !in db.employees {
      return Fail(EmployeeNotFound);
    }
    var employee := db.employees[id];
    if !employee.isActive {
      return Fail(InactiveEmployee);
    }
    if date > clock.now {
      return Fail(TrainingDateInFuture);
    }
    if date < clock.fiveYearsAgo {
      return Fail(TrainingDateTooOld);
    }
    employee := employee.(lastSafetyTraining := Some(date));
    db.employees := db.employees[id := employee];
    r := Pass;
  }

  /** Recording a training never changes an employee code, so codes stay unique. */
  lemma TrainingKeepsCodesUnique(employees: map<Id, Employee>, id: Id, date: int, clock: Clock)
    requires UniqueCodes(employees)
    requires RecordTraining(employees, id, date, clock).Ok?
    ensures UniqueCodes(employees[id := RecordTraining(employees, id, date, clock).value])
  {
    var e := RecordTraining(employees, id, date, clock).value;
    var after := employees[id := e];
    forall a, b | a in after && b in after && after[a].employeeCode == after[b].employeeCode
      ensures a == b
    {
      assert after[a].employeeCode == employees[a].employeeCode;
      assert after[b].employeeCode == employees[b].employeeCode;
    }
  }

  // ---------------------------------------------------------------------------------------
  // Listings

  /** The active-employee listing orders by name. */
  predicate ByName(p: (Id, Employee), q: (Id, Employee)) {
    StringLe(p.1.name, q.1.name)
  }

  /** The training listing orders by last training date, employees never trained first. */
  predicate ByLastTraining(p: (Id, Employee), q: (Id, Employee)) {
    NullsFirstLe(p.1.lastSafetyTraining, q.1.lastSafetyTraining)
  }

  lemma {:induction false} ByNameIsTotalPreorder()
    ensures TotalPreorder(ByName)
  {
    forall a, b ensures ByName(a, b) || ByName(b, a) {
      StringLeTotal(a.1.name, b.1.name);
    }
    forall a, b, c | ByName(a, b) && ByName(b, c) ensures ByName(a, c) {
      StringLeTransitive(a.1.name, b.1.name, c.1.name);
    }
  }

  lemma ByLastTrainingIsTotalPreorder()
    ensures TotalPreorder(ByLastTraining)
  {
  }

  predicate IsActive(e: Employee) {
    e.isActive
  }

  /** The active employees, each once, ordered by name. */
  function GetAll(employees: map<Id, Employee>): (r: seq<(Id, Employee)>)
    ensures forall p :: p in r <==> p.0 in employees && p.1 == employees[p.0] && p.1.isActive
    ensures forall id :: id in employees && employees[id].isActive ==> multiset(r)[(id, employees[id])] == 1
    ensures forall i, j :: 0 <= i < j < |r| ==> StringLe(r[i].1.name, r[j].1.name)
  {
    ByNameIsTotalPreorder();
    Query(employees, IsActive, ByName)
  }

  /** An active employee whose last training is unknown or older than six months. */
  predicate NeedsTraining(e: Employee, clock: Clock) {
    e.isActive && (e.lastSafetyTraining.None? || e.lastSafetyTraining.value < clock.sixMonthsAgo)
  }

  /** The employees due for training, each once, ordered by last training date with the
      never-trained first. */
  function GetEmployeesNeedingTraining(employees: map<Id, Employee>, clock: Clock): (r: seq<(Id, Employee)>)
    ensures forall p :: p in r <==> p.0 in employees && p.1 == employees[p.0] && NeedsTraining(p.1, clock)
    ensures forall id :: id in employees && NeedsTraining(employees[id], clock) ==>
              multiset(r)[(id, employees[id])] == 1
    ensures forall i, j :: 0 <= i < j < |r| ==>
              NullsFirstLe(r[i].1.lastSafetyTraining, r[j].1.lastSafetyTraining)
  {
    ByLastTrainingIsTotalPreorder();
    Query(employees, (e: Employee) => NeedsTraining(e, clock), ByLastTraining)
  }

  /** An employee whose training is recorded at or after the six-month threshold drops out of
      the training listing. */
  lemma RecordedTrainingLeavesListing(employees: map<Id, Employee>, id: Id, date: int, clock: Clock)
    requires RecordTraining(employees, id, date, clock).Ok?
    requires date >= clock.sixMonthsAgo
    ensures var after := employees[id := RecordTraining(employees, id, date, clock).value];
      forall p :: p in GetEmployeesNeedingTraining(after, clock) ==> p.0 != id
  {
  }

  /** With the clock's thresholds in calendar order, a training of an active employee dated
      within the last six months is always accepted, and it takes the employee off the
      training listing. */
  lemma RecentTrainingAccepted(employees: map<Id, Employee>, id: Id, date: int, clock: Clock)
    requires clock.Valid()
    requires id in employees && employees[id].isActive
    requires clock.sixMonthsAgo <= date <= clock.now
    ensures RecordTraining(employees, id, date, clock).Ok?
    ensures !NeedsTraining(RecordTraining(employees, id, date, clock).value, clock)
  {
  }

  /** A newly created employee appears in the listing of active employees. */
  lemma CreatedEmployeeIsListed(employees: map<Id, Employee>, req: EmployeeCreateRequest, newId: Id)
    ensures (newId, NewEmployee(req)) in GetAll(employees[newId := NewEmployee(req)])
  {
  }
}
