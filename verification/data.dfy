/** The application's database context: the incident, employee and safety-inspection tables
    that both services read and write. */
module Data {
  import opened Common
  import opened Models

  /** The tables at one moment, as the pure validation rules see them. */
  datatype Snapshot = Snapshot(
    incidents: map<Id, Incident>,
    employees: map<Id, Employee>,
    inspections: set<Id>
  )

  class Db {
    var incidents: map<Id, Incident>
    var employees: map<Id, Employee>
    /** Only the ids of the safety inspections matter: the services only ask whether one exists. */
    var inspections: set<Id>

    constructor (employees: map<Id, Employee>, inspections: set<Id>)
      ensures this.incidents == map[]
      ensures this.employees == employees && this.inspections == inspections
    {
      this.incidents := map[];
      this.employees := employees;
      this.inspections := inspections;
    }

    function Snap(): (s: Snapshot)
      reads this
      ensures s.incidents == incidents && s.employees == employees && s.inspections == inspections
    {
      Snapshot(incidents, employees, inspections)
    }
  }
}
