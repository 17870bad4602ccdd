/** The records of the hospital database other than calendars and
    registrations, with the constraints their fields declare. */
module Fields {
  import opened Outcomes

  /** A hospital's primary key. */
  type HospitalNo = int

  /** A doctor's primary key; a doctor's calendar is keyed by it as well. */
  type DoctorId = int

  datatype Hospital = Hospital(name: string, location: string)

  /** A department row: the hospital it belongs to and its name. */
  datatype Department = Department(hospital: HospitalNo, name: string)

  datatype Patient = Patient(firstName: string, lastName: string)

  /** The one field a doctor adds to an employee that has a constraint. */
  datatype Doctor = Doctor(cabinetNumber: int)

  /** MinValueValidator(1) on hospital_no. */
  predicate ValidHospitalNo(no: HospitalNo) {
    no >= 1
  }

  /** max_length=12 together with MinLengthValidator(12) on a patient's ID. */
  predicate ValidPatientId(id: string) {
    |id| <= 12 && |id| >= 12
  }

  /** unique_together (hospital, department_name): no two department rows
      have the same hospital and name. */
  ghost predicate UniqueDepartments(departments: map<nat, Department>) {
    forall i, j :: i in departments && j in departments && i != j ==>
      departments[i] != departments[j]
  }

  /** unique=True on cabinet_number: no two doctors share a cabinet. */
  ghost predicate UniqueCabinets(doctors: map<DoctorId, Doctor>) {
    forall i, j :: i in doctors && j in doctors && i != j ==>
      doctors[i].cabinetNumber != doctors[j].cabinetNumber
  }

  /** Whether writing `d` as department row `id` gets past the unique pair
      and the hospital reference. */
  function DepartmentVerdict(hospitals: set<HospitalNo>, departments: map<nat, Department>,
                             id: nat, d: Department): (outcome: Outcome)
  {
    if exists k :: k in departments && k != id && departments[k] == d then
      Rejected(DepartmentNameTaken)
    else if d.hospital !in hospitals then
      Rejected(HospitalMissing)
    else
      Saved
  }

  /** Whether writing `d` as doctor `id` gets past the unique cabinet number. */
  function DoctorVerdict(doctors: map<DoctorId, Doctor>, id: DoctorId, d: Doctor): (outcome: Outcome) {
    if exists k :: k in doctors && k != id && doctors[k].cabinetNumber == d.cabinetNumber then
      Rejected(CabinetNumberTaken)
    else
      Saved
  }

  /** A department save is accepted exactly when its hospital exists and the
      table keeps unique (hospital, name) pairs afterwards; the name clash is
      the one reported when both fail. */
  lemma DepartmentVerdictKeepsUnique(hospitals: set<HospitalNo>, departments: map<nat, Department>,
                                     id: nat, d: Department)
    requires UniqueDepartments(departments)
    ensures DepartmentVerdict(hospitals, departments, id, d) == Saved <==>
      d.hospital in hospitals && UniqueDepartments(departments[id := d])
    ensures !UniqueDepartments(departments[id := d]) ==>
      DepartmentVerdict(hospitals, departments, id, d) == Rejected(DepartmentNameTaken)
  {
    var after := departments[id := d];
    if k :| k in departments && k != id && departments[k] == d {
      assert k in after && id in after && after[k] == after[id];
    } else {
      forall i, j | i in after && j in after && i != j
        ensures after[i] != after[j]
      {
        if i != id && j != id {
          assert departments[i] != departments[j];
        }
      }
    }
  }

  /** A doctor save is accepted exactly when the doctors keep distinct
      cabinet numbers afterwards. */
  lemma DoctorVerdictKeepsUnique(doctors: map<DoctorId, Doctor>, id: DoctorId, d: Doctor)
    requires UniqueCabinets(doctors)
    ensures DoctorVerdict(doctors, id, d) == Saved <==> UniqueCabinets(doctors[id := d])
  {
    var after := doctors[id := d];
    if k :| k in doctors && k != id && doctors[k].cabinetNumber == d.cabinetNumber {
      assert k in after && id in after && after[k].cabinetNumber == after[id].cabinetNumber;
    } else {
      forall i, j | i in after && j in after && i != j
        ensures after[i].cabinetNumber != after[j].cabinetNumber
      {
        if i != id && j != id {
          assert doctors[i].cabinetNumber != doctors[j].cabinetNumber;
        }
      }
    }
  }
}
