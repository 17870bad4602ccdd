/** The hospital database: one table per model, each save a method that runs
    the model's checks and then writes its row or leaves every table as it
    was. */
module Models {
  import opened DateTimes
  import opened Outcomes
  import opened Fields
  import opened Booking

  class Store {
    var hospitals: map<HospitalNo, Hospital>
    var departments: map<nat, Department>
    var patients: map<string, Patient>
    var doctors: map<DoctorId, Doctor>
    /** Calendar rows, keyed by (and standing for) the doctor they belong to. */
    var calendars: set<DoctorId>
    var registrations: map<RegistrationId, Registration>

    /** The declared constraints of every table, and the two lifecycle
        invariants: each doctor has its calendar and no calendar outlives its
        doctor, and the registrations form a schedule. */
    ghost predicate Valid()
      reads this
    {
      (forall no :: no in hospitals ==> ValidHospitalNo(no)) &&
      UniqueDepartments(departments) &&
      (forall k :: k in departments ==> departments[k].hospital in hospitals) &&
      (forall id :: id in patients ==> ValidPatientId(id)) &&
      UniqueCabinets(doctors) &&
      calendars == doctors.Keys &&
      Schedule(calendars, registrations)
    }

    constructor ()
      ensures Valid()
      ensures hospitals == map[] && departments == map[] && patients == map[]
      ensures doctors == map[] && calendars == {} && registrations == map[]
    {
      hospitals, departments, patients := map[], map[], map[];
      doctors, calendars, registrations := map[], {}, map[];
    }

    /** Hospital.save under primary key `no`: refused when `no` < 1,
        otherwise the row is inserted or replaced. */
    method SaveHospital(no: HospitalNo, h: Hospital) returns (outcome: Outcome)
      requires Valid()
      modifies this`hospitals
      ensures Valid()
      ensures outcome == if ValidHospitalNo(no) then Saved else Rejected(HospitalNoBelowOne)
      ensures hospitals == if outcome == Saved then old(hospitals)[no := h] else old(hospitals)
    {
      if no < 1 {
        return Rejected(HospitalNoBelowOne);
      }
      hospitals := hospitals[no := h];
      outcome := Saved;
    }

    /** Department.save as row `id`: refused when another row already has
        the same hospital and name, or when the hospital does not exist. */
    method SaveDepartment(id: nat, d: Department) returns (outcome: Outcome)
      requires Valid()
      modifies this`departments
      ensures Valid()
      ensures outcome == DepartmentVerdict(hospitals.Keys, old(departments), id, d)
      ensures departments == if outcome == Saved then old(departments)[id := d] else old(departments)
    {
      var taken := exists k :: k in departments && k != id && departments[k] == d;
      if taken {
        return Rejected(DepartmentNameTaken);
      }
      if d.hospital !in hospitals {
        return Rejected(HospitalMissing);
      }
      DepartmentVerdictKeepsUnique(hospitals.Keys, departments, id, d);
      departments := departments[id := d];
      outcome := Saved;
    }

    /** Patient.save under primary key `id`: refused unless the ID is exactly
        12 characters long. */
    method SavePatient(id: string, p: Patient) returns (outcome: Outcome)
      requires Valid()
      modifies this`patients
      ensures Valid()
      ensures outcome == if ValidPatientId(id) then Saved else Rejected(PatientIdLength)
      ensures patients == if outcome == Saved then old(patients)[id := p] else old(patients)
    {
      if |id| > 12 || |id| < 12 {
        return Rejected(PatientIdLength);
      }
      patients := patients[id := p];
      outcome := Saved;
    }

    /** Doctor.save as doctor `id`: the doctor row is written (refused when
        its cabinet number is taken), then a calendar is created for it only
        if it has none. */
    method SaveDoctor(id: DoctorId, d: Doctor) returns (outcome: Outcome)
      requires Valid()
      modifies this`doctors, this`calendars
      ensures Valid()
      ensures outcome == DoctorVerdict(old(doctors), id, d)
      ensures doctors == if outcome == Saved then old(doctors)[id := d] else old(doctors)
      ensures calendars == if outcome == Saved then old(calendars) + {id} else old(calendars)
      ensures outcome == Saved ==> id in calendars
      ensures id in old(calendars) ==> calendars == old(calendars)
    {
      var hasCalendar := id in calendars;
      var taken := exists k :: k in doctors && k != id && doctors[k].cabinetNumber == d.cabinetNumber;
      if taken {
        return Rejected(CabinetNumberTaken);
      }
      DoctorVerdictKeepsUnique(doctors, id, d);
      doctors := doctors[id := d];
      if !hasCalendar {
        calendars := calendars + {id};
      }
      outcome := Saved;
    }

    /** Registration.save as row `id`: the range, working-time, calendar and
        conflict checks in that order, then the row is inserted or replaced.
        A refused save changes nothing; an accepted one changes only row `id`. */
    method SaveRegistration(id: RegistrationId, r: Registration) returns (outcome: Outcome)
      requires Valid()
      modifies this`registrations
      ensures Valid()
      ensures outcome == RegistrationVerdict(calendars, old(registrations), r)
      ensures registrations == if outcome == Saved then old(registrations)[id := r] else old(registrations)
    {
      if Less(r.end, r.start) {
        return Rejected(InvalidTimeRange);
      }
      if !InWorkingTime(r.start, r.end) {
        return Rejected(OutsideWorkingTime);
      }
      if r.calendar !in calendars {
        return Rejected(CalendarMissing);
      }
      var calendarSet := RangeFilter(registrations, r.calendar, StartTime, r.start, r.end);
      if |calendarSet| > 0 {
        return Rejected(TimeCorrupted);
      }
      calendarSet := RangeFilter(registrations, r.calendar, EndTime, r.start, r.end);
      if |calendarSet| > 0 {
        return Rejected(TimeCorrupted);
      }
      AcceptedKeepsSchedule(calendars, registrations, id, r);
      registrations := registrations[id := r];
      outcome := Saved;
    }
  }

  /** Saving the same doctor twice is the same as saving it once: the second
      save gets the same verdict and creates no further calendar. */
  method SaveDoctorTwice(s: Store, id: DoctorId, d: Doctor) returns (first: Outcome, second: Outcome)
    requires s.Valid()
    modifies s`doctors, s`calendars
    ensures s.Valid()
    ensures second == first
    ensures s.doctors == if first == Saved then old(s.doctors)[id := d] else old(s.doctors)
    ensures s.calendars == if first == Saved then old(s.calendars) + {id} else old(s.calendars)
  {
    first := s.SaveDoctor(id, d);
    second := s.SaveDoctor(id, d);
  }

  /** Re-saving a registration already in the table is refused and leaves it
      untouched. */
  method ResaveRegistration(s: Store, id: RegistrationId) returns (outcome: Outcome)
    requires s.Valid()
    requires id in s.registrations
    modifies s`registrations
    ensures s.Valid()
    ensures outcome == Rejected(TimeCorrupted)
    ensures s.registrations == old(s.registrations)
  {
    ResaveRejected(s.calendars, s.registrations, id);
    outcome := s.SaveRegistration(id, s.registrations[id]);
  }
}
