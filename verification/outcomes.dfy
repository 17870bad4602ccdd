/** What a save reports: it either writes its row or is refused, and a refusal
    names the check that failed. */
module Outcomes {

  /** The refusals a save can meet. */
  datatype Error =
    | InvalidTimeRange       // Registration: start_time > end_time
    | OutsideWorkingTime     // Registration: an endpoint outside 09:00-18:00
    | CalendarMissing        // Registration: its calendar row does not exist
    | TimeCorrupted          // Registration: an existing endpoint falls in the new range
    | HospitalNoBelowOne     // Hospital: hospital_no < 1
    | HospitalMissing        // Department: its hospital row does not exist
    | DepartmentNameTaken    // Department: (hospital, department_name) already used
    | PatientIdLength        // Patient: ID is not exactly 12 characters
    | CabinetNumberTaken     // Doctor: cabinet_number already used by another doctor

  datatype Outcome = Saved | Rejected(error: Error)
}
