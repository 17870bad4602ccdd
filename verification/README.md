# Hospital appointment booking: a Dafny model

This project models the core of a Django hospital-administration app (`app/models.py`).
The core is the rule a **registration** must pass before it is written. A registration is a
booked `(start, end)` slot in one doctor's **calendar**. The project also models the
doctor/calendar lifecycle and the field constraints declared on hospitals, departments,
patients and doctors.

Modules:

- `DateTimes` (`datetimes.dfy`): naive timestamps `DateTime(day, hour, minute, second, micro)`
  with Python's lexicographic comparison. `Micros` is the absolute instant and serves as a
  reference definition: `LessEqMatchesMicros` proves that the comparison is the order of instants.
- `Outcomes` (`outcomes.dfy`): a save either writes its row (`Saved`) or is refused with a
  reason (`Rejected(error)`). There is one error per exception the model raises.
- `Fields` (`fields.dfy`): the hospital, department, patient and doctor records. Also the
  declared constraints (`hospital_no >= 1`, a 12-character patient ID, unique
  `(hospital, department_name)`, unique `cabinet_number`) and the verdicts of the two saves
  that can violate a uniqueness constraint.
- `Booking` (`booking.dfy`): the registration checks as pure functions, run in the source's
  order: range, working time, calendar, existing start in range, existing end in range.
  `Schedule` is the invariant those checks keep: every stored slot is bookable, and two slots
  of one calendar share no instant unless one lies strictly inside the other. The module also
  holds lemmas about the checks and the scenarios that show the boundary behaviour.
- `Models` (`store.dfy`): class `Store` holds one table per model as fields. Its `Save…`
  methods are Django's `save()`: they check, then insert or replace the row under its primary
  key, or change nothing. `SaveDepartment`, `SaveDoctor` and `SaveRegistration` are proved
  against their verdict functions; `SaveHospital` and `SavePatient` state their single
  validator check in their own contracts. Every method keeps `Valid()`. That predicate holds the declared constraints, `calendars == doctors.Keys`
  (every doctor has its one calendar) and `Schedule`.

Timestamps are values passed in by the caller. Primary keys of new rows (registrations,
departments, doctors) are also parameters: the database's choice of a fresh key is not modelled.

The model follows the code at these boundaries:

- The range check refuses only `start > end`, so an empty slot `start == end` is accepted.
- The range lookups include both bounds. So a slot that starts exactly when another ends is
  refused (`TouchingRejected`).
- There is no self-exclusion. Re-saving a stored registration unchanged is always refused
  (`ResaveRejected`).
- Only the hour and minute of the end are read. So an end at 18:00:59 passes as well as 18:00:00.
- An existing slot that strictly encloses the new one is not detected (`EnclosedSlotAccepted`).
- Salary from rank, the Administration/Economic department bootstrap and the head-doctor
  assignment do not exist in `app/models.py`. A doctor has no rank field there.

## Model

| member | source | states |
|---|---|---|
| DateTimes.LessEqMatchesMicros | app/models.py:90 | for well-formed timestamps, the field-by-field comparison used by the range check and range lookups agrees with comparing absolute instants, and equal instants are equal timestamps |
| Booking.VerdictReasons | app/models.py:89-105 | each refusal is the first failing check in the fixed order: InvalidTimeRange iff start > end; OutsideWorkingTime iff ordered but outside working time; CalendarMissing iff both pass and the calendar is absent; TimeCorrupted iff all pass and some registration of the calendar has its start or its end in the new range |
| Booking.FilterNonEmpty | app/models.py:96-99 | the range lookup on a calendar returns a non-empty result iff some registration of that calendar has the filtered column inside the inclusive range |
| Booking.WorkingTimeWindow | app/models.py:93-94 | for well-formed timestamps, the working-time check passes iff the start is in [09:00, 18:00) and the end in [09:00, 18:00], measured to the minute; seconds and date are not read |
| Booking.AcceptedIff | app/models.py:89-105 | a registration is accepted iff it is ordered, in working time, its calendar exists, and every registration of that calendar ends before it, starts after it, or strictly encloses it (both directions) |
| Booking.CorruptedMeansOverlap | app/models.py:96-104 | a TimeCorrupted refusal always has a registration of the same calendar that really shares an instant with the new slot |
| Booking.AcceptedKeepsSchedule | app/models.py:89-105 | writing an accepted registration under any key keeps the schedule invariant: stored slots are bookable and in an existing calendar, and slots of one calendar overlap only by strict enclosure |
| Booking.ResaveRejected | app/models.py:96-99 | re-saving a stored registration unchanged is refused with TimeCorrupted, because its own start lies in its own range |
| Booking.TouchingRejected | app/models.py:101-104 | a bookable slot that starts exactly when a registration of its calendar ends is refused with TimeCorrupted |
| Booking.OverlapScenario | app/models.py:96-104 | with 09:00-09:30 booked, 09:15-09:45 and the touching 09:30-10:00 are refused and 10:00-10:30 is accepted |
| Booking.WorkingTimeScenario | app/models.py:93-94 | 08:00-09:00 and 17:30-18:01 are refused for working time; 17:30-18:00 and 17:30-18:00:59 are accepted |
| Booking.EnclosedSlotAccepted | app/models.py:96-104 | with 09:00-12:00 booked, 10:00-11:00 is accepted although it overlaps the stored slot |
| Fields.DepartmentVerdictKeepsUnique | app/models.py:18-23 | a department save is accepted iff its hospital exists and the (hospital, department_name) pairs stay unique; a save that would duplicate a pair is refused with DepartmentNameTaken |
| Fields.DoctorVerdictKeepsUnique | app/models.py:56 | a doctor save is accepted iff cabinet numbers stay unique afterwards |
| Models.Store.SaveHospital | app/models.py:8-12 | a hospital number below 1 is refused; otherwise the row under that number is inserted or replaced; the store stays valid |
| Models.Store.SaveDepartment | app/models.py:18-23 | the department verdict decides; an accepted row is inserted or replaced under its key, a refused one changes nothing; departments stay unique per hospital and reference existing hospitals |
| Models.Store.SavePatient | app/models.py:43-47 | an ID that is not exactly 12 characters is refused; otherwise the row under that ID is inserted or replaced |
| Models.Store.SaveDoctor | app/models.py:61-68 | the doctor row is written unless its cabinet number is taken; a calendar is added only when the doctor has none, so afterwards the doctor has exactly one; an existing calendar is never recreated; a refusal changes nothing |
| Models.Store.SaveRegistration | app/models.py:89-105 | the outcome is the verdict of the checks in source order; a refusal leaves every table unchanged; an acceptance writes exactly row `id` and keeps the schedule invariant |
| Models.SaveDoctorTwice | app/models.py:61-68 | saving a doctor twice gives the same verdict both times and leaves the same doctors and calendars as saving it once: one calendar per doctor |
| Models.ResaveRegistration | app/models.py:96-99 | saving a stored registration again is refused with TimeCorrupted and leaves the registrations unchanged |

## Left out

- Django ORM mechanics: queries, transactions, deletes and their cascades, and the database's choice of fresh primary keys (keys are parameters).
- Concurrency and locking around the read-check-write of a registration save: the model is sequential.
- The related name `calendar_items` used by the registration save is not declared on the registration's calendar key. The model reads it as "registrations whose calendar is this calendar".
- A missing calendar is modelled as the refusal CalendarMissing. In the source, a registration whose calendar key dangles raises `DoesNotExist` when the conflict lookup reads its calendar, right after the working-time check; the model refuses at the same point. The exception type itself is not modelled.
- Field validators (`MinValueValidator`, `MinLengthValidator`) run at every save in this model. Django runs them only from `full_clean`, so the model describes validated saves.
- Time zones: timestamps are naive, and hour and minute are read as stored.
- `Doctor.save` retries the parent save in its bare `except:` after any failure. The model replaces this with an explicit "has a calendar?" test and a single save that either succeeds or is refused for a taken cabinet number. Other exceptions are not modelled.
- Employee fields (authentication fields, `department`, `employee_type`, `description`), Nurse and its senior-doctor reference: plain records with no logic.
- `Salary` and `Medicament.price`: float-valued fields with no computation in the source.
- `Administration` and `Economic` only fix a department name. They carry no bootstrap and no head-doctor logic.
- Examination, Diagnose, Treatment, Medicament, MedicamentFirm, Referral, Equipment and Discharge: records without logic.
- `max_length` limits of the name fields and `__str__` formatting: no operation reads them.
- The seeding script `_playground.py`: file input, random numbers and bulk saves.
