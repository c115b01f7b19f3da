# Clinic slot booking — a Dafny model

This project models the slot-booking core of a small in-memory clinic
scheduler (`hospital.py`). A `Doctor` keeps `booked_slots`, a map from a date
label to the list of time labels reserved on that date. `is_available` asks
whether a time is listed under a date. `book_slot` appends a time to a date's
list without checking. The `HospitalSystem` holds the doctors (three seeded
at start-up), the patients and the appointment log. It offers `find_doctor`
(a linear search by id), `register_patient` (id = number of patients + 1) and
the booking transaction inside `book_appointment`.

The model is functional. Every operation is a pure function from a `System`
value to a new one. Dates and times are opaque strings compared by exact
equality. An appointment refers to its doctor and its patient by their
positions in the system's lists; these stand for the Python object references.

Modules:
- `Optional`: the `Option` datatype returned by the doctor lookup.
- `Doctors`: `Doctor`, `IsAvailable`, `BookSlot`, and the set-of-slots view `Schedule` used to state them.
- `Hospital`: `Patient`, `Appointment`, `System`, `Seed`, `FindDoctor`, `RegisterPatient` and `BookAppointment`, which returns `Booked(appt)`, `NotFound` or `Conflict`.
- `Invariants`: the consistency invariant `Valid`, its preservation by every step, and "no double booking" for any session that starts from the seed.
- `Scenarios`: concrete sessions from the start-up state.

`Valid` says four things. Every doctor's date lists are duplicate-free. Every
appointment points at a listed doctor and patient and has an id in
[1000, 9999]. The n-th patient has id n. For every doctor and every
(date, time), exactly one logged appointment holds the slot if it is booked,
and none does if it is free.

Three behaviours of the code are kept as written:
- A date's booked times are a list, not a set: `book_slot` appends even when the time is already there. `BookSlotNoDuplicates` shows that this breaks duplicate-freedom exactly when the slot was taken. The booking transaction never does that, because it checks first.
- Every booking attempt registers its patient first (hospital.py:82), before the doctor lookup, so the patient list grows on every outcome. Doctors and the log stay unchanged on `NotFound` and `Conflict`.
- Appointment ids come from `random.randint(1000, 9999)` with no collision check. The model proves only the range, and `AppointmentIdsMayCollide` exhibits two confirmed appointments with the same id.

## Model

| member | source | states |
|---|---|---|
| Doctors.IsAvailable | hospital.py:12-17 | a slot is free iff (date, time) is not in the doctor's schedule, iff the time is not in that date's list; a date with no entry is always free |
| Doctors.BookSlot | hospital.py:19-23 | the date gets an entry if missing; its list becomes the old list (or empty) with the time appended; other dates and the doctor's identity are unchanged; the slot is no longer available |
| Doctors.BookSlotSchedule | hospital.py:19-23 | reserving a slot adds exactly that (date, time) to the doctor's set of booked slots |
| Doctors.BookSlotAvailability | hospital.py:12-23 | after a reservation a slot is free iff it was free before and is not the reserved one |
| Doctors.BookSlotNoDuplicates | hospital.py:21-23 | on duplicate-free lists, a reservation keeps them duplicate-free iff the slot was free; booking a taken slot lists its time twice |
| Hospital.Seed | hospital.py:41-51 | start-up has three doctors with ids 1, 2, 3 and no reservations, no patients and no appointments |
| Hospital.FindDoctor | hospital.py:53-57 | returns the first position whose doctor has the id, and None iff no doctor has it |
| Hospital.RegisterPatient | hospital.py:64-66 | appends one patient with id = previous count + 1 and the given details; earlier patients, doctors and the log are unchanged |
| Hospital.BookAppointment | hospital.py:82-109 | the patient is registered on every path; NotFound iff no doctor has the id; Conflict iff the first such doctor has the slot taken; a failure leaves doctors and log unchanged; a success reserves that slot of that doctor only and appends one appointment for that doctor, the new patient, date and time |
| Invariants.SeedValid | hospital.py:41-51 | the start-up state satisfies the consistency invariant |
| Invariants.RegisterPreservesValid | hospital.py:64-66 | registering a patient preserves the consistency invariant, including "the n-th patient has id n" |
| Invariants.BookPreservesValid | hospital.py:92-109 | every booking attempt, whatever its outcome, preserves the consistency invariant |
| Invariants.BookChangesOnlyThatSlot | hospital.py:102-105 | after an attempt a doctor's slot is free iff it was free before and the attempt did not book exactly that slot of that doctor |
| Invariants.NoDoubleBooking | hospital.py:102-105 | in a consistent system no two appointments hold the same slot of the same doctor |
| Invariants.TakenIffLogged | hospital.py:102-105 | in a consistent system a doctor's slot is booked iff some logged appointment holds it |
| Invariants.CountZero | hospital.py:105 | a slot's appointment count is zero iff no logged appointment holds it |
| Invariants.RunPreservesValid | hospital.py:131-134 | any session of booking attempts keeps the system consistent |
| Invariants.RunGrows | hospital.py:82-105 | each attempt registers exactly one patient; doctors are never added, removed or reordered and keep their id, name and specialization; the log only grows and keeps its earlier entries in order |
| Invariants.SessionFromSeed | hospital.py:41-109 | after any session from start-up, the n-th patient has id n and no two appointments share a doctor's slot |
| Scenarios.SeedLookups | hospital.py:48-57 | ids 1, 2, 3 resolve to Sarah Smith/Cardiology, John Doe/Dermatology, Emily Chen/Pediatrics; every other id is not found |
| Scenarios.BookingSession | hospital.py:82-109 | a first booking succeeds; the same slot then conflicts but still registers a patient; another time on the same date succeeds and both times are listed; doctor 99 is not found |
| Scenarios.AppointmentIdsMayCollide | hospital.py:34 | two confirmed appointments can carry the same id |

## Left out

- Console I/O: the prompts and messages of `register_patient` and `book_appointment`, and all of `show_doctors`, `view_appointments`, the `run` menu and the `__main__` block. The menu's read-only choices change no state. `Run` models a session as a sequence of booking attempts, which are the only state change the menu offers.
- Parsing the doctor id with `int(...)` and its `ValueError` branch (hospital.py:86-90): the model takes an already-parsed integer id.
- `random.randint(1000, 9999)` (hospital.py:34): the drawn id is a caller-supplied value of type `AppointmentId`, the inclusive range [1000, 9999]. Nothing is claimed about uniqueness, because the code does not ensure it.
- The unused `datetime` import: dates and times stay opaque strings, with no normalisation.
- Python object identity: an appointment holds positions in the doctor and patient lists instead of references. Doctors are never added, removed or reordered, so a position identifies the same doctor for the whole session.
- Patient age stays the raw entered text, as `input()` returns it.
