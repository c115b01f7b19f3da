/**
 The scheduling service: the doctor registry, the patient list and the
 appointment log, with doctor lookup, patient registration and the booking
 transaction. Console input is replaced by parameters: the caller supplies the
 already-parsed doctor id, the patient's details, the date and time labels, and
 the appointment id the random generator would have drawn.
 */
module Hospital {
  import opened Optional
  import opened Doctors

  /** A registered patient. `age` stays the raw text it was entered as. */
  datatype Patient = Patient(pId: int, name: string, age: string, contact: string)

  /** The range `random.randint(1000, 9999)` draws from, both ends included. */
  type AppointmentId = x: int | 1000 <= x <= 9999 witness 1000

  /** A confirmed booking. `doctor` and `patient` are positions in the
      system's doctor and patient lists: they stand for the object references
      an appointment holds. */
  datatype Appointment = Appointment(
    apptId: int,
    doctor: nat,
    patient: nat,
    date: string,
    time: string)

  datatype System = System(
    doctors: seq<Doctor>,
    patients: seq<Patient>,
    appointments: seq<Appointment>)

  /** What a booking attempt reports. */
  datatype Outcome = Booked(appt: Appointment) | NotFound | Conflict

  /** The state right after start-up: three doctors with no reservations, no
      patients and no appointments. */
  function Seed(): (s: System)
    ensures |s.doctors| == 3 && s.patients == [] && s.appointments == []
    ensures forall k :: 0 <= k < |s.doctors| ==>
              s.doctors[k].docId == k + 1 && s.doctors[k].bookedSlots == map[]
  {
    System(
      [ Doctor(1, "Dr. Sarah Smith", "Cardiology", map[]),
        Doctor(2, "Dr. John Doe", "Dermatology", map[]),
        Doctor(3, "Dr. Emily Chen", "Pediatrics", map[]) ],
      [],
      [])
  }

  /** Linear search in list order: the position of the first doctor carrying
      `id`, or None when no doctor does. */
  function FindDoctor(doctors: seq<Doctor>, id: int): (r: Option<nat>)
    ensures r.Some? ==> r.value < |doctors| && doctors[r.value].docId == id
    ensures r.Some? ==> forall j :: 0 <= j < r.value ==> doctors[j].docId != id
    ensures r.None? <==> forall j :: 0 <= j < |doctors| ==> doctors[j].docId != id
  {
    if |doctors| == 0 then None
    else if doctors[0].docId == id then Some(0)
    else match FindDoctor(doctors[1..], id)
      case None => None
      case Some(k) => Some(k + 1)
  }

  /** Appends a patient whose id is one more than the number registered so far. */
  function RegisterPatient(s: System, name: string, age: string, contact: string): (r: (System, Patient))
    ensures r.1.pId == |s.patients| + 1
    ensures r.1.name == name && r.1.age == age && r.1.contact == contact
    ensures r.0.patients == s.patients + [r.1]
    ensures r.0.doctors == s.doctors && r.0.appointments == s.appointments
  {
    var patient := Patient(|s.patients| + 1, name, age, contact);
    (s.(patients := s.patients + [patient]), patient)
  }

  /** One booking attempt. The patient is registered first, so the patient
      list grows whatever the outcome; then the doctor is looked up, the slot
      checked, and only a free slot is reserved and logged. */
  function BookAppointment(
    s: System, name: string, age: string, contact: string,
    docId: int, date: string, time: string, apptId: AppointmentId): (r: (System, Outcome))
    // the patient registration persists on every path
    ensures r.0.patients == s.patients + [Patient(|s.patients| + 1, name, age, contact)]
    // NotFound exactly when no doctor carries the id
    ensures r.1.NotFound? <==> forall j :: 0 <= j < |s.doctors| ==> s.doctors[j].docId != docId
    // Conflict exactly when the first doctor with the id has the slot taken
    ensures r.1.Conflict? <==>
              FindDoctor(s.doctors, docId).Some? &&
              !IsAvailable(s.doctors[FindDoctor(s.doctors, docId).value], date, time)
    // a failed attempt leaves every doctor and the log as they were
    ensures !r.1.Booked? ==> r.0.doctors == s.doctors && r.0.appointments == s.appointments
    // a success logs one appointment for that doctor, the new patient and the slot
    ensures r.1.Booked? ==>
              && FindDoctor(s.doctors, docId).Some?
              && var k := FindDoctor(s.doctors, docId).value;
              && r.1.appt == Appointment(apptId, k, |s.patients|, date, time)
              && r.0.appointments == s.appointments + [r.1.appt]
              && IsAvailable(s.doctors[k], date, time)
              && |r.0.doctors| == |s.doctors|
              && r.0.doctors[k] == BookSlot(s.doctors[k], date, time)
              && (forall j :: 0 <= j < |s.doctors| && j != k ==> r.0.doctors[j] == s.doctors[j])
  {
    var (registered, patient) := RegisterPatient(s, name, age, contact);
    match FindDoctor(registered.doctors, docId)
    case None => (registered, NotFound)
    case Some(k) =>
      var doctor := registered.doctors[k];
      if IsAvailable(doctor, date, time) then
        var appt := Appointment(apptId, k, |registered.patients| - 1, date, time);
        var booked := registered.(
          doctors := registered.doctors[k := BookSlot(doctor, date, time)],
          appointments := registered.appointments + [appt]);
        (booked, Booked(appt))
      else
        (registered, Conflict)
  }
}
