/**
 Concrete sessions against the start-up state: the doctor lookups the seed
 data promises, a booking followed by a conflicting repeat, a second time on
 the same date, an unknown doctor, and two confirmed appointments that draw
 the same id.
 */
module Scenarios {
  import opened Optional
  import opened Doctors
  import opened Hospital
  import opened Invariants

  /** Ids 1, 2 and 3 resolve to the three seeded doctors, in that order, and
      no other id resolves. */
  lemma SeedLookups(id: int)
    ensures var ds := Seed().doctors;
            && FindDoctor(ds, 1) == Some(0) && ds[0].name == "Dr. Sarah Smith" && ds[0].specialization == "Cardiology"
            && FindDoctor(ds, 2) == Some(1) && ds[1].name == "Dr. John Doe" && ds[1].specialization == "Dermatology"
            && FindDoctor(ds, 3) == Some(2) && ds[2].name == "Dr. Emily Chen" && ds[2].specialization == "Pediatrics"
            && (id != 1 && id != 2 && id != 3 ==> FindDoctor(ds, id) == None)
  {
  }

  /** Alice books Dr. Smith at 10:00; a repeat of that slot conflicts and logs
      nothing but still registers its patient; 11:00 on the same date succeeds
      as the second logged appointment and leaves both times listed; doctor 99
      is not found. */
  lemma BookingSession()
    ensures var (s1, o1) := BookAppointment(Seed(), "Alice", "30", "555-1234", 1, "2024-05-01", "10:00", 4242);
            && o1 == Booked(Appointment(4242, 0, 0, "2024-05-01", "10:00"))
            && s1.patients == [Patient(1, "Alice", "30", "555-1234")]
            && |s1.appointments| == 1
            && var (s2, o2) := BookAppointment(s1, "Bob", "41", "555-9876", 1, "2024-05-01", "10:00", 1111);
            && o2 == Conflict
            && s2.appointments == s1.appointments && s2.doctors == s1.doctors
            && |s2.patients| == 2
            && var (s3, o3) := BookAppointment(s2, "Carol", "25", "555-0000", 1, "2024-05-01", "11:00", 2222);
            && o3 == Booked(Appointment(2222, 0, 2, "2024-05-01", "11:00"))
            && |s3.appointments| == 2
            && s3.doctors[0].bookedSlots["2024-05-01"] == ["10:00", "11:00"]
            && var (s4, o4) := BookAppointment(s3, "Dan", "52", "555-1111", 99, "2024-05-01", "10:00", 3333);
            && o4 == NotFound
            && s4.appointments == s3.appointments && |s4.patients| == 4
  {
  }

  /** Appointment ids are drawn without a collision check: two confirmed
      appointments may carry the same id. */
  lemma AppointmentIdsMayCollide()
    ensures var s := Run(Seed(), [
              Request("Alice", "30", "555-1234", 1, "2024-05-01", "10:00", 1000),
              Request("Bob", "41", "555-9876", 2, "2024-05-01", "10:00", 1000)]);
            && |s.appointments| == 2
            && s.appointments[0].apptId == s.appointments[1].apptId
  {
    var q1 := Request("Alice", "30", "555-1234", 1, "2024-05-01", "10:00", 1000);
    var q2 := Request("Bob", "41", "555-9876", 2, "2024-05-01", "10:00", 1000);
    var s1 := BookAppointment(Seed(), q1.name, q1.age, q1.contact, q1.docId, q1.date, q1.time, q1.apptId).0;
    assert FindDoctor(Seed().doctors, 1) == Some(0);
    assert FindDoctor(s1.doctors, 2) == Some(1);
    var s2 := BookAppointment(s1, q2.name, q2.age, q2.contact, q2.docId, q2.date, q2.time, q2.apptId).0;
    assert [q1, q2][1..] == [q2];
    assert Run(Seed(), [q1, q2]) == Run(s1, [q2]);
    assert Run(s1, [q2]) == Run(s2, []);
  }
}
