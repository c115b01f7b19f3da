/**
 The no-double-booking invariant of the scheduling service and its proof: the
 start-up state satisfies it, registration and every booking attempt preserve
 it, and therefore so does any session of booking attempts.
 */
module Invariants {
  import opened Optional
  import opened Doctors
  import opened Hospital

  /** Does appointment `a` hold slot (date, time) of the doctor at position `k`? */
  predicate Refers(a: Appointment, k: nat, date: string, time: string)
  {
    a.doctor == k && a.date == date && a.time == time
  }

  /** How many logged appointments hold slot (date, time) of doctor `k`. */
  function Count(log: seq<Appointment>, k: nat, date: string, time: string): nat
  {
    if |log| == 0 then 0
    else Count(log[..|log| - 1], k, date, time) + (if Refers(log[|log| - 1], k, date, time) then 1 else 0)
  }

  /** The doctors' reservation lists and the appointment log agree, slot by slot. */
  ghost predicate Valid(s: System)
  {
    // reservation lists never repeat a time
    && (forall k :: 0 <= k < |s.doctors| ==> NoDuplicateTimes(s.doctors[k]))
    // every appointment points at a listed doctor and patient, with a drawn id
    && (forall i :: 0 <= i < |s.appointments| ==>
          && s.appointments[i].doctor < |s.doctors|
          && s.appointments[i].patient < |s.patients|
          && 1000 <= s.appointments[i].apptId <= 9999)
    // the n-th patient carries id n
    && (forall i :: 0 <= i < |s.patients| ==> s.patients[i].pId == i + 1)
    // a slot is taken iff exactly one appointment holds it, and free iff none does
    && (forall k, date, time :: 0 <= k < |s.doctors| ==>
          Count(s.appointments, k, date, time) == if IsAvailable(s.doctors[k], date, time) then 0 else 1)
  }

  /** Appending one appointment adds one to the count of the slot it holds
      and nothing to any other. */
  lemma CountAppend(log: seq<Appointment>, a: Appointment, k: nat, date: string, time: string)
    ensures Count(log + [a], k, date, time)
            == Count(log, k, date, time) + (if Refers(a, k, date, time) then 1 else 0)
  {
  }

  /** A slot's count is zero iff no appointment holds it. */
  lemma {:induction false} CountZero(log: seq<Appointment>, k: nat, date: string, time: string)
    ensures Count(log, k, date, time) == 0
            <==> forall i :: 0 <= i < |log| ==> !Refers(log[i], k, date, time)
  {
    if |log| > 0 {
      var init := log[..|log| - 1];
      CountZero(init, k, date, time);
      assert forall i :: 0 <= i < |init| ==> init[i] == log[i];
    }
  }

  /** Two distinct appointments holding the same slot make its count at least two. */
  lemma {:induction false} CountTwo(log: seq<Appointment>, i: nat, j: nat)
    requires i < j < |log|
    requires Refers(log[j], log[i].doctor, log[i].date, log[i].time)
    ensures Count(log, log[i].doctor, log[i].date, log[i].time) >= 2
  {
    var a := log[i];
    var init := log[..|log| - 1];
    if j < |log| - 1 {
      assert init[i] == a && init[j] == log[j];
      CountTwo(init, i, j);
    } else {
      assert init[i] == a;
      CountZero(init, a.doctor, a.date, a.time);
    }
  }

  /** The start-up state is consistent. */
  lemma SeedValid()
    ensures Valid(Seed())
  {
  }

  /** Registering a patient keeps the system consistent. */
  lemma RegisterPreservesValid(s: System, name: string, age: string, contact: string)
    requires Valid(s)
    ensures Valid(RegisterPatient(s, name, age, contact).0)
  {
  }

  /** Every booking attempt keeps the system consistent, whatever its outcome. */
  lemma BookPreservesValid(
    s: System, name: string, age: string, contact: string,
    docId: int, date: string, time: string, apptId: AppointmentId)
    requires Valid(s)
    ensures Valid(BookAppointment(s, name, age, contact, docId, date, time, apptId).0)
  {
    var (s', outcome) := BookAppointment(s, name, age, contact, docId, date, time, apptId);
    RegisterPreservesValid(s, name, age, contact);
    if outcome.Booked? {
      var k := outcome.appt.doctor;
      var d := s.doctors[k];
      BookSlotNoDuplicates(d, date, time);
      forall k', date', time' | 0 <= k' < |s'.doctors|
        ensures Count(s'.appointments, k', date', time')
                == if IsAvailable(s'.doctors[k'], date', time') then 0 else 1
      {
        CountAppend(s.appointments, outcome.appt, k', date', time');
        if k' == k {
          BookSlotAvailability(d, date, time, date', time');
        }
      }
    }
  }

  /** A booking changes the availability of exactly the reserved slot of the
      doctor it names, and of nothing else. */
  lemma BookChangesOnlyThatSlot(
    s: System, name: string, age: string, contact: string,
    docId: int, date: string, time: string, apptId: AppointmentId,
    k: nat, date': string, time': string)
    requires k < |s.doctors|
    ensures var (s', outcome) := BookAppointment(s, name, age, contact, docId, date, time, apptId);
            && k < |s'.doctors|
            && (IsAvailable(s'.doctors[k], date', time')
                <==> IsAvailable(s.doctors[k], date', time')
                     && !(outcome.Booked? && Refers(outcome.appt, k, date', time')))
  {
  }

  /** No double booking: in a consistent system no two appointments hold the
      same slot of the same doctor. */
  lemma NoDoubleBooking(s: System, i: nat, j: nat)
    requires Valid(s)
    requires i < j < |s.appointments|
    ensures !Refers(s.appointments[j], s.appointments[i].doctor, s.appointments[i].date, s.appointments[i].time)
  {
    var a := s.appointments[i];
    if Refers(s.appointments[j], a.doctor, a.date, a.time) {
      CountTwo(s.appointments, i, j);
    }
  }

  /** In a consistent system a doctor's slot is taken iff some appointment holds it. */
  lemma TakenIffLogged(s: System, k: nat, date: string, time: string)
    requires Valid(s)
    requires k < |s.doctors|
    ensures !IsAvailable(s.doctors[k], date, time)
            <==> exists i :: 0 <= i < |s.appointments| && Refers(s.appointments[i], k, date, time)
  {
    CountZero(s.appointments, k, date, time);
  }

  /** A booking attempt as the menu collects it. */
  datatype Request = Request(
    name: string, age: string, contact: string,
    docId: int, date: string, time: string, apptId: AppointmentId)

  /** The state after a session of booking attempts, taken in order. */
  function Run(s: System, requests: seq<Request>): System
    decreases |requests|
  {
    if |requests| == 0 then s
    else
      var q := requests[0];
      Run(BookAppointment(s, q.name, q.age, q.contact, q.docId, q.date, q.time, q.apptId).0, requests[1..])
  }

  /** Any session keeps the system consistent. */
  lemma {:induction false} RunPreservesValid(s: System, requests: seq<Request>)
    requires Valid(s)
    ensures Valid(Run(s, requests))
    decreases |requests|
  {
    if |requests| > 0 {
      var q := requests[0];
      BookPreservesValid(s, q.name, q.age, q.contact, q.docId, q.date, q.time, q.apptId);
      RunPreservesValid(BookAppointment(s, q.name, q.age, q.contact, q.docId, q.date, q.time, q.apptId).0, requests[1..]);
    }
  }

  /** Every attempt registers one patient, keeps every doctor at its position
      with its identity, and never drops an appointment: the log only grows. */
  lemma {:induction false} RunGrows(s: System, requests: seq<Request>)
    ensures |Run(s, requests).patients| == |s.patients| + |requests|
    ensures |Run(s, requests).doctors| == |s.doctors|
    ensures forall k :: 0 <= k < |s.doctors| ==>
              && Run(s, requests).doctors[k].docId == s.doctors[k].docId
              && Run(s, requests).doctors[k].name == s.doctors[k].name
              && Run(s, requests).doctors[k].specialization == s.doctors[k].specialization
    ensures |Run(s, requests).appointments| >= |s.appointments|
    ensures Run(s, requests).appointments[..|s.appointments|] == s.appointments
    decreases |requests|
  {
    if |requests| > 0 {
      var q := requests[0];
      var s1 := BookAppointment(s, q.name, q.age, q.contact, q.docId, q.date, q.time, q.apptId).0;
      RunGrows(s1, requests[1..]);
      assert s1.appointments[..|s.appointments|] == s.appointments;
    }
  }

  /** From start-up, after any session: the n-th patient has id n, and no two
      appointments hold the same slot of the same doctor. */
  lemma SessionFromSeed(requests: seq<Request>)
    ensures var s := Run(Seed(), requests);
            && |s.patients| == |requests|
            && (forall i :: 0 <= i < |s.patients| ==> s.patients[i].pId == i + 1)
            && (forall i, j :: 0 <= i < j < |s.appointments| ==>
                  !Refers(s.appointments[j], s.appointments[i].doctor, s.appointments[i].date, s.appointments[i].time))
  {
    SeedValid();
    RunPreservesValid(Seed(), requests);
    RunGrows(Seed(), requests);
    var s := Run(Seed(), requests);
    forall i, j | 0 <= i < j < |s.appointments|
      ensures !Refers(s.appointments[j], s.appointments[i].doctor, s.appointments[i].date, s.appointments[i].time)
    {
      NoDoubleBooking(s, i, j);
    }
  }
}
