/**
 A doctor of the clinic's registry and the two operations on its booked slots:
 the availability query and the reservation.

 Dates and times are opaque labels compared by exact string equality: "10:00",
 "10:00 " and "10:00 AM" are three different times.
 */
module Doctors {

  /** `bookedSlots` maps a date label to the time labels reserved on that date,
      in the order they were reserved (a list, not a set). */
  datatype Doctor = Doctor(
    docId: int,
    name: string,
    specialization: string,
    bookedSlots: map<string, seq<string>>)

  /** The times reserved on `date`; a date without an entry has none. */
  function SlotsOn(d: Doctor, date: string): seq<string>
  {
    if date in d.bookedSlots then d.bookedSlots[date] else []
  }

  /** The doctor's reservations seen as a set of (date, time) slots: the
      reference against which the list-based operations are stated. */
  ghost function Schedule(d: Doctor): set<(string, string)>
  {
    set date, time | date in d.bookedSlots && time in d.bookedSlots[date] :: (date, time)
  }

  /** No date's list holds the same time twice. */
  ghost predicate NoDuplicateTimes(d: Doctor)
  {
    forall date, i, j ::
      date in d.bookedSlots && 0 <= i < j < |d.bookedSlots[date]| ==>
        d.bookedSlots[date][i] != d.bookedSlots[date][j]
  }

  /** A slot is free unless its time is listed under its date. */
  function IsAvailable(d: Doctor, date: string, time: string): (free: bool)
    ensures free <==> (date, time) !in Schedule(d)
    ensures free <==> time !in SlotsOn(d, date)
    ensures date !in d.bookedSlots ==> free
  {
    !(date in d.bookedSlots && time in d.bookedSlots[date])
  }

  /** Reserves a slot without looking at whether it is already taken: the
      date's list (created empty when missing) gets `time` appended. */
  function BookSlot(d: Doctor, date: string, time: string): (d': Doctor)
    ensures d'.docId == d.docId && d'.name == d.name && d'.specialization == d.specialization
    ensures d'.bookedSlots.Keys == d.bookedSlots.Keys + {date}
    ensures d'.bookedSlots[date] == SlotsOn(d, date) + [time]
    ensures forall other :: other in d.bookedSlots && other != date ==>
              d'.bookedSlots[other] == d.bookedSlots[other]
    ensures !IsAvailable(d', date, time)
  {
    d.(bookedSlots := d.bookedSlots[date := SlotsOn(d, date) + [time]])
  }

  /** Reserving a slot adds exactly that slot to the schedule. */
  lemma BookSlotSchedule(d: Doctor, date: string, time: string)
    ensures Schedule(BookSlot(d, date, time)) == Schedule(d) + {(date, time)}
  {
  }

  /** After a reservation a slot is free iff it was free before and is not the
      reserved one. */
  lemma BookSlotAvailability(d: Doctor, date: string, time: string, date': string, time': string)
    ensures IsAvailable(BookSlot(d, date, time), date', time')
            <==> IsAvailable(d, date', time') && (date', time') != (date, time)
  {
  }

  /** On a doctor whose lists are duplicate-free, a reservation keeps them so
      exactly when the slot was free: booking a taken slot records it twice. */
  lemma BookSlotNoDuplicates(d: Doctor, date: string, time: string)
    requires NoDuplicateTimes(d)
    ensures NoDuplicateTimes(BookSlot(d, date, time)) <==> IsAvailable(d, date, time)
  {
    var d' := BookSlot(d, date, time);
    var prior := SlotsOn(d, date);
    var list := d'.bookedSlots[date];
    if IsAvailable(d, date, time) {
      forall dt, i, j | dt in d'.bookedSlots && 0 <= i < j < |d'.bookedSlots[dt]|
        ensures d'.bookedSlots[dt][i] != d'.bookedSlots[dt][j]
      {
        if dt == date {
          if j == |prior| {
            assert list[i] == prior[i];
          } else {
            assert list[i] == d.bookedSlots[date][i] && list[j] == d.bookedSlots[date][j];
          }
        }
      }
    } else {
      var i :| 0 <= i < |prior| && prior[i] == time;
      assert list[i] == list[|prior|];
    }
  }
}
