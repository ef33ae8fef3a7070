/** Calendar dates, abstracted to what the schedule needs.

    A date is a month index (years * 12 + month) and a day of the month.
    Advancing by `n` months keeps the day and moves the month index; the
    day-overflow rules of the JavaScript `Date.setMonth` (31 January plus one
    month landing in March) are not modelled. */
module Dates {

  datatype Date = Date(month: int, day: int)

  /** A point in time (the server's `new Date()`), taken as a parameter. */
  type Timestamp = int

  /** Strict chronological order: earlier month, or same month and earlier day. */
  predicate Precedes(a: Date, b: Date) {
    a.month < b.month || (a.month == b.month && a.day < b.day)
  }

  /** `start` advanced by `n` calendar months. */
  function AddMonths(start: Date, n: int): Date {
    Date(start.month + n, start.day)
  }

  /** Due dates built from one start date are ordered as their offsets are. */
  lemma AddMonthsOrdered(start: Date, i: int, j: int)
    ensures Precedes(AddMonths(start, i), AddMonths(start, j)) <==> i < j
  {
  }

  /** Precedes is a strict total order on dates. */
  lemma PrecedesTotal(a: Date, b: Date)
    ensures !Precedes(a, a)
    ensures a != b ==> Precedes(a, b) || Precedes(b, a)
    ensures Precedes(a, b) ==> !Precedes(b, a)
  {
  }
}
