/** Day numbers: day 1 is the first of January of the year 1. */
module Calendar {

  /** The days before a year in the Gregorian calendar. */
  function DaysBefore(year: nat): nat
    requires year > 0
  {
    365 * (year - 1) + (year - 1) / 4 - (year - 1) / 100 + (year - 1) / 400
  }
}
