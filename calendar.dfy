/** Calendar values, kept abstract: only their order matters to the migration. */
module Calendar {
  /** A calendar date as a day number; a later date is a larger number. */
  type Date = int

  /** A wall-clock instant, as read from the system clock. */
  type Timestamp = int
}
