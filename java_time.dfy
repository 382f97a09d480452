/**
 * `java.time` values as points on a line. The clock is never read inside the
 * model: every `LocalDateTime.now()` / `LocalDate.now()` of the source is a
 * parameter (`now`, `today`, `currentYear`).
 */
module JavaTime {

  /** A `LocalDateTime`; `a.isBefore(b)` is `a < b`, `a.isAfter(b)` is `a > b`. */
  type Instant = int

  /** A `LocalDate`. */
  type Day = int
}
