/** How the two backends keep points in time. Times are nanoseconds. */
module Clocks {
  const MILLISECOND := 1_000_000

  /** A BSON date keeps whole milliseconds, rounded down; bbolt's JSON keeps nanoseconds. */
  function BsonDate(time: int): int {
    time / MILLISECOND * MILLISECOND
  }

  /** The greatest whole millisecond not after the time. */
  lemma BsonDateBounds(time: int)
    ensures BsonDate(time) % 1_000_000 == 0 && BsonDate(time) <= time < BsonDate(time) + 1_000_000
  {
  }

  /** Comparing two rounded dates is comparing one of them with the other rounded. */
  lemma BsonDateLess(a: int, b: int)
    ensures BsonDate(a) < BsonDate(b) <==> a < BsonDate(b)
  {
  }
}
