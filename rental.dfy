/**
  The hourly rental record that every aggregation of the dashboard reads.

  One record is one row of the cleaned hourly data set. The bucket columns
  (season, temperature bucket, humidity bucket, weather situation) are held
  as integer codes numbered in the order in which pandas sorts the column's
  values; the weekday is its name, as the data set spells it.
 */
module Rental {

  /** A calendar date; dates compare as (year, month, day), like ISO `YYYY-MM-DD` strings. */
  datatype Date = Date(year: int, month: int, day: int)

  predicate DateLe(a: Date, b: Date)
  {
    a.year < b.year
    || (a.year == b.year && a.month < b.month)
    || (a.year == b.year && a.month == b.month && a.day <= b.day)
  }

  lemma DateLeTransitive(a: Date, b: Date, c: Date)
    requires DateLe(a, b) && DateLe(b, c)
    ensures DateLe(a, c)
  {
  }

  lemma DateLeTotal(a: Date, b: Date)
    ensures DateLe(a, b) || DateLe(b, a)
  {
  }

  datatype Record = Record(
    dteday: Date,
    year: int,
    month: int,
    hr: int,
    season: int,
    weekday: string,
    tempBin: int,
    humidityBin: int,
    weathersit: int,
    casual: nat,
    registered: nat,
    cnt: nat)

  /** The data set's row invariant: every rental is either casual or registered. */
  predicate CountsAddUp(r: Record)
  {
    r.cnt == r.casual + r.registered
  }

  // Column projections, used as the value columns of aggregations.

  function Casual(r: Record): int { r.casual }

  function Registered(r: Record): int { r.registered }

  function Cnt(r: Record): int { r.cnt }
}
