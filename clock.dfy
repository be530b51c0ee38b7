/** The pure time rules: 12/24-hour conversion and the split of a row value into two digits. */
module Clock {
  import opened CTypes

  /**
   * `get_display_hour`. The clock style (`clock_is_24h_style()`) is a parameter.
   * In 24-hour mode the hour is shown as given; in 12-hour mode it is shown on a
   * 1..12 dial in the same position modulo 12 (so 0 reads as 12).
   */
  function GetDisplayHour(hour: Uint16, is24h: bool): (r: Uint16)
    ensures is24h ==> r == hour
    ensures !is24h ==> 1 <= r <= 12 && r % 12 == hour % 12
  {
    if is24h then hour
    else
      var displayHour := hour % 12;
      if displayHour != 0 then displayHour else 12
  }

  /** The named cases of the 12-hour dial. */
  lemma TwelveHourDial()
    ensures GetDisplayHour(0, false) == 12
    ensures GetDisplayHour(12, false) == 12
    ensures GetDisplayHour(13, false) == 1
    ensures GetDisplayHour(23, false) == 11
  {
  }

  /** Over one day the 12-hour dial reads each of 1..12 exactly at the hours h and h + 12 (mod 24). */
  lemma TwelveHourDialIsOnto(d: int)
    requires 1 <= d <= 12
    ensures GetDisplayHour(d % 12, false) == d
    ensures GetDisplayHour(d % 12 + 12, false) == d
    ensures forall h: Uint16 :: h < 24 && GetDisplayHour(h, false) == d ==> h == d % 12 || h == d % 12 + 12
  {
  }

  /** The ones column of a row: `display_value` reduces its value modulo 100 first. */
  function OnesDigit(value: nat): (d: nat)
    ensures d < 10
  {
    value % 100 % 10
  }

  /** The tens column of a row. */
  function TensDigit(value: nat): (d: nat)
    ensures d < 10
  {
    value % 100 / 10 % 10
  }

  /** The two columns together give back the value modulo 100, and each value 0..99 has its own pair. */
  lemma DigitsRecompose(value: nat)
    ensures 10 * TensDigit(value) + OnesDigit(value) == value % 100
    ensures value < 100 ==> 10 * TensDigit(value) + OnesDigit(value) == value
  {
  }
}
