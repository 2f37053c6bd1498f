/** `color_login`: the background of a `lastLogin` cell, by how many days ago the login was. */
module Recency {
  import opened Records

  /** The three backgrounds: light green, light yellow, light red. */
  datatype Shade = Green | Yellow | Red

  /** The CSS the styler applies to the cell. */
  function Style(s: Shade): string
  {
    match s
    case Green => "background-color: #d4edda"
    case Yellow => "background-color: #fff3cd"
    case Red => "background-color: #f8d7da"
  }

  /** How far a shade is from "recently active". */
  function Severity(s: Shade): nat
  {
    match s
    case Green => 0
    case Yellow => 1
    case Red => 2
  }

  /**
   * Red for a missing login; otherwise green up to 30 elapsed whole days,
   * yellow up to 90, red beyond. A login in the future counts as green.
   */
  function ColorLogin(lastLogin: Option<Timestamp>, today: Timestamp): (s: Shade)
    ensures lastLogin.None? ==> s == Red
  {
    match lastLogin
    case None => Red
    case Some(t) =>
      var days := ElapsedDays(today, t);
      if days <= 30 then Green
      else if days <= 90 then Yellow
      else Red
  }

  /**
   * The shade in terms of the raw elapsed time: the boundaries 30 and 90 are
   * whole days, so a login 30 days and 23 hours ago is still green and one
   * exactly 31 days ago is yellow.
   */
  lemma ShadeByElapsedTime(t: Timestamp, today: Timestamp)
    ensures ColorLogin(Some(t), today) == Green <==> today - t < 31 * NanosPerDay
    ensures ColorLogin(Some(t), today) == Yellow <==> 31 * NanosPerDay <= today - t < 91 * NanosPerDay
    ensures ColorLogin(Some(t), today) == Red <==> 91 * NanosPerDay <= today - t
  {
    var days := ElapsedDays(today, t);
    if days <= 30 {
      assert today - t < (days + 1) * NanosPerDay <= 31 * NanosPerDay;
    } else if days <= 90 {
      assert 31 * NanosPerDay <= days * NanosPerDay <= today - t;
      assert today - t < (days + 1) * NanosPerDay <= 91 * NanosPerDay;
    } else {
      assert 91 * NanosPerDay <= days * NanosPerDay <= today - t;
    }
  }

  /** An older login never gets a milder shade than a more recent one. */
  lemma ShadeMonotone(older: Timestamp, newer: Timestamp, today: Timestamp)
    requires older <= newer
    ensures Severity(ColorLogin(Some(older), today)) >= Severity(ColorLogin(Some(newer), today))
    ensures Severity(ColorLogin(None, today)) >= Severity(ColorLogin(Some(older), today))
  {
    ShadeByElapsedTime(older, today);
    ShadeByElapsedTime(newer, today);
  }
}
