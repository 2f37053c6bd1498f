/**
 * The records the dashboard reads from the DHIS2 web API and the values the
 * pandas pipeline computes from them. Instants are pandas' naive timestamps,
 * counted in nanoseconds; calendar dates are day numbers.
 */
module Records {

  datatype Option<T> = None | Some(value: T)

  /** A naive instant, in nanoseconds since 1970-01-01 00:00 (pandas' resolution). */
  type Timestamp = int

  /** A calendar date, as the number of days since 1970-01-01. */
  type Date = int

  const NanosPerDay: int := 86_400_000_000_000

  /** `Timestamp.date()`: the calendar day an instant falls on, its time of day discarded. */
  function DateOf(t: Timestamp): (d: Date)
    ensures d * NanosPerDay <= t < (d + 1) * NanosPerDay
  {
    t / NanosPerDay
  }

  /** `(today - t).days`: whole elapsed days, rounded down as `timedelta` rounds them. */
  function ElapsedDays(today: Timestamp, t: Timestamp): (days: int)
    ensures days * NanosPerDay <= today - t < (days + 1) * NanosPerDay
  {
    (today - t) / NanosPerDay
  }

  /** The two values the dashboard writes in its yes/no columns. */
  datatype YesNo = Oui | Non

  /** An entry of a user's `organisationUnits` list, fetched with `organisationUnits[id]`. */
  datatype OrgUnitRef = OrgUnitRef(id: string)

  /** A user as returned by `/api/users.json`; `organisationUnits` is `None` when the field is absent. */
  datatype User = User(id: string, username: string, name: string, organisationUnits: Option<seq<OrgUnitRef>>)

  /** The `lastLogin` field of a credential record: absent, JSON null, or a date-time string. */
  datatype RawLogin = NoKey | Null | Text(s: string)

  /** A record of `/api/userCredentials`, fetched with `fields=username,lastLogin`. */
  datatype Credential = Credential(username: string, lastLogin: RawLogin)

  /** A row of the login table once `lastLogin` went through `pd.to_datetime`; `None` is `NaT`. */
  datatype Login = Login(username: string, lastLogin: Option<Timestamp>)
}
