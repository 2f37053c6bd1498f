/**
 * The login table: `pd.DataFrame(logins)[['username', 'lastLogin']]` and the
 * conversion of its `lastLogin` column with `pd.to_datetime(..., errors='coerce')`.
 */
module Logins {
  import opened Records

  /**
   * Whether the DataFrame built from `creds` has a `lastLogin` column: pandas
   * creates one as soon as one record carries the key, even with a null value.
   * Without it, selecting the column raises `KeyError`; in particular an
   * empty record list gives a DataFrame without columns.
   */
  function HasLastLoginColumn(creds: seq<Credential>): (has: bool)
    ensures creds == [] ==> !has
    ensures (exists k :: 0 <= k < |creds| && creds[k].lastLogin.Text?) ==> has
  {
    exists k :: 0 <= k < |creds| && !creds[k].lastLogin.NoKey?
  }

  /**
   * One cell of `pd.to_datetime(..., errors='coerce')`. `parse` stands for
   * pandas' date-time parser and answers `None` for a string it cannot read.
   * An absent or null value, like an unreadable one, becomes `NaT`.
   */
  function Coerce(raw: RawLogin, parse: string -> Option<Timestamp>): (t: Option<Timestamp>)
    ensures t.Some? <==> raw.Text? && parse(raw.s).Some?
    ensures t.Some? ==> t == parse(raw.s)
  {
    match raw
    case Text(s) => parse(s)
    case _ => None
  }

  /** The login table after the conversion: one row per credential record, in order. */
  function ToDatetime(creds: seq<Credential>, parse: string -> Option<Timestamp>): (logins: seq<Login>)
    ensures |logins| == |creds|
    ensures forall k :: 0 <= k < |creds| ==>
              logins[k].username == creds[k].username && logins[k].lastLogin == Coerce(creds[k].lastLogin, parse)
  {
    seq(|creds|, k requires 0 <= k < |creds| => Login(creds[k].username, Coerce(creds[k].lastLogin, parse)))
  }
}
