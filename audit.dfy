/**
 * The global activity audit: the date range check, the "Actif durant la
 * période" column over all credential records, the table shown sorted by
 * `lastLogin`, and the rows offered for export.
 */
module Audit {
  import opened Records
  import Seqs
  import opened Logins
  import opened Ordering

  /** A row of the audit table: a credential record with its activity flag. */
  datatype AuditRow = AuditRow(username: string, lastLogin: Option<Timestamp>, actif: YesNo)

  /**
   * The flag: "Oui" when the login is present and its calendar date lies
   * between `start` and `end`, both included; the time of day plays no part.
   */
  function ActiveInPeriod(lastLogin: Option<Timestamp>, start: Date, end: Date): (f: YesNo)
    ensures f == Oui ==> lastLogin.Some? && start <= end
  {
    if lastLogin.Some? && start <= DateOf(lastLogin.value) <= end then Oui else Non
  }

  /**
   * The flag in terms of the instant itself: active exactly from midnight
   * opening `start` up to, but excluding, midnight closing `end`. In
   * particular a range of the login's own day, whatever the hour, is active.
   */
  lemma ActiveByInstant(t: Timestamp, start: Date, end: Date)
    ensures ActiveInPeriod(Some(t), start, end) == Oui <==> start * NanosPerDay <= t < (end + 1) * NanosPerDay
    ensures ActiveInPeriod(Some(t), DateOf(t), DateOf(t)) == Oui
    ensures ActiveInPeriod(None, start, end) == Non
  {
    var d := DateOf(t);
    if start <= d {
      assert start * NanosPerDay <= d * NanosPerDay <= t;
    } else {
      assert t < (d + 1) * NanosPerDay <= start * NanosPerDay;
    }
    if d <= end {
      assert t < (d + 1) * NanosPerDay <= (end + 1) * NanosPerDay;
    } else {
      assert (end + 1) * NanosPerDay <= d * NanosPerDay <= t;
    }
  }

  /** The audit table: each login row with its "Actif durant la période" column. */
  function FlagActivity(df: seq<Login>, start: Date, end: Date): (table: seq<AuditRow>)
    ensures |table| == |df|
    ensures forall k :: 0 <= k < |df| ==>
              table[k].username == df[k].username && table[k].lastLogin == df[k].lastLogin &&
              (table[k].actif == Oui <==> df[k].lastLogin.Some? && start <= DateOf(df[k].lastLogin.value) <= end)
  {
    seq(|df|, k requires 0 <= k < |df| => AuditRow(df[k].username, df[k].lastLogin, ActiveInPeriod(df[k].lastLogin, start, end)))
  }

  function IsActif(r: AuditRow): bool
  {
    r.actif == Oui
  }

  function AuditLogin(r: AuditRow): Option<Timestamp>
  {
    r.lastLogin
  }

  /** `df[df["Actif durant la période"] == "Oui"]`: the flagged rows, in table order. */
  function ActiveRows(table: seq<AuditRow>): (active: seq<AuditRow>)
    ensures forall k :: 0 <= k < |active| ==> active[k].actif == Oui
    ensures forall x :: multiset(active)[x] == if x.actif == Oui then multiset(table)[x] else 0
    ensures active == [] <==> forall k :: 0 <= k < |table| ==> table[k].actif == Non
  {
    var active := Seqs.Filter(table, IsActif);
    Seqs.FilterMultiset(table, IsActif);
    ActiveRowsEmpty(table, active);
    active
  }

  /** The selection keeps table order: it distributes over concatenation and keeps one row iff it is "Oui". */
  lemma {:induction false} ActiveRowsKeepsOrder(a: seq<AuditRow>, b: seq<AuditRow>)
    ensures ActiveRows(a + b) == ActiveRows(a) + ActiveRows(b)
    ensures forall r :: ActiveRows([r]) == if r.actif == Oui then [r] else []
  {
    Seqs.FilterAppend(a, b, IsActif);
    forall r ensures ActiveRows([r]) == if r.actif == Oui then [r] else [] {
      assert [r][1..] == [];
    }
  }

  lemma ActiveRowsEmpty(table: seq<AuditRow>, active: seq<AuditRow>)
    requires forall x :: multiset(active)[x] == if x.actif == Oui then multiset(table)[x] else 0
    ensures active == [] <==> forall k :: 0 <= k < |table| ==> table[k].actif == Non
  {
    if active != [] {
      assert active[0] in multiset(active);
    }
    if k :| 0 <= k < |table| && table[k].actif == Oui {
      assert table[k] in multiset(table);
      assert multiset(active)[table[k]] > 0;
    }
  }

  /** What the export step at the end of the audit yields. */
  datatype ExportStep =
    | NoActiveUser
    | TypeErrorRaised
    | Download(rows: seq<AuditRow>)

  /**
   * The export step as the script writes it: `to_excel` is called without
   * the output target pandas requires, so it raises `TypeError` whenever
   * there is a row to write, before the download button is built.
   */
  function ExportAsWritten(actifs: seq<AuditRow>): (step: ExportStep)
    ensures step == NoActiveUser <==> actifs == []
    ensures !step.Download?
  {
    if actifs == [] then NoActiveUser else TypeErrorRaised
  }

  /** The export step as intended: the "Oui" rows are offered for download when there is one. */
  function Export(actifs: seq<AuditRow>): (step: ExportStep)
    ensures step == NoActiveUser <==> actifs == []
    ensures !step.TypeErrorRaised?
    ensures step.Download? ==> step.rows == actifs
  {
    if actifs == [] then NoActiveUser else Download(actifs)
  }

  /** Whenever some row is "Oui", the step as written raises where the intended one offers exactly the "Oui" rows. */
  lemma ExportAsWrittenNeverDownloads(table: seq<AuditRow>)
    requires exists k :: 0 <= k < |table| && table[k].actif == Oui
    ensures ExportAsWritten(ActiveRows(table)) == TypeErrorRaised
    ensures Export(ActiveRows(table)) == Download(ActiveRows(table))
  {
    var k :| 0 <= k < |table| && table[k].actif == Oui;
    assert ActiveRows(table) != [];
  }

  /** One credential record whose login falls on the single day of the range: the export as written raises. */
  lemma OneActiveLoginRaises()
    ensures var table := FlagActivity([Login("jd", Some(0))], 0, 0);
            ExportAsWritten(ActiveRows(table)) == TypeErrorRaised &&
            Export(ActiveRows(table)) == Download([AuditRow("jd", Some(0), Oui)])
  {
    var table := FlagActivity([Login("jd", Some(0))], 0, 0);
    assert DateOf(0) == 0;
    assert table == [AuditRow("jd", Some(0), Oui)];
    ActiveRowsKeepsOrder([], table);
    ExportAsWrittenNeverDownloads(table);
  }

  /** What the audit yields when it runs. */
  datatype AuditOutcome =
    | StartAfterEnd
    | NoLastLoginColumn
    | Analysed(table: seq<AuditRow>, displayed: seq<AuditRow>, exported: ExportStep)

  /**
   * The audit for a range `start..end` over the credential records `creds`:
   * refused when the start follows the end; otherwise every record flagged,
   * the table displayed by descending login, and the "Oui" rows offered for
   * download only when there is at least one (the intended export step).
   */
  method AnalyseActivity(creds: seq<Credential>, parse: string -> Option<Timestamp>, start: Date, end: Date)
    returns (outcome: AuditOutcome)
    ensures outcome == StartAfterEnd <==> start > end
    ensures outcome == NoLastLoginColumn <==> start <= end && !HasLastLoginColumn(creds)
    ensures outcome.Analysed? ==> outcome.table == FlagActivity(ToDatetime(creds, parse), start, end)
    ensures outcome.Analysed? ==>
              outcome.displayed == SortByLastLogin(outcome.table, AuditLogin)
    ensures outcome.Analysed? ==>
              (outcome.exported.Download? <==> exists k :: 0 <= k < |creds| && outcome.table[k].actif == Oui) &&
              (outcome.exported.Download? ==> outcome.exported.rows == ActiveRows(outcome.table)) &&
              !outcome.exported.TypeErrorRaised?
  {
    if start > end {
      return StartAfterEnd;
    }
    if !HasLastLoginColumn(creds) {
      return NoLastLoginColumn;
    }
    var df := ToDatetime(creds, parse);
    var table := FlagActivity(df, start, end);
    var displayed := SortByLastLogin(table, AuditLogin);
    var actifs := ActiveRows(table);
    var exported := Export(actifs);
    assert exported.Download? <==> exists k :: 0 <= k < |creds| && table[k].actif == Oui by {
      if actifs == [] {
        assert forall k :: 0 <= k < |table| ==> table[k].actif == Non;
      }
    }
    outcome := Analysed(table, displayed, exported);
  }
}
