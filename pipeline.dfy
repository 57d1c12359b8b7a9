/** The loading entry point: read both tables, clean each, and join them on the applicant id.
    A failed read is caught and yields three missing results; an exception while cleaning or
    joining is not caught and ends the call. */
module Pipeline {
  import opened Cells
  import opened Tables
  import opened Pruning
  import opened DayOffsets
  import opened Join
  import opened ApplicationCleaning
  import opened PreviousCleaning

  /** What reading one CSV source gave: its table, or an exception (a missing file, unreadable
      content) that the entry point catches. */
  datatype Source = Read(table: Table) | Unreadable

  ghost predicate WellRead(s: Source)
  {
    s.Read? ==> s.table.WellFormed()
  }

  /** The three frames the entry point returns; None stands for a returned None. */
  datatype Cleaned = Cleaned(app: Option<Table>, prev: Option<Table>, merged: Option<seq<MergedRow>>)

  /** The whole entry point. A failed read of either source gives three missing results; otherwise
      the cleaned tables and their join, unless a step raises. */
  function LoadAndClean(app: Source, prev: Source): (r: Result<Cleaned, Fault>)
    requires WellRead(app) && WellRead(prev)
    ensures app.Unreadable? || prev.Unreadable? ==> r == Success(Cleaned(None, None, None))
    ensures r.Failure? ==> app.Read? && prev.Read?
    ensures r.Success? ==>
              && (r.value.app.Some? <==> app.Read? && prev.Read?)
              && r.value.prev.Some? == r.value.app.Some?
              && r.value.merged.Some? == r.value.app.Some?
    ensures r.Success? && app.Read? && prev.Read? ==>
              && CleanApplications(app.table).Success? && r.value.app == Some(CleanApplications(app.table).value)
              && CleanPrevious(prev.table).Success? && r.value.prev == Some(CleanPrevious(prev.table).value)
              && Merge(CleanApplications(app.table).value, CleanPrevious(prev.table).value).Success?
              && r.value.merged == Some(Merge(CleanApplications(app.table).value, CleanPrevious(prev.table).value).value)
    ensures r.Failure? ==>
              r.error == if CleanApplications(app.table).Failure? then CleanApplications(app.table).error
                         else if CleanPrevious(prev.table).Failure? then CleanPrevious(prev.table).error
                         else MissingJoinKey
  {
    if app.Unreadable? || prev.Unreadable? then Success(Cleaned(None, None, None))
    else
      var a :- CleanApplications(app.table);
      var p :- CleanPrevious(prev.table);
      var m :- Merge(a, p);
      Success(Cleaned(Some(a), Some(p), Some(m)))
  }

  /** The applicant id survives the pruning of `t`. */
  ghost predicate KeepsJoinKey(t: Table)
    requires t.WellFormed()
  {
    JoinKey in t.cols && !MostlyMissing(t.cols[JoinKey], t.rows)
  }

  lemma JoinKeyKind()
    ensures !IsRangeColumn(JoinKey) && !ApplicationCleaning.IsFilledColumn(JoinKey) && !IsDaysColumn(JoinKey)
    ensures !PreviousCleaning.IsFilledColumn(JoinKey) && JoinKey !in AdministrativeColumns
  {
    assert JoinKey[0] == 'S';
  }

  /** The cleaning keeps the applicant id column of both tables exactly as read, when it keeps it. */
  lemma CleanedJoinKeys(app: Table, prev: Table)
    requires app.WellFormed() && prev.WellFormed()
    requires CleanApplications(app).Success? && CleanPrevious(prev).Success?
    ensures JoinKey in CleanApplications(app).value.cols <==> KeepsJoinKey(app)
    ensures JoinKey in CleanPrevious(prev).value.cols <==> KeepsJoinKey(prev)
    ensures JoinKey in CleanApplications(app).value.cols ==>
              CleanApplications(app).value.cols[JoinKey] == app.cols[JoinKey]
    ensures JoinKey in CleanPrevious(prev).value.cols ==>
              CleanPrevious(prev).value.cols[JoinKey] == prev.cols[JoinKey]
  {
    JoinKeyKind();
    CleanApplicationsColumns(app);
    CleanPreviousColumns(prev);
    if JoinKey in CleanApplications(app).value.cols {
      CleanApplicationsUntouched(app, JoinKey);
    }
  }

  /** The entry point raises exactly when both sources were read and then the applications
      cleaning raises, the previous-applications cleaning raises, or either table lost its
      applicant id to the pruning. */
  lemma LoadAndCleanSucceeds(app: Source, prev: Source)
    requires WellRead(app) && WellRead(prev)
    ensures LoadAndClean(app, prev).Success? <==>
              || app.Unreadable? || prev.Unreadable?
              || (&& CleaningCanRun(app.table) && PreviousCleaning.FillsCanRun(prev.table)
                  && KeepsJoinKey(app.table) && KeepsJoinKey(prev.table))
  {
    if app.Read? && prev.Read? {
      CleanApplicationsSucceeds(app.table);
      CleanPreviousSucceeds(prev.table);
      if CleanApplications(app.table).Success? && CleanPrevious(prev.table).Success? {
        CleanedJoinKeys(app.table, prev.table);
      }
    }
  }

  /** The joined rows pair every cleaned application row with every cleaned previous application
      of the same applicant id as read, once each and in the order of the pairs; with ids unique
      among the applications there are as many joined rows as previous applications whose id
      matches, and never more than the previous applications table has rows. */
  lemma LoadAndCleanJoin(app: Source, prev: Source)
    requires WellRead(app) && WellRead(prev)
    requires LoadAndClean(app, prev).Success? && app.Read? && prev.Read?
    ensures KeepsJoinKey(app.table) && KeepsJoinKey(prev.table)
    ensures CleanApplications(app.table).Success? && CleanPrevious(prev.table).Success?
    ensures LoadAndClean(app, prev).value.merged.Some?
    ensures |LoadAndClean(app, prev).value.merged.value| ==
              |JoinPairs(app.table.cols[JoinKey], prev.table.cols[JoinKey])|
    ensures forall p :: p in JoinPairs(app.table.cols[JoinKey], prev.table.cols[JoinKey]) ==>
              p.0 < CleanApplications(app.table).value.rows && p.1 < CleanPrevious(prev.table).value.rows
    ensures LoadAndClean(app, prev).value.merged.value ==
              PairedRows(CleanApplications(app.table).value, CleanPrevious(prev.table).value,
                         JoinPairs(app.table.cols[JoinKey], prev.table.cols[JoinKey]))
    ensures forall i, j ::
              (0 <= i < app.table.rows && 0 <= j < prev.table.rows &&
               app.table.cols[JoinKey][i] == prev.table.cols[JoinKey][j]) ==>
                MergedRow(Row(CleanApplications(app.table).value, i), Row(CleanPrevious(prev.table).value, j))
                  in LoadAndClean(app, prev).value.merged.value
    ensures UniqueKeys(app.table.cols[JoinKey]) ==>
              |LoadAndClean(app, prev).value.merged.value| ==
                MatchedRows(app.table.cols[JoinKey], prev.table.cols[JoinKey]) <= prev.table.rows
  {
    var a := CleanApplications(app.table).value;
    var p := CleanPrevious(prev.table).value;
    var m := Merge(a, p);
    assert m.Success? && LoadAndClean(app, prev) == Success(Cleaned(Some(a), Some(p), Some(m.value)));
    CleanedJoinKeys(app.table, prev.table);
    assert a.cols[JoinKey] == app.table.cols[JoinKey] && p.cols[JoinKey] == prev.table.cols[JoinKey];
    assert |m.value| == |JoinPairs(app.table.cols[JoinKey], prev.table.cols[JoinKey])|;
    if UniqueKeys(app.table.cols[JoinKey]) {
      JoinCardinality(app.table.cols[JoinKey], prev.table.cols[JoinKey]);
    }
    forall i, j | 0 <= i < app.table.rows && 0 <= j < prev.table.rows &&
                  app.table.cols[JoinKey][i] == prev.table.cols[JoinKey][j]
      ensures MergedRow(Row(a, i), Row(p, j)) in m.value
    {
      MergeKeepsEveryMatch(a, p, i, j);
    }
  }

  /** The entry point as the code runs it: the reads are given, each table is cleaned in place,
      and the cleaned tables are joined. */
  method LoadAndCleanData(app: Source, prev: Source) returns (r: Result<Cleaned, Fault>)
    requires WellRead(app) && WellRead(prev)
    ensures r == LoadAndClean(app, prev)
  {
    if app.Unreadable? || prev.Unreadable? {
      return Success(Cleaned(None, None, None));
    }
    var a := CleanApplicationsInPlace(app.table);
    if a.Failure? {
      return Failure(a.error);
    }
    var p := CleanPreviousInPlace(prev.table);
    if p.Failure? {
      return Failure(p.error);
    }
    var m := Merge(a.value, p.value);
    if m.Failure? {
      return Failure(m.error);
    }
    return Success(Cleaned(Some(a.value), Some(p.value), Some(m.value)));
  }
}
