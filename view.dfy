/** The attendance tab's view of the log: the records grouped by their
    `date` string, and the dates ordered newest first. */
module AttendanceView {
  import opened Records
  import opened Sequences

  function OnDate(date: string): AttendanceRecord -> bool {
    (r: AttendanceRecord) => r.date == date
  }

  function DateList(log: seq<AttendanceRecord>): (r: seq<string>)
    ensures |r| == |log|
  {
    seq(|log|, i requires 0 <= i < |log| => log[i].date)
  }

  lemma DateListPrefix(log: seq<AttendanceRecord>, i: nat)
    requires i < |log|
    ensures DateList(log[..i + 1]) == DateList(log[..i]) + [log[i].date]
    ensures DateList(log[..i + 1])[..i] == DateList(log[..i])
  {
  }

  /** No record before the first occurrence of a date is on that date. */
  lemma NotYetOnDate(log: seq<AttendanceRecord>, date: string)
    requires date !in DateList(log)
    ensures Filter(log, OnDate(date)) == []
  {
    forall x | x in log ensures !OnDate(date)(x) {
      var m :| 0 <= m < |log| && log[m] == x;
      assert DateList(log)[m] == x.date;
    }
    FilterNone(log, OnDate(date));
  }

  /** Appending a record adds it to its own date's group only. */
  lemma GroupAppend(log: seq<AttendanceRecord>, entry: AttendanceRecord, date: string)
    ensures Filter(log + [entry], OnDate(date))
         == if entry.date == date then Filter(log, OnDate(date)) + [entry] else Filter(log, OnDate(date))
  {
    FilterAppend(log, [entry], OnDate(date));
    FilterSingleton(entry, OnDate(date));
  }

  /** `groups` and its key order `dates` are the grouping of `log` by date:
      the keys are the log's distinct dates in order of first appearance,
      and each group holds that date's records in log order. */
  ghost predicate Grouped(log: seq<AttendanceRecord>, groups: map<string, seq<AttendanceRecord>>, dates: seq<string>) {
    && dates == Distinct(DateList(log))
    && (forall d :: d in groups <==> d in dates)
    && (forall d :: d in groups ==> groups[d] == Filter(log, OnDate(d)))
  }

  /** The key order after a record: its date is added last if it is new. */
  lemma DatesAppend(log: seq<AttendanceRecord>, entry: AttendanceRecord)
    ensures Distinct(DateList(log + [entry]))
         == if entry.date in DateList(log) then Distinct(DateList(log))
            else Distinct(DateList(log)) + [entry.date]
  {
    assert DateList(log + [entry]) == DateList(log) + [entry.date];
    DistinctAppend(DateList(log), entry.date);
  }

  /** The groups after a record: its own date's group, `grown`, gains the
      record at the end, and every other group stays as it was. */
  lemma GroupsAppend(log: seq<AttendanceRecord>, entry: AttendanceRecord,
                     groups: map<string, seq<AttendanceRecord>>, grown: seq<AttendanceRecord>)
    requires forall d :: d in groups ==> groups[d] == Filter(log, OnDate(d))
    requires grown == Filter(log, OnDate(entry.date)) + [entry]
    ensures forall d :: d in groups[entry.date := grown] ==>
              groups[entry.date := grown][d] == Filter(log + [entry], OnDate(d))
  {
    forall d | d in groups[entry.date := grown]
      ensures groups[entry.date := grown][d] == Filter(log + [entry], OnDate(d))
    {
      GroupAppend(log, entry, d);
    }
  }

  /** The key order after one turn: the date is added last exactly when
      its key was missing. */
  lemma StepDates(log: seq<AttendanceRecord>, entry: AttendanceRecord,
                  groups: map<string, seq<AttendanceRecord>>, dates: seq<string>)
    requires Grouped(log, groups, dates)
    ensures (if entry.date in groups then dates else dates + [entry.date]) == Distinct(DateList(log + [entry]))
  {
    assert entry.date in groups <==> entry.date in DateList(log);
    DatesAppend(log, entry);
  }

  /** The groups after one turn, with `created` the dictionary once the
      record's key exists. */
  lemma StepGroups(log: seq<AttendanceRecord>, entry: AttendanceRecord,
                   groups: map<string, seq<AttendanceRecord>>, dates: seq<string>,
                   created: map<string, seq<AttendanceRecord>>)
    requires Grouped(log, groups, dates)
    requires created == if entry.date in groups then groups else groups[entry.date := []]
    ensures forall d :: d in created[entry.date := created[entry.date] + [entry]] ==>
              created[entry.date := created[entry.date] + [entry]][d] == Filter(log + [entry], OnDate(d))
  {
    if entry.date !in groups {
      assert entry.date !in DateList(log);
      NotYetOnDate(log, entry.date);
    }
    assert forall d :: d in created ==> created[d] == Filter(log, OnDate(d));
    GroupsAppend(log, entry, created, created[entry.date] + [entry]);
  }

  /** One turn of the `forEach` on the record `entry` after `log`. */
  lemma GroupedAppend(log: seq<AttendanceRecord>, entry: AttendanceRecord,
                      groups: map<string, seq<AttendanceRecord>>, dates: seq<string>,
                      created: map<string, seq<AttendanceRecord>>)
    requires Grouped(log, groups, dates)
    requires created == if entry.date in groups then groups else groups[entry.date := []]
    ensures Grouped(log + [entry], created[entry.date := created[entry.date] + [entry]],
                    if entry.date in groups then dates else dates + [entry.date])
  {
    StepDates(log, entry, groups, dates);
    StepGroups(log, entry, groups, dates, created);
  }

  /** One turn of the `forEach`, on the record at index `i`: `created` is
      the dictionary once the record's key exists (an empty group is made
      when it is missing), and the record is then pushed onto its group.
      The key order gains the date exactly when the key was missing. */
  lemma GroupedStep(log: seq<AttendanceRecord>, i: nat,
                    groups: map<string, seq<AttendanceRecord>>, dates: seq<string>,
                    created: map<string, seq<AttendanceRecord>>)
    requires i < |log|
    requires Grouped(log[..i], groups, dates)
    requires created == if log[i].date in groups then groups else groups[log[i].date := []]
    ensures Grouped(log[..i + 1], created[log[i].date := created[log[i].date] + [log[i]]],
                    if log[i].date in groups then dates else dates + [log[i].date])
  {
    GroupedAppend(log[..i], log[i], groups, dates, created);
    TakeSnoc(log, i);
  }

  /** The `forEach` that fills `groupedByDate`. `dates` is the order of the
      object's keys, that is, the order in which they were created. */
  method GroupByDate(log: seq<AttendanceRecord>)
    returns (groupedByDate: map<string, seq<AttendanceRecord>>, dates: seq<string>)
    ensures dates == Distinct(DateList(log))
    ensures forall d :: d in groupedByDate <==> d in dates
    ensures forall d :: d in groupedByDate ==> groupedByDate[d] == Filter(log, OnDate(d))
  {
    groupedByDate := map[];
    dates := [];
    for i := 0 to |log|
      invariant Grouped(log[..i], groupedByDate, dates)
    {
      var entry := log[i];
      ghost var before, beforeDates := groupedByDate, dates;
      if entry.date !in groupedByDate {
        groupedByDate := groupedByDate[entry.date := []];
        dates := dates + [entry.date];
      }
      GroupedStep(log, i, before, beforeDates, groupedByDate);
      groupedByDate := groupedByDate[entry.date := groupedByDate[entry.date] + [entry]];
    }
    assert log[..|log|] == log;
  }

  // -------------------------------------------------- sizes of the groups

  /** The sum of the sizes of the groups listed in `dates`. */
  function TotalSize(dates: seq<string>, log: seq<AttendanceRecord>): nat {
    if dates == [] then 0
    else TotalSize(dates[..|dates| - 1], log) + |Filter(log, OnDate(dates[|dates| - 1]))|
  }

  /** One more key adds its group's size. */
  lemma TotalSizeSnoc(prefix: seq<string>, d: string, log: seq<AttendanceRecord>)
    ensures TotalSize(prefix + [d], log) == TotalSize(prefix, log) + |Filter(log, OnDate(d))|
  {
    assert (prefix + [d])[..|prefix|] == prefix;
  }

  /** One more record grows its own date's group by one. */
  lemma GroupSizeSnoc(log: seq<AttendanceRecord>, x: AttendanceRecord, d: string)
    ensures |Filter(log + [x], OnDate(d))| == |Filter(log, OnDate(d))| + (if x.date == d then 1 else 0)
  {
    FilterSnoc(log, x, OnDate(d));
  }

  lemma {:induction false} TotalSizeAppendRecord(dates: seq<string>, log: seq<AttendanceRecord>, x: AttendanceRecord)
    ensures TotalSize(dates, log + [x]) == TotalSize(dates, log) + multiset(dates)[x.date]
  {
    if dates != [] {
      var prefix, d := dates[..|dates| - 1], dates[|dates| - 1];
      assert dates == prefix + [d];
      TotalSizeAppendRecord(prefix, log, x);
      TotalSizeSnoc(prefix, d, log);
      TotalSizeSnoc(prefix, d, log + [x]);
      GroupSizeSnoc(log, x, d);
      assert multiset(dates)[x.date] == multiset(prefix)[x.date] + (if d == x.date then 1 else 0);
    }
  }

  /** Every record is in exactly one group, so the groups' sizes add up to
      the length of the log. */
  lemma {:induction false} GroupSizesSum(log: seq<AttendanceRecord>)
    ensures TotalSize(Distinct(DateList(log)), log) == |log|
  {
    if log != [] {
      var n := |log| - 1;
      var prefix, x := log[..n], log[n];
      assert log == prefix + [x];
      DateListPrefix(log, n);
      assert DateList(log) == DateList(prefix) + [x.date];
      DistinctAppend(DateList(prefix), x.date);
      var before := Distinct(DateList(prefix));
      GroupSizesSum(prefix);
      TotalSizeAppendRecord(before, prefix, x);
      if x.date in DateList(prefix) {
        NoDuplicatesCount(before, x.date);
        assert x.date in multiset(before);
      } else {
        var after := before + [x.date];
        assert after[..|after| - 1] == before;
        assert x.date !in multiset(before);
        NotYetOnDate(prefix, x.date);
        GroupAppend(prefix, x, x.date);
      }
    }
  }

  // ------------------------------------------------------- date ordering

  /** `Object.keys(groupedByDate).sort((a, b) => new Date(b) - new Date(a))`,
      with `dateValue` the epoch-millisecond value `new Date` parses from a
      date string. */
  function SortedDates(dates: seq<string>, dateValue: string -> int): (r: seq<string>)
    ensures SortedDesc(r, dateValue)
    ensures multiset(r) == multiset(dates)
    ensures NoDuplicates(dates) ==> NoDuplicates(r)
  {
    var r := SortDesc(dates, dateValue);
    if NoDuplicates(dates) then
      PermutationNoDuplicates(dates, r);
      r
    else
      r
  }

  /** The dates the tab shows are the distinct dates of the log, each once,
      newest first. */
  lemma ShownDatesAreLogDates(log: seq<AttendanceRecord>, dateValue: string -> int)
    ensures NoDuplicates(SortedDates(Distinct(DateList(log)), dateValue))
    ensures forall d :: d in SortedDates(Distinct(DateList(log)), dateValue) <==>
              exists i :: 0 <= i < |log| && log[i].date == d
  {
    var keys := Distinct(DateList(log));
    var shown := SortedDates(keys, dateValue);
    forall d ensures d in shown <==> exists i :: 0 <= i < |log| && log[i].date == d {
      assert d in shown <==> d in multiset(shown);
      assert d in keys <==> d in multiset(keys);
      if exists i :: 0 <= i < |log| && log[i].date == d {
        var i :| 0 <= i < |log| && log[i].date == d;
        assert DateList(log)[i] == d;
      }
    }
  }
}
