/** The browser database behind the system: a `students` store and an
    `attendance` store whose keys come from an auto-increment generator.
    Each store is a sequence in key order; the generator is a counter that
    starts at 1 and, as in IndexedDB, is not reset when the store is cleared. */
module AttendanceDatabase {
  import opened Records
  import opened Sequences

  function Timestamp(r: AttendanceRecord): int { r.timestamp }

  function InClass(className: string): AttendanceRecord -> bool {
    (r: AttendanceRecord) => r.className == className
  }

  function NotInClass(className: string): AttendanceRecord -> bool {
    (r: AttendanceRecord) => r.className != className
  }

  function NotStudent(studentId: int): Student -> bool {
    (s: Student) => s.id != studentId
  }

  // ----------------------------------------------------------- reading

  /** The records `loadAttendanceFromDB(className)` reads: all of them, or
      those of the class when a truthy class name is given. */
  function Selected(records: seq<AttendanceRecord>, className: Option<string>): seq<AttendanceRecord> {
    if Truthy(className) then Filter(records, InClass(className.value)) else records
  }

  /** `loadAttendanceFromDB(className)`: the stored records sorted newest
      first, then kept only for the class when the class name is truthy
      (so `''`, like `null`, returns every record). */
  function LoadAttendance(records: seq<AttendanceRecord>, className: Option<string>): (logs: seq<AttendanceRecord>)
    ensures SortedDesc(logs, Timestamp)
    ensures multiset(logs) == multiset(Selected(records, className))
  {
    var sorted := SortDesc(records, Timestamp);
    if Truthy(className) then
      var p := InClass(className.value);
      FilterSortedDesc(sorted, Timestamp, p);
      FilterPermutation(sorted, records, p);
      Filter(sorted, p)
    else
      sorted
  }

  /** Records with equal timestamps come out in the order they are stored
      in (key order), since the sort is stable. */
  lemma LoadAttendanceStable(records: seq<AttendanceRecord>, className: Option<string>, t: int)
    ensures Filter(LoadAttendance(records, className), HasKey(Timestamp, t))
         == Filter(Selected(records, className), HasKey(Timestamp, t))
  {
    var sorted := SortDesc(records, Timestamp);
    SortDescStable(records, Timestamp, t);
    if Truthy(className) {
      var p := InClass(className.value);
      FilterCommutes(sorted, p, HasKey(Timestamp, t));
      FilterCommutes(records, p, HasKey(Timestamp, t));
    }
  }

  // ------------------------------------------------ attendance sessions

  /** `log` is a record of the student in the class on the calendar day `today`. */
  predicate LoggedOn(log: AttendanceRecord, studentId: int, className: string, today: string,
                     dateOf: int -> string)
  {
    log.studentId == studentId && log.className == className && dateOf(log.timestamp) == today
  }

  /** The `logs.some(...)` test of `hasAttendanceForTodayInClass`. */
  function AnyLoggedOn(logs: seq<AttendanceRecord>, studentId: int, className: string, today: string,
                       dateOf: int -> string): (b: bool)
    ensures b <==> exists i :: 0 <= i < |logs| && LoggedOn(logs[i], studentId, className, today, dateOf)
  {
    if logs == [] then false
    else
      assert forall i :: 0 < i < |logs| ==> logs[i] == logs[1..][i - 1];
      LoggedOn(logs[0], studentId, className, today, dateOf)
      || AnyLoggedOn(logs[1..], studentId, className, today, dateOf)
  }

  /** Two records of the same student in the same class on the same day. */
  predicate SameSession(a: AttendanceRecord, b: AttendanceRecord, dateOf: int -> string) {
    a.studentId == b.studentId && a.className == b.className && dateOf(a.timestamp) == dateOf(b.timestamp)
  }

  /** At most one record per (student, class, calendar day). */
  predicate UniqueSessions(logs: seq<AttendanceRecord>, dateOf: int -> string) {
    forall i, j :: 0 <= i < j < |logs| ==> !SameSession(logs[i], logs[j], dateOf)
  }

  /** Appending a record whose session is not yet logged keeps sessions unique. */
  lemma AppendFreshSession(logs: seq<AttendanceRecord>, entry: AttendanceRecord, dateOf: int -> string)
    requires UniqueSessions(logs, dateOf)
    requires !AnyLoggedOn(logs, entry.studentId, entry.className, dateOf(entry.timestamp), dateOf)
    ensures UniqueSessions(logs + [entry], dateOf)
  {
  }

  /** Records that are all distinct and all come from a log with unique
      sessions have unique sessions themselves. */
  lemma UniqueSessionsOfMembers(s: seq<AttendanceRecord>, t: seq<AttendanceRecord>, dateOf: int -> string)
    requires UniqueSessions(s, dateOf)
    requires NoDuplicates(t)
    requires forall x :: x in t ==> x in s
    ensures UniqueSessions(t, dateOf)
  {
    forall i, j | 0 <= i < j < |t| ensures !SameSession(t[i], t[j], dateOf) {
      assert t[i] in s && t[j] in s;
      var a :| 0 <= a < |s| && s[a] == t[i];
      var b :| 0 <= b < |s| && s[b] == t[j];
      assert a != b;
    }
  }

  /** The records re-added by `clearClassAttendanceLogs`, with the ids the
      key generator gives them starting at `start`. */
  function Renumber(logs: seq<AttendanceRecord>, start: int): (r: seq<AttendanceRecord>)
    ensures |r| == |logs|
  {
    seq(|logs|, i requires 0 <= i < |logs| => logs[i].(id := start + i))
  }

  /** What `clearClassAttendanceLogs(className)` leaves in the store, in
      terms of the records stored before it and the next free key. */
  function KeptAfterClear(records: seq<AttendanceRecord>, className: string, start: int): seq<AttendanceRecord> {
    Renumber(Filter(LoadAttendance(records, None), NotInClass(className)), start)
  }

  /** Renumbering does not touch the fields that make up a session. */
  lemma RenumberKeepsUniqueSessions(logs: seq<AttendanceRecord>, start: int, dateOf: int -> string)
    requires UniqueSessions(logs, dateOf)
    ensures UniqueSessions(Renumber(logs, start), dateOf)
  {
    var r := Renumber(logs, start);
    forall i, j | 0 <= i < j < |r| ensures !SameSession(r[i], r[j], dateOf) {
      assert r[i] == logs[i].(id := start + i) && r[j] == logs[j].(id := start + j);
    }
  }

  /** Renumbered copies of a permutation of the records of the other classes. */
  lemma RenumberedOtherClasses(keep: seq<AttendanceRecord>, records: seq<AttendanceRecord>,
                               className: string, start: int)
    requires multiset(keep) == multiset(Filter(records, NotInClass(className)))
    ensures |Renumber(keep, start)| == |Filter(records, NotInClass(className))|
    ensures forall i :: 0 <= i < |keep| ==>
              && Renumber(keep, start)[i].className != className
              && exists m :: 0 <= m < |records| && Renumber(keep, start)[i] == records[m].(id := start + i)
    ensures forall x :: x in records && x.className != className ==>
              exists i :: 0 <= i < |keep| && Renumber(keep, start)[i] == x.(id := start + i)
  {
    var others := Filter(records, NotInClass(className));
    var kept := Renumber(keep, start);
    PermutationMembers(keep, others);
    assert |keep| == |multiset(keep)| == |multiset(others)| == |others|;
    forall i | 0 <= i < |keep|
      ensures kept[i].className != className
      ensures exists m :: 0 <= m < |records| && kept[i] == records[m].(id := start + i)
    {
      assert keep[i] in others;
      var m :| 0 <= m < |records| && records[m] == keep[i];
      assert kept[i] == records[m].(id := start + i);
    }
    forall x | x in records && x.className != className
      ensures exists i :: 0 <= i < |keep| && kept[i] == x.(id := start + i)
    {
      assert x in others;
      var i :| 0 <= i < |keep| && keep[i] == x;
      assert kept[i] == x.(id := start + i);
    }
  }

  /** Clearing a class keeps exactly the records of the other classes, each
      once, under a fresh id and with every other field unchanged. */
  lemma ClearClassKeepsOtherClasses(records: seq<AttendanceRecord>, className: string, start: int)
    ensures |KeptAfterClear(records, className, start)| == |Filter(records, NotInClass(className))|
    ensures forall i :: 0 <= i < |KeptAfterClear(records, className, start)| ==>
              && KeptAfterClear(records, className, start)[i].className != className
              && exists m :: 0 <= m < |records|
                   && KeptAfterClear(records, className, start)[i] == records[m].(id := start + i)
    ensures forall x :: x in records && x.className != className ==>
              exists i :: 0 <= i < |KeptAfterClear(records, className, start)|
                       && KeptAfterClear(records, className, start)[i] == x.(id := start + i)
  {
    var keep := Filter(LoadAttendance(records, None), NotInClass(className));
    FilterPermutation(LoadAttendance(records, None), records, NotInClass(className));
    RenumberedOtherClasses(keep, records, className, start);
  }

  /** Clearing a class cannot create two records of one session. */
  lemma ClearClassKeepsUniqueSessions(records: seq<AttendanceRecord>, className: string, start: int,
                                      dateOf: int -> string)
    requires UniqueSessions(records, dateOf)
    ensures UniqueSessions(KeptAfterClear(records, className, start), dateOf)
  {
    assert NoDuplicates(records) by {
      forall i, j | 0 <= i < j < |records| ensures records[i] != records[j] {
        assert !SameSession(records[i], records[j], dateOf);
      }
    }
    var sorted := LoadAttendance(records, None);
    var keep := Filter(sorted, NotInClass(className));
    PermutationNoDuplicates(records, sorted);
    FilterNoDuplicates(sorted, NotInClass(className));
    PermutationMembers(sorted, records);
    UniqueSessionsOfMembers(records, keep, dateOf);
    RenumberKeepsUniqueSessions(keep, start, dateOf);
  }

  lemma RenumberAppend(logs: seq<AttendanceRecord>, i: nat, start: int)
    requires i < |logs|
    ensures Renumber(logs[..i + 1], start) == Renumber(logs[..i], start) + [logs[i].(id := start + i)]
  {
  }

  function ClassNameList(logs: seq<AttendanceRecord>): (r: seq<string>)
    ensures |r| == |logs|
  {
    seq(|logs|, i requires 0 <= i < |logs| => logs[i].className)
  }

  /** Truthiness of a class name that is present. */
  function IsTruthyName(className: string): bool { Truthy(Some(className)) }

  /** The truthy class names of `logs`, in log order. */
  function TruthyClassNames(logs: seq<AttendanceRecord>): seq<string> {
    Filter(ClassNameList(logs), IsTruthyName)
  }

  /** One turn of the `forEach` in `getClassNames`: a truthy class name not
      yet in the set is added at the end; anything else changes nothing. */
  lemma ClassNamesStep(logs: seq<AttendanceRecord>, i: nat)
    requires i < |logs|
    ensures Distinct(TruthyClassNames(logs[..i + 1]))
         == if logs[i].className != "" && logs[i].className !in Distinct(TruthyClassNames(logs[..i]))
            then Distinct(TruthyClassNames(logs[..i])) + [logs[i].className]
            else Distinct(TruthyClassNames(logs[..i]))
  {
    var c := logs[i].className;
    var prev := TruthyClassNames(logs[..i]);
    var names := ClassNameList(logs[..i + 1]);
    assert names == ClassNameList(logs[..i]) + [c];
    assert names[..|names| - 1] == ClassNameList(logs[..i]);
    if c != "" {
      var next := prev + [c];
      assert TruthyClassNames(logs[..i + 1]) == next;
      assert next[..|next| - 1] == prev;
    } else {
      assert TruthyClassNames(logs[..i + 1]) == prev;
    }
  }

  /** Some record of `logs` belongs to the class. */
  predicate HasClass(logs: seq<AttendanceRecord>, className: string) {
    exists i :: 0 <= i < |logs| && logs[i].className == className
  }

  lemma ClassNamesMembers(logs: seq<AttendanceRecord>)
    ensures forall c :: c in Distinct(TruthyClassNames(logs)) <==> c != "" && HasClass(logs, c)
  {
    forall c ensures c in Distinct(TruthyClassNames(logs)) <==> c != "" && HasClass(logs, c)
    {
      if c != "" && HasClass(logs, c) {
        var i :| 0 <= i < |logs| && logs[i].className == c;
        assert ClassNameList(logs)[i] == c;
      }
    }
  }

  lemma ClassNamesOfPermutation(s: seq<AttendanceRecord>, t: seq<AttendanceRecord>, c: string)
    requires multiset(s) == multiset(t)
    ensures HasClass(s, c) <==> HasClass(t, c)
  {
    PermutationMembers(s, t);
    if i :| 0 <= i < |s| && s[i].className == c {
      assert s[i] in t;
    }
    if j :| 0 <= j < |t| && t[j].className == c {
      assert t[j] in s;
    }
  }

  // ------------------------------------------------------------ the store

  class Database {
    const locale: Locale
    var students: seq<Student>
    var attendance: seq<AttendanceRecord>
    var nextAttendanceId: int

    /** Keys are handed out in increasing order, so the store, read in key
        order, lists the records by increasing id, all below the next key. */
    ghost predicate Valid()
      reads this
    {
      && nextAttendanceId >= 1
      && (forall i, j :: 0 <= i < j < |attendance| ==> attendance[i].id < attendance[j].id)
      && (forall i :: 0 <= i < |attendance| ==> 1 <= attendance[i].id < nextAttendanceId)
    }

    /** A freshly created database (`initDB` on first use). */
    constructor (locale: Locale)
      ensures Valid()
      ensures this.locale == locale
      ensures students == [] && attendance == [] && nextAttendanceId == 1
    {
      this.locale := locale;
      students := [];
      attendance := [];
      nextAttendanceId := 1;
    }

    /** `hasAttendanceForTodayInClass(studentId, className)`, with the clock
        reading `now` as a parameter. */
    function HasAttendanceForTodayInClass(studentId: int, className: string, now: int): (b: bool)
      reads this
      ensures b <==> exists i :: 0 <= i < |attendance|
                       && LoggedOn(attendance[i], studentId, className, locale.dateString(now), locale.dateString)
    {
      var logs := LoadAttendance(attendance, None);
      var today := locale.dateString(now);
      PermutationMembers(logs, attendance);
      assert (exists i :: 0 <= i < |logs| && LoggedOn(logs[i], studentId, className, today, locale.dateString))
         <==> (exists i :: 0 <= i < |attendance|
                 && LoggedOn(attendance[i], studentId, className, today, locale.dateString)) by {
        if i :| 0 <= i < |logs| && LoggedOn(logs[i], studentId, className, today, locale.dateString) {
          assert logs[i] in attendance;
        }
        if i :| 0 <= i < |attendance| && LoggedOn(attendance[i], studentId, className, today, locale.dateString) {
          assert attendance[i] in logs;
        }
      }
      AnyLoggedOn(logs, studentId, className, today, locale.dateString)
    }

    /** `store.add(entry)` on the attendance store: the entry is stored under
        the next key, which is returned. */
    method Add(entry: AttendanceRecord) returns (id: int)
      requires Valid()
      modifies this
      ensures Valid()
      ensures id == old(nextAttendanceId) && nextAttendanceId == id + 1
      ensures attendance == old(attendance) + [entry.(id := id)]
      ensures students == old(students)
    {
      id := nextAttendanceId;
      attendance := attendance + [entry.(id := id)];
      nextAttendanceId := nextAttendanceId + 1;
    }

    /** `logAttendanceToDB(studentId, studentName, className)` at clock
        reading `now`: nothing happens when the student already has a record
        in the class today; otherwise one record is added and returned. */
    method LogAttendance(studentId: int, studentName: string, className: string, now: int)
      returns (r: Option<AttendanceRecord>)
      requires Valid()
      modifies this
      ensures Valid() && students == old(students)
      ensures old(HasAttendanceForTodayInClass(studentId, className, now)) ==>
                r.None? && attendance == old(attendance) && nextAttendanceId == old(nextAttendanceId)
      ensures !old(HasAttendanceForTodayInClass(studentId, className, now)) ==>
                && r == Some(AttendanceRecord(old(nextAttendanceId), studentId, studentName, className, now,
                                              locale.dateString(now), locale.timeString(now),
                                              locale.sessionString(now)))
                && attendance == old(attendance) + [r.value]
                && nextAttendanceId == old(nextAttendanceId) + 1
      ensures UniqueSessions(old(attendance), locale.dateString) ==> UniqueSessions(attendance, locale.dateString)
    {
      var alreadyLoggedToday := HasAttendanceForTodayInClass(studentId, className, now);
      if alreadyLoggedToday {
        return None;
      }
      var logEntry := AttendanceRecord(0, studentId, studentName, className, now,
                                       locale.dateString(now), locale.timeString(now), locale.sessionString(now));
      ghost var before := attendance;
      var id := Add(logEntry);
      r := Some(logEntry.(id := id));
      if UniqueSessions(before, locale.dateString) {
        AppendFreshSession(before, r.value, locale.dateString);
      }
    }

    /** `deleteStudentFromDB(studentId)`. */
    method DeleteStudent(studentId: int)
      requires Valid()
      modifies this
      ensures Valid()
      ensures students == Filter(old(students), NotStudent(studentId))
      ensures attendance == old(attendance) && nextAttendanceId == old(nextAttendanceId)
    {
      students := Filter(students, NotStudent(studentId));
    }

    /** `clearAttendanceLogs()`: empties the store; the key generator keeps counting. */
    method ClearAttendanceLogs()
      requires Valid()
      modifies this
      ensures Valid()
      ensures attendance == [] && nextAttendanceId == old(nextAttendanceId) && students == old(students)
    {
      attendance := [];
    }

    /** `clearClassAttendanceLogs(className)`: reads every record newest
        first, empties the store and adds back, one by one and in that order,
        the records of the other classes, each under a new key. */
    method ClearClassAttendanceLogs(className: string)
      requires Valid()
      modifies this
      ensures Valid() && students == old(students)
      ensures attendance == KeptAfterClear(old(attendance), className, old(nextAttendanceId))
      ensures nextAttendanceId == old(nextAttendanceId) + |attendance|
      ensures UniqueSessions(old(attendance), locale.dateString) ==> UniqueSessions(attendance, locale.dateString)
    {
      var allLogs := LoadAttendance(attendance, None);
      var logsToKeep := Filter(allLogs, NotInClass(className));
      ghost var start := nextAttendanceId;
      ghost var before := attendance;
      ClearAttendanceLogs();
      for i := 0 to |logsToKeep|
        invariant Valid() && students == old(students)
        invariant nextAttendanceId == start + i
        invariant attendance == Renumber(logsToKeep[..i], start)
      {
        var logCopy := logsToKeep[i];
        RenumberAppend(logsToKeep, i, start);
        var _ := Add(logCopy);
      }
      assert logsToKeep[..|logsToKeep|] == logsToKeep;
      if UniqueSessions(before, locale.dateString) {
        ClearClassKeepsUniqueSessions(before, className, start, locale.dateString);
      }
    }

    /** `getClassNames()`: every truthy class name in the newest-first log,
        once each, in order of first appearance (a `Set` filled by `forEach`). */
    method GetClassNames() returns (names: seq<string>)
      ensures names == Distinct(TruthyClassNames(LoadAttendance(attendance, None)))
      ensures NoDuplicates(names)
      ensures forall c :: c in names <==> c != "" && HasClass(attendance, c)
    {
      var logs := LoadAttendance(attendance, None);
      names := [];
      for i := 0 to |logs|
        invariant names == Distinct(TruthyClassNames(logs[..i]))
      {
        ClassNamesStep(logs, i);
        var c := logs[i].className;
        if c != "" {
          if c !in names {
            names := names + [c];
          }
        }
      }
      assert logs[..|logs|] == logs;
      ClassNamesMembers(logs);
      forall c ensures HasClass(logs, c) <==> HasClass(attendance, c) {
        ClassNamesOfPermutation(logs, attendance, c);
      }
    }
  }

  /** Logging the same student in the same class twice at clock readings that
      fall on the same calendar day stores one record: the second call is a
      no-op. */
  method LogTwiceSameDay(db: Database, studentId: int, studentName: string, className: string,
                         first: int, second: int)
    returns (r1: Option<AttendanceRecord>, r2: Option<AttendanceRecord>)
    requires db.Valid()
    requires db.locale.dateString(first) == db.locale.dateString(second)
    modifies db
    ensures db.Valid() && db.students == old(db.students)
    ensures r1.Some? <==> !old(db.HasAttendanceForTodayInClass(studentId, className, first))
    ensures r2.None?
    ensures db.attendance == old(db.attendance) + (if r1.Some? then [r1.value] else [])
    ensures db.nextAttendanceId == old(db.nextAttendanceId) + (if r1.Some? then 1 else 0)
    ensures db.HasAttendanceForTodayInClass(studentId, className, second)
    ensures UniqueSessions(old(db.attendance), db.locale.dateString) ==>
              UniqueSessions(db.attendance, db.locale.dateString)
  {
    r1 := db.LogAttendance(studentId, studentName, className, first);
    if r1.Some? {
      assert LoggedOn(db.attendance[|db.attendance| - 1], studentId, className,
                      db.locale.dateString(second), db.locale.dateString);
    }
    assert db.HasAttendanceForTodayInClass(studentId, className, second);
    r2 := db.LogAttendance(studentId, studentName, className, second);
  }
}
