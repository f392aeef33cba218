/** The state the `App` component keeps in its hooks and the handlers that
    change it. Confirmation dialogs become a `confirmed` parameter. */
module AttendanceApp {
  import opened Records
  import opened Sequences
  import opened AttendanceDatabase

  class App {
    const db: Database
    var students: seq<Student>
    var attendanceLog: seq<AttendanceRecord>
    var classes: seq<string>
    var selectedClass: string

    /** The class list never repeats a name, and the selected class is
        either none (`''`) or one of the listed classes. */
    ghost predicate Valid()
      reads this, db
    {
      && db.Valid()
      && NoDuplicates(classes)
      && (selectedClass == "" || selectedClass in classes)
    }

    /** The hooks' initial values. */
    constructor (db: Database)
      requires db.Valid()
      ensures Valid() && this.db == db
      ensures students == [] && attendanceLog == [] && classes == [] && selectedClass == ""
    {
      this.db := db;
      students := [];
      attendanceLog := [];
      classes := [];
      selectedClass := "";
    }

    /** `initialize` on mount (loading the face models is left out): loads
        the students, the whole log newest first and the class names, and
        selects the first class when there is one. */
    method Initialize()
      requires Valid() && selectedClass == ""
      modifies this
      ensures Valid()
      ensures students == db.students
      ensures attendanceLog == LoadAttendance(db.attendance, None)
      ensures classes == Distinct(TruthyClassNames(LoadAttendance(db.attendance, None)))
      ensures forall c :: c in classes <==> c != "" && HasClass(db.attendance, c)
      ensures selectedClass == if classes != [] then classes[0] else ""
    {
      var loadedStudents := db.students;
      var loadedAttendance := LoadAttendance(db.attendance, None);
      var classNames := db.GetClassNames();
      assert db.Valid() && NoDuplicates(classNames);
      // `setSelectedClass(classNames[0])` only when there is a class; otherwise it stays `''`.
      var first := if |classNames| > 0 then classNames[0] else "";
      assert first == "" || first in classNames;
      students, attendanceLog, classes, selectedClass := loadedStudents, loadedAttendance, classNames, first;
    }

    /** `handleAddClass(newClassName)`. */
    method AddClass(newClassName: string)
      requires Valid()
      modifies this
      ensures Valid()
      ensures newClassName != "" && newClassName !in old(classes) ==>
                classes == old(classes) + [newClassName] && selectedClass == newClassName
      ensures newClassName == "" || newClassName in old(classes) ==>
                classes == old(classes) && selectedClass == old(selectedClass)
      ensures students == old(students) && attendanceLog == old(attendanceLog)
    {
      if newClassName != "" && newClassName !in classes {
        classes := classes + [newClassName];
        selectedClass := newClassName;
      }
    }

    /** `handleDeleteStudent(studentId)` after the user's answer `confirmed`. */
    method DeleteStudent(studentId: int, confirmed: bool)
      requires Valid()
      modifies this, db
      ensures Valid()
      ensures confirmed ==> (students == Filter(old(students), NotStudent(studentId))
                         && db.students == Filter(old(db.students), NotStudent(studentId)))
      ensures !confirmed ==> students == old(students) && db.students == old(db.students)
      ensures db.attendance == old(db.attendance) && db.nextAttendanceId == old(db.nextAttendanceId)
      ensures classes == old(classes) && selectedClass == old(selectedClass)
      ensures attendanceLog == old(attendanceLog)
    {
      if confirmed {
        db.DeleteStudent(studentId);
        students := Filter(students, NotStudent(studentId));
      }
    }

    /** `handleClearAttendance(className)` after the user's answer
        `confirmed`: a truthy class name clears that class, anything else
        clears every record; the displayed log is emptied either way. */
    method ClearAttendance(className: Option<string>, confirmed: bool)
      requires Valid()
      modifies this, db
      ensures Valid()
      ensures confirmed ==> attendanceLog == []
      ensures confirmed && Truthy(className) ==>
                db.attendance == KeptAfterClear(old(db.attendance), className.value, old(db.nextAttendanceId))
      ensures confirmed && Truthy(className) ==>
                db.nextAttendanceId == old(db.nextAttendanceId) + |db.attendance|
      ensures confirmed && !Truthy(className) ==> db.attendance == []
      ensures !confirmed || !Truthy(className) ==> db.nextAttendanceId == old(db.nextAttendanceId)
      ensures !confirmed ==> attendanceLog == old(attendanceLog) && db.attendance == old(db.attendance)
      ensures UniqueSessions(old(db.attendance), db.locale.dateString) ==>
                UniqueSessions(db.attendance, db.locale.dateString)
      ensures students == old(students) && db.students == old(db.students)
      ensures classes == old(classes) && selectedClass == old(selectedClass)
    {
      if confirmed {
        if Truthy(className) {
          db.ClearClassAttendanceLogs(className.value);
        } else {
          db.ClearAttendanceLogs();
        }
        attendanceLog := [];
      }
    }
  }
}
