# Student Attendance System — verified model of its core logic

The Student Attendance System is a browser application. It registers
students with a photo and a face descriptor, recognises them in a webcam
feed and logs their attendance per class in IndexedDB. This project models
the logic under the UI and proves its properties:

- `FaceMatcher` (matcher.dfy) models `compareFaces`. It scans the registered
  students in order, skips those without a descriptor, and keeps the first
  student strictly closer than both the running minimum and the threshold.
  The caller supplies the distance function.
- `AttendanceDatabase` (database.dfy) models the attendance store as a
  class. It holds the `students` and `attendance` stores, each a sequence in
  key order, and the key generator of the attendance store, a counter that
  starts at 1 and is not reset by `clear()`. It covers the sorted and
  class-filtered read, the "already logged today" check, logging with
  deduplication, deleting a student, clearing all records or one class's
  records, and listing class names.
- `AttendanceView` (view.dfy) models the attendance tab. It groups the log
  by `date` in a dictionary whose keys keep their creation order, then
  sorts the dates newest first.
- `AttendanceApp` (app.dfy) models the `App` component's state: `students`,
  `attendanceLog`, `classes` and `selectedClass`. It covers the handlers
  that change that state.
- `Records` (records.dfy) holds the stored values.
- `Sequences` (sequences.dfy) holds the JavaScript array operations the
  code relies on: `filter`, a `Set` read back with `Array.from`, and the
  stable `sort`.

Host facilities are parameters:

- The clock reading `now` is an epoch-millisecond integer.
- The locale renderings `toLocaleDateString`, `toLocaleTimeString` and
  `toDateString` are the three functions of a `Locale`.
- The date parsing of `new Date(s)` is a `dateValue` function.
- The user's answer to `window.confirm` is a `confirmed` flag.

JavaScript truthiness of a class name is `Records.Truthy`: `null`,
`undefined` and `''` are all falsy. So `loadAttendanceFromDB('')` returns
every record, exactly as `loadAttendanceFromDB(null)` does.

`hasAttendanceForTodayInClass` runs its `some` over the log after sorting it
newest first. The model computes it that way too. Its contract states the
answer over the store in key order, which is the same set of records.

## Model

| member | source | states |
|---|---|---|
| FaceMatcher.CompareFaces | src/services/faceDetectionServiceCDN.js:51-85 | No match when the descriptor is absent or the list is empty. Otherwise no match exactly when no student with a descriptor is strictly under the threshold. A match is the first student with a descriptor at the minimum distance, that distance is below the threshold, and it is paired with its own distance. The loop over `minDistance`/`matchedStudent` is proved equal to `Nearest`. The threshold defaults to `DefaultThreshold` (0.6), as the source's default argument does. The copy in src/services/faceDetectionService.js (lines 62-96) is identical, so this one member models both. |
| FaceMatcher.ScanFindsFirstNearest | src/services/faceDetectionServiceCDN.js:62-80 | The scan finds nothing iff every student with a descriptor is at or above the threshold. Otherwise it returns `students[k]` with its distance, where `k` has a descriptor, is under the threshold, is at most as far as every other student with a descriptor, and is strictly closer than every earlier one. |
| FaceMatcher.TieGoesToFirst | src/services/faceDetectionServiceCDN.js:73 | Two students at the same distance under the threshold: the earlier one is returned, and swapping them swaps the result, because replacement needs a strictly smaller distance. |
| FaceMatcher.DefaultThresholdMatch | src/services/faceDetectionServiceCDN.js:51 | Called without a threshold, the matcher uses 0.6: a reported match is closer than 0.6, and a match is reported whenever some student with a descriptor is closer than 0.6. |
| FaceMatcher.NearestIgnoresOrderWithoutTies | src/services/faceDetectionServiceCDN.js:62-80 | When no two different candidates under the threshold share a distance, any reordering of the students gives the same result. |
| Sequences.Filter | src/services/databaseService.js:77 | The kept elements are exactly the input's elements that pass the test, and there are no more of them than inputs. |
| Sequences.FilterAppend | src/App.jsx:84 | Filtering distributes over concatenation, so the kept elements keep their relative order. |
| Sequences.SortDesc | src/services/databaseService.js:73 | `sort((a, b) => key(b) - key(a))` yields a permutation of its input in non-increasing key order. |
| Sequences.SortDescStable | src/services/databaseService.js:73 | The sort is stable: the elements with one key value come out in their input order. |
| Sequences.Distinct | src/services/databaseService.js:263-271 | `Array.from` of a `Set` filled in order has no duplicates and holds exactly the inserted values. |
| AttendanceDatabase.LoadAttendance | src/services/databaseService.js:63-92 | The result is in non-increasing timestamp order. It is a permutation of the records of the class when the class name is truthy, and of all records otherwise. |
| AttendanceDatabase.LoadAttendanceStable | src/services/databaseService.js:73-78 | Records with equal timestamps come out in key order, for either kind of read. |
| Sequences.FilterSortedDesc | src/services/databaseService.js:76-78 | Filtering a newest-first list by class keeps it newest first. |
| AttendanceDatabase.AnyLoggedOn | src/services/databaseService.js:125-129 | The `some` test is true iff some record has the student id, the class name and a timestamp on the given calendar day; on an empty log it is false. |
| AttendanceDatabase.Database.HasAttendanceForTodayInClass | src/services/databaseService.js:120-134 | True iff some stored record has the student id and class and a timestamp whose locale date equals the date of `now`. |
| AttendanceDatabase.Database.constructor | src/services/databaseService.js:18-34 | A new database has empty stores and a key generator at 1. |
| AttendanceDatabase.Database.Add | src/services/databaseService.js:162 | `store.add` stores the entry under the next key, returns that key and advances the generator by one. |
| AttendanceDatabase.Database.LogAttendance | src/services/databaseService.js:137-180 | When the student already has a record in the class today, it returns null and nothing changes. Otherwise it appends exactly one record with the given id, name and class, the time `now` and its renderings, under the next key, and returns that record. A log with at most one record per (student, class, day) keeps that property. |
| AttendanceDatabase.AppendFreshSession | src/services/databaseService.js:140-162 | Appending a record whose (student, class, day) is not yet logged keeps the sessions unique. |
| AttendanceDatabase.LogTwiceSameDay | src/services/databaseService.js:140-144 | Two log calls for one student and class at times on the same calendar day: the first adds a record exactly when none of that session was logged that day, so the store then holds exactly one record of it. The session is logged afterwards in every case, and when sessions were unique before, they still are. The second returns null and writes nothing. The old records stay as they were, and the key generator advances by at most one. |
| AttendanceDatabase.Database.DeleteStudent | src/services/databaseService.js:183-205 | Deleting by key removes exactly the students with that id, keeps the others in order, and leaves the attendance store alone. |
| AttendanceDatabase.Database.ClearAttendanceLogs | src/services/databaseService.js:208-230 | `clear()` empties the attendance store and leaves the key generator where it was. |
| AttendanceDatabase.Database.ClearClassAttendanceLogs | src/services/databaseService.js:233-257 | The store ends up holding the other classes' records, newest first, re-added one by one under consecutive fresh keys. The generator advances by their number, and unique sessions stay unique. |
| AttendanceDatabase.ClearClassKeepsOtherClasses | src/services/databaseService.js:236-250 | After clearing a class, the store holds exactly the records of the other classes, each once. Each one equals an old record except for its new id, and every old record of another class is among them. |
| AttendanceDatabase.ClearClassKeepsUniqueSessions | src/services/databaseService.js:236-250 | Clearing a class cannot create two records of one (student, class, day). |
| AttendanceDatabase.RenumberKeepsUniqueSessions | src/services/databaseService.js:247-249 | Giving the re-added copies new ids leaves their sessions as they were. |
| AttendanceDatabase.Database.GetClassNames | src/services/databaseService.js:260-275 | The result lists each truthy class name of the stored records exactly once, no duplicates and no `''`, in order of first appearance in the newest-first log. |
| AttendanceDatabase.ClassNamesStep | src/services/databaseService.js:265-269 | One turn of the `forEach`: a truthy class name not yet in the set is appended; anything else leaves the set as it was. |
| AttendanceDatabase.ClassNamesMembers | src/services/databaseService.js:263-271 | A name is listed iff it is non-empty and some record has it. |
| AttendanceDatabase.ClassNamesOfPermutation | src/services/databaseService.js:262 | Reordering the log, as the sort does, does not change which classes occur in it. |
| AttendanceView.GroupByDate | src/components/AttendanceTab.jsx:5-11 | The keys are the distinct dates of the log in order of first appearance. The group under a date is exactly the records of that date, in log order. |
| AttendanceView.GroupedStep | src/components/AttendanceTab.jsx:7-10 | One turn of the `forEach` keeps the dictionary a grouping of the records seen so far: a missing key is created empty and added last to the key order, then the record is pushed onto its group. |
| AttendanceView.GroupAppend | src/components/AttendanceTab.jsx:10 | Pushing a record adds it at the end of its own date's group and changes no other group. |
| AttendanceView.NotYetOnDate | src/components/AttendanceTab.jsx:7-8 | A date is created as a key only before any record of that date has been grouped, so its group starts empty. |
| AttendanceView.GroupSizesSum | src/components/AttendanceTab.jsx:6-11 | The group sizes over all keys add up to the length of the log, so every record is counted in exactly one group. |
| AttendanceView.SortedDates | src/components/AttendanceTab.jsx:14-16 | The ordered dates are a permutation of the keys in non-increasing date value, and keep the keys free of duplicates. |
| AttendanceView.ShownDatesAreLogDates | src/components/AttendanceTab.jsx:7-16 | The dates shown are each distinct date of the log exactly once. |
| AttendanceApp.App.constructor | src/App.jsx:21-25 | The hooks start as empty lists and an empty selected class. |
| AttendanceApp.App.Initialize | src/App.jsx:38-53 | The app loads the students and the newest-first log. `classes` becomes exactly the list `getClassNames` returns: each truthy class name once, in order of first appearance in the newest-first log. The app selects the first of them, which is the class of the newest record with a truthy class name, and keeps `''` when there is none. |
| AttendanceApp.App.AddClass | src/App.jsx:72-77 | An empty or already listed name changes nothing. Any other name is appended and selected, and the class list stays free of duplicates. |
| AttendanceApp.App.DeleteStudent | src/App.jsx:80-89 | When confirmed, it removes the students with that id from both the store and the list, order kept. Otherwise nothing changes. |
| AttendanceApp.App.ClearAttendance | src/App.jsx:92-109 | When confirmed, a truthy class name clears that class: the store keeps the other classes' records under fresh keys and the key generator advances by their number. Any other argument clears every record and leaves the generator where it was. The displayed log becomes empty either way. Without confirmation the log, the store and the generator stay as they were. Unique sessions stay unique. |

## Left out

- The face-api.js calls are not modelled: model loading, face detection, `euclideanDistance`, drawing and image capture. The distance is a parameter of `CompareFaces`.
- FaceMatcher.CompareFaces: distances are exact reals. The `Float32Array` conversion, floating-point rounding and `NaN` distances (which the source's `<` comparisons would skip) are not modelled. Neither is the `try`/`catch` that returns `null` on a library exception.
- Locale date and time formatting is not modelled. `toLocaleDateString`, `toLocaleTimeString` and `toDateString` are uninterpreted functions of the timestamp.
- AttendanceView.SortedDates: `new Date(s)` is an uninterpreted `dateValue` returning an integer. A locale date string that `Date` cannot parse gives `NaN` in the source, which makes the comparator inconsistent; the model does not capture that.
- AttendanceView.GroupByDate: keys are kept in creation order. JavaScript lists integer-like property names first and gives `__proto__` special treatment; locale date strings are neither.
- IndexedDB is not modelled: opening the database, transactions, request callbacks, promises and their failures. Each operation is a synchronous step that always succeeds, so the `catch` branches (`false` from `hasAttendanceForTodayInClass`, `[]` from `getClassNames`, rethrown errors, the handlers' logged errors) are absent.
- AttendanceDatabase.Database.LogAttendance: the source reads the clock twice, once for "today" in the check and once for the new record. The model uses one reading `now`, so a call that straddles midnight is not represented.
- Concurrency is not modelled; every operation is sequential. This covers the read-check-write race between the registration tab's check and `logAttendanceToDB`, the un-awaited `store.add` calls when a class is cleared, and fire-and-forget deletes.
- `loadStudentsFromDB` is the `students` field read in key order. `saveStudentToDB` and the student store's key generator are outside this model, as are the registration and capture flows that call them.
- The `App` component's tab switching, the effect that reloads the log when the tab or class changes, the class `<select>`, the model-loading flag, the loading spinner and the "delete all students" button are UI wiring and are not modelled.
- The camera, canvas and UI components (registration tab, webcam capture, registration form, debug panel, error boundary, student card) and the build configuration are not part of this model.
