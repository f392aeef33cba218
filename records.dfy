/** The values the attendance system stores and passes around. */
module Records {

  datatype Option<T> = None | Some(value: T)

  /** A face descriptor: the numeric vector the recognition model produces
      for one face (128 numbers for the model the system loads). */
  type Descriptor = seq<real>

  /** A registered student as the `students` object store holds it. A
      student saved without a captured face has no descriptor. */
  datatype Student = Student(
    id: int,
    name: string,
    faceImage: string,
    faceDescriptor: Option<Descriptor>,
    registeredAt: string)

  /** One row of the `attendance` object store. `date`, `time` and
      `sessionDate` are the locale renderings of `timestamp`. */
  datatype AttendanceRecord = AttendanceRecord(
    id: int,
    studentId: int,
    studentName: string,
    className: string,
    timestamp: int,
    date: string,
    time: string,
    sessionDate: string)

  /** The host's date rendering: `toLocaleDateString`, `toLocaleTimeString`
      and `toDateString` of an epoch-millisecond timestamp. They depend on
      the browser's locale and time zone and are not modelled further. */
  datatype Locale = Locale(
    dateString: int -> string,
    timeString: int -> string,
    sessionString: int -> string)

  /** JavaScript truthiness of an optional class name: `null`, `undefined`
      and `''` are all falsy. */
  predicate Truthy(className: Option<string>) {
    className.Some? && className.value != ""
  }
}
