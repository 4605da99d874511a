/** Entity shapes of the timetable editor, and the few generic containers the model needs.

    Times written "HH:mm" in the application are represented by their hour part, an `int`,
    wherever the application only ever reads that part (availability slots and shifts).
    Schedule entries keep their start and end as strings, because the schedule grid compares
    them as strings. */
module Domain {

  datatype Option<T> = None | Some(value: T)

  /** The six week days the application knows (Lunes to Sábado). */
  datatype Day = Lunes | Martes | Miercoles | Jueves | Viernes | Sabado

  /** A half-open interval [start, end) of whole hours on one day. */
  datatype TimeSlot = TimeSlot(day: Day, start: int, end: int)

  datatype Degree = Degree(id: string, name: string)

  datatype Shift = Shift(id: string, name: string, start: int, end: int, days: seq<Day>)

  datatype Teacher = Teacher(id: string, name: string, availability: seq<TimeSlot>, canTeach: seq<string>)

  datatype Subject = Subject(id: string, name: string, hoursPerWeek: int, degreeId: string, semester: int)

  datatype Group = Group(id: string, name: string, shiftId: string, degreeId: string, subjects: seq<string>)

  datatype ScheduleEntry = ScheduleEntry(subjectId: string, teacherId: string, groupId: string,
                                         day: Day, start: string, end: string)

  // Accessors handed to the generic list functions.
  function DegreeId(d: Degree): string { d.id }
  function DegreeName(d: Degree): string { d.name }
  function ShiftId(s: Shift): string { s.id }
  function TeacherId(t: Teacher): string { t.id }
  function TeacherName(t: Teacher): string { t.name }
  function SubjectId(s: Subject): string { s.id }
  function SubjectName(s: Subject): string { s.name }
  function GroupId(g: Group): string { g.id }

  predicate NoDup<T(==)>(s: seq<T>) {
    forall i, j :: 0 <= i < j < |s| ==> s[i] != s[j]
  }
}
