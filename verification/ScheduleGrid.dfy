/** The read-only schedule view: for each group, a grid whose columns are its shift's days and
    whose rows are the shift's hours, each cell showing the first schedule entry of that group
    that starts on that day at exactly that hour label. */
module ScheduleGrid {
  import opened Domain
  import opened HourFormat
  import opened EntityLists

  // ---------------------------------------------------------------- hour rows

  /** The labels of the hours from `startHour` up to, not including, `endHour`. */
  function HourLabels(startHour: int, endHour: int): seq<string> {
    seq(if startHour < endHour then endHour - startHour else 0, i => HourLabel(startHour + i))
  }

  /** `generateHours(start, end)`: counts up from the start hour while below the end hour. */
  method GenerateHours(startHour: int, endHour: int) returns (hours: seq<string>)
    ensures |hours| == if startHour < endHour then endHour - startHour else 0
    ensures forall i :: 0 <= i < |hours| ==> ParseHour(hours[i]) == Some(startHour + i)
    ensures hours == HourLabels(startHour, endHour)
  {
    hours := [];
    var currentHour := startHour;
    while currentHour < endHour
      invariant startHour <= currentHour <= if startHour < endHour then endHour else startHour
      invariant hours == HourLabels(startHour, currentHour)
    {
      hours := hours + [HourLabel(currentHour)];
      currentHour := currentHour + 1;
    }
    forall i | 0 <= i < |hours| ensures ParseHour(hours[i]) == Some(startHour + i) {
      HourLabelRoundTrip(startHour + i);
    }
  }

  /** Row `i` reads back as hour `startHour + i`, so consecutive rows are one hour apart and no
      two rows carry the same label. */
  lemma HourRowsRiseByOne(startHour: int, endHour: int, i: int, j: int)
    requires 0 <= i < j < |HourLabels(startHour, endHour)|
    ensures ParseHour(HourLabels(startHour, endHour)[i]) == Some(startHour + i)
    ensures HourLabels(startHour, endHour)[i] != HourLabels(startHour, endHour)[j]
  {
    var rows := HourLabels(startHour, endHour);
    assert rows[i] == HourLabel(startHour + i);
    assert rows[j] == HourLabel(startHour + j);
    HourLabelRoundTrip(startHour + i);
    if rows[i] == rows[j] {
      HourLabelInjective(startHour + i, startHour + j);
    }
  }

  /** The availability editor's sixteen rows are the hour rows of a 07:00 to 23:00 window. */
  lemma EditorRowsAreHourRows()
    ensures EditorHours == HourLabels(7, 23)
  {
  }

  // ---------------------------------------------------------------- colours

  const ColorPalette: seq<string> := [
    "bg-blue-200 border-blue-400", "bg-green-200 border-green-400", "bg-yellow-200 border-yellow-400",
    "bg-purple-200 border-purple-400", "bg-pink-200 border-pink-400", "bg-indigo-200 border-indigo-400",
    "bg-teal-200 border-teal-400", "bg-orange-200 border-orange-400"
  ]

  /** JavaScript's `%`: the remainder takes the sign of the dividend (-1 % 8 is -1). */
  function JsRemainder(a: int, n: int): (r: int)
    requires n > 0
    ensures a >= 0 ==> 0 <= r < n && r == a % n
    ensures a < 0 ==> -n < r <= 0 && (a - r) % n == 0
  {
    if a >= 0 then a % n
    else
      NegativeRemainderStep(a, n);
      -((-a) % n)
  }

  /** For a negative dividend, `a` and the negated remainder of `-a` differ by a multiple of `n`. */
  lemma NegativeRemainderStep(a: int, n: int)
    requires n > 0 && a < 0
    ensures (a + (-a) % n) % n == 0
  {
    var q := (-a) / n;
    assert a + (-a) % n == (-q) * n;
    MultipleRemainder(-q, n);
  }

  /** A multiple of `n` leaves no remainder: the quotient and remainder of `k * n` are unique. */
  lemma MultipleRemainder(k: int, n: int)
    requires n > 0
    ensures (k * n) % n == 0
  {
    var y := k * n;
    var q, m := y / n, y % n;
    assert y == q * n + m && 0 <= m < n;
    assert (k - q) * n == m;
    ProductSign(k - q, n);
  }

  lemma ProductSign(d: int, n: int)
    requires n > 0
    ensures d >= 1 ==> d * n >= n
    ensures d <= -1 ==> d * n <= -n
  {
  }

  /** `getSubjectColor`: the palette entry at the subject's list index modulo the palette size;
      `None` stands for the `undefined` an unknown subject (index -1) reads. */
  function SubjectColor(subjectId: string, allSubjects: seq<Subject>): (r: Option<string>)
    ensures r.None? <==> !HasId(allSubjects, subjectId, SubjectId)
    ensures r.Some? ==> r.value == ColorPalette[IndexOfId(allSubjects, subjectId, SubjectId) % |ColorPalette|]
  {
    var index := IndexOfId(allSubjects, subjectId, SubjectId);
    var k := JsRemainder(index, |ColorPalette|);
    if 0 <= k < |ColorPalette| then Some(ColorPalette[k]) else None
  }

  /** Subjects whose positions in the list are eight apart share a colour. */
  lemma ColorRepeatsEveryEight(allSubjects: seq<Subject>, a: string, b: string)
    requires IndexOfId(allSubjects, a, SubjectId) >= 0
    requires IndexOfId(allSubjects, b, SubjectId) == IndexOfId(allSubjects, a, SubjectId) + 8
    ensures SubjectColor(a, allSubjects) == SubjectColor(b, allSubjects) != None
  {
    var i := IndexOfId(allSubjects, a, SubjectId);
    assert (i + 8) % 8 == i % 8;
  }

  // ---------------------------------------------------------------- cells and grids

  const Unknown: string := "Desconocido"

  datatype CellView =
    | EmptyCell
    | Occupied(entry: ScheduleEntry, subjectName: string, teacherName: string, color: Option<string>)

  datatype GroupView =
    | ShiftNotFound(groupName: string)
    | Grid(groupName: string, shiftName: string, days: seq<Day>, hours: seq<string>, rows: seq<seq<CellView>>)

  /** `schedule.filter(entry => entry.groupId === groupId)`. */
  function GroupSchedule(schedule: seq<ScheduleEntry>, groupId: string): seq<ScheduleEntry> {
    Filter(schedule, (e: ScheduleEntry) => e.groupId == groupId)
  }

  /** `groupSchedule.find(e => e.day === day && e.start === hour)`. */
  function CellEntry(groupSchedule: seq<ScheduleEntry>, day: Day, hour: string): Option<ScheduleEntry> {
    FindFirst(groupSchedule, (e: ScheduleEntry) => e.day == day && e.start == hour)
  }

  /** Whether an entry belongs in a group's cell: its group, its day, and a start text equal to
      the row label (a start of "07:30" never equals "07:00"). */
  predicate BelongsInCell(e: ScheduleEntry, groupId: string, day: Day, hour: string) {
    e.groupId == groupId && e.day == day && e.start == hour
  }

  /** What one cell renders: the entry's subject and teacher names (or "Desconocido") and the
      subject's colour, or nothing. */
  function RenderCell(groupSchedule: seq<ScheduleEntry>, day: Day, hour: string,
                      subjects: seq<Subject>, teachers: seq<Teacher>): CellView {
    match CellEntry(groupSchedule, day, hour)
    case None => EmptyCell
    case Some(e) =>
      Occupied(e, FindEntityName(subjects, e.subjectId, SubjectId, SubjectName, Unknown),
               FindEntityName(teachers, e.teacherId, TeacherId, TeacherName, Unknown),
               SubjectColor(e.subjectId, subjects))
  }

  /** One group's block: an error block when its shift id matches no shift, otherwise the grid. */
  function GroupGrid(group: Group, schedule: seq<ScheduleEntry>, subjects: seq<Subject>,
                     teachers: seq<Teacher>, shifts: seq<Shift>): (v: GroupView)
    ensures v.ShiftNotFound? <==> !HasId(shifts, group.shiftId, ShiftId)
    ensures v.groupName == group.name
    ensures v.Grid? ==>
              && v.shiftName == FindById(shifts, group.shiftId, ShiftId).value.name
              && v.days == FindById(shifts, group.shiftId, ShiftId).value.days
              && v.hours == HourLabels(FindById(shifts, group.shiftId, ShiftId).value.start,
                                       FindById(shifts, group.shiftId, ShiftId).value.end)
              && |v.rows| == |v.hours|
              && forall r :: 0 <= r < |v.rows| ==> |v.rows[r]| == |v.days|
  {
    match FindById(shifts, group.shiftId, ShiftId)
    case None => ShiftNotFound(group.name)
    case Some(shift) =>
      var groupSchedule := GroupSchedule(schedule, group.id);
      var hours := HourLabels(shift.start, shift.end);
      Grid(group.name, shift.name, shift.days, hours,
           seq(|hours|, r requires 0 <= r < |hours| =>
             seq(|shift.days|, c requires 0 <= c < |shift.days| =>
               RenderCell(groupSchedule, shift.days[c], hours[r], subjects, teachers))))
  }

  /** The whole view: one block per group, in the groups' order. */
  function ScheduleView(schedule: seq<ScheduleEntry>, groups: seq<Group>, subjects: seq<Subject>,
                        teachers: seq<Teacher>, shifts: seq<Shift>): (v: seq<GroupView>)
    ensures |v| == |groups|
    ensures forall i :: 0 <= i < |v| ==> v[i] == GroupGrid(groups[i], schedule, subjects, teachers, shifts)
    ensures forall i :: 0 <= i < |v| ==>
              && v[i].groupName == groups[i].name
              && (v[i].ShiftNotFound? <==> !HasId(shifts, groups[i].shiftId, ShiftId))
  {
    seq(|groups|, i requires 0 <= i < |groups| => GroupGrid(groups[i], schedule, subjects, teachers, shifts))
  }

  /** A cell shows the FIRST entry of the whole schedule that belongs in it, and is empty exactly
      when none does; later entries for the same cell stay hidden. */
  lemma CellShowsFirstMatch(schedule: seq<ScheduleEntry>, groupId: string, day: Day, hour: string)
    ensures CellEntry(GroupSchedule(schedule, groupId), day, hour).None? <==>
            forall k :: 0 <= k < |schedule| ==> !BelongsInCell(schedule[k], groupId, day, hour)
    ensures CellEntry(GroupSchedule(schedule, groupId), day, hour).Some? ==>
            exists k :: 0 <= k < |schedule| && schedule[k] == CellEntry(GroupSchedule(schedule, groupId), day, hour).value
                        && BelongsInCell(schedule[k], groupId, day, hour)
                        && forall j :: 0 <= j < k ==> !BelongsInCell(schedule[j], groupId, day, hour)
  {
    FindFirstOfFilter(schedule, (e: ScheduleEntry) => e.groupId == groupId,
                      (e: ScheduleEntry) => e.day == day && e.start == hour,
                      (e: ScheduleEntry) => BelongsInCell(e, groupId, day, hour));
  }

  /** Cell (r, c) of a group's grid shows an entry exactly when some entry of the schedule
      belongs in it (the group's, on column c's day, starting at row r's label), and then it shows
      the first such entry of the schedule. */
  lemma GridCellShowsFirstEntry(group: Group, schedule: seq<ScheduleEntry>, subjects: seq<Subject>,
                                teachers: seq<Teacher>, shifts: seq<Shift>, r: int, c: int)
    requires GroupGrid(group, schedule, subjects, teachers, shifts).Grid?
    requires 0 <= r < |GroupGrid(group, schedule, subjects, teachers, shifts).rows|
    requires 0 <= c < |GroupGrid(group, schedule, subjects, teachers, shifts).days|
    ensures var v := GroupGrid(group, schedule, subjects, teachers, shifts);
            v.rows[r][c].Occupied? <==>
              exists k :: 0 <= k < |schedule| && BelongsInCell(schedule[k], group.id, v.days[c], v.hours[r])
    ensures var v := GroupGrid(group, schedule, subjects, teachers, shifts);
            v.rows[r][c].Occupied? ==>
              exists k :: && 0 <= k < |schedule| && schedule[k] == v.rows[r][c].entry
                          && BelongsInCell(schedule[k], group.id, v.days[c], v.hours[r])
                          && forall j :: 0 <= j < k ==> !BelongsInCell(schedule[j], group.id, v.days[c], v.hours[r])
  {
    var v := GroupGrid(group, schedule, subjects, teachers, shifts);
    var shift := FindById(shifts, group.shiftId, ShiftId).value;
    var hours := HourLabels(shift.start, shift.end);
    assert v.rows[r][c] == RenderCell(GroupSchedule(schedule, group.id), shift.days[c], hours[r], subjects, teachers);
    CellShowsFirstMatch(schedule, group.id, shift.days[c], hours[r]);
  }

  /** An entry shown in a group's grid belongs to that group, falls on one of the shift's days and
      starts at a label of an hour inside the shift window; entries elsewhere are never shown. */
  lemma ShownEntriesLieInShift(group: Group, schedule: seq<ScheduleEntry>, subjects: seq<Subject>,
                               teachers: seq<Teacher>, shifts: seq<Shift>, r: int, c: int)
    requires GroupGrid(group, schedule, subjects, teachers, shifts).Grid?
    requires 0 <= r < |GroupGrid(group, schedule, subjects, teachers, shifts).rows|
    requires 0 <= c < |GroupGrid(group, schedule, subjects, teachers, shifts).days|
    requires GroupGrid(group, schedule, subjects, teachers, shifts).rows[r][c].Occupied?
    ensures var shift := FindById(shifts, group.shiftId, ShiftId).value;
            var e := GroupGrid(group, schedule, subjects, teachers, shifts).rows[r][c].entry;
            && e in schedule && e.groupId == group.id
            && e.day in shift.days && e.day == shift.days[c]
            && e.start == HourLabel(shift.start + r) && shift.start <= shift.start + r < shift.end
            && ParseHour(e.start) == Some(shift.start + r)
  {
    var shift := FindById(shifts, group.shiftId, ShiftId).value;
    var hours := HourLabels(shift.start, shift.end);
    CellShowsFirstMatch(schedule, group.id, shift.days[c], hours[r]);
    HourLabelRoundTrip(shift.start + r);
  }

  /** An occupied cell names the entry's subject and teacher, falling back to "Desconocido" for an
      id that matches nothing. */
  /** A shown entry whose ids are known renders the first matching subject's and teacher's names
      (or "Desconocido" when that name is empty) and the palette colour of the subject's index. */
  lemma KnownIdsRenderNamesAndColor(groupSchedule: seq<ScheduleEntry>, day: Day, hour: string,
                                    subjects: seq<Subject>, teachers: seq<Teacher>)
    requires RenderCell(groupSchedule, day, hour, subjects, teachers).Occupied?
    ensures var v := RenderCell(groupSchedule, day, hour, subjects, teachers);
            var si := IndexOfId(subjects, v.entry.subjectId, SubjectId);
            var ti := IndexOfId(teachers, v.entry.teacherId, TeacherId);
            && (si >= 0 ==> && v.subjectName == (if subjects[si].name == "" then Unknown else subjects[si].name)
                            && v.color == Some(ColorPalette[si % 8]))
            && (ti >= 0 ==> v.teacherName == (if teachers[ti].name == "" then Unknown else teachers[ti].name))
  {
  }

  lemma UnknownIdsRenderAsUnknown(groupSchedule: seq<ScheduleEntry>, day: Day, hour: string,
                                  subjects: seq<Subject>, teachers: seq<Teacher>)
    requires RenderCell(groupSchedule, day, hour, subjects, teachers).Occupied?
    ensures var v := RenderCell(groupSchedule, day, hour, subjects, teachers);
            (!HasId(subjects, v.entry.subjectId, SubjectId) ==> v.subjectName == Unknown && v.color == None)
            && (!HasId(teachers, v.entry.teacherId, TeacherId) ==> v.teacherName == Unknown)
  {
  }
}
