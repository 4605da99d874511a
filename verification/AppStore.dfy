/** The application's data-management handlers. Each handler hands React a `prev => next`
    update of the five entity lists, so each is modelled as a function from the application state
    to the next one. The new id the application makes from the clock (`T${Date.now()}`, ...) is a
    parameter, and a removal the user is asked to confirm is modelled as the confirmed removal. */
module AppStore {
  import opened Domain
  import opened EntityLists
  import opened JsText

  /** The information notices the handlers raise instead of changing the data. */
  datatype Notice =
    | SubjectInUse(subjectName: string)
    | ShiftInUse(shiftName: string)
    | DegreeInUse(degreeName: string)
    | FieldsIncomplete
    | EmptyDegreeName

  datatype AppState = AppState(teachers: seq<Teacher>, subjects: seq<Subject>, groups: seq<Group>,
                               degrees: seq<Degree>, shifts: seq<Shift>, notice: Option<Notice>)

  /** No group, teacher or subject refers to an id that is not in the corresponding list. */
  predicate Consistent(st: AppState) {
    && (forall g :: g in st.groups ==> HasId(st.shifts, g.shiftId, ShiftId))
    && (forall g :: g in st.groups ==> HasId(st.degrees, g.degreeId, DegreeId))
    && (forall g, sid :: g in st.groups && sid in g.subjects ==> HasId(st.subjects, sid, SubjectId))
    && (forall t, sid :: t in st.teachers && sid in t.canTeach ==> HasId(st.subjects, sid, SubjectId))
    && (forall s :: s in st.subjects ==> HasId(st.degrees, s.degreeId, DegreeId))
  }

  /** `list[0]?.id || ''`. */
  function FirstIdOr<T>(list: seq<T>, idOf: T -> string): (r: string)
    ensures list == [] ==> r == ""
    ensures list != [] ==> r == idOf(list[0])
  {
    if list != [] then idOf(list[0]) else ""
  }

  /** `find(e => e.id === id)?.name || 'N/A'`. */
  function NameOrNA<T>(entities: seq<T>, id: string, idOf: T -> string, nameOf: T -> string): (r: string)
    ensures !HasId(entities, id, idOf) ==> r == "N/A"
    ensures HasId(entities, id, idOf) ==>
              r == (var e := entities[IndexOfId(entities, id, idOf)]; if nameOf(e) == "" then "N/A" else nameOf(e))
  {
    FindEntityName(entities, id, idOf, nameOf, "N/A")
  }

  // ---------------------------------------------------------------- teachers

  function NewTeacher(newId: string): Teacher {
    Teacher(newId, "Nuevo Docente", [], [])
  }

  /** `addTeacher`: appends a teacher with the given id, no availability and no subjects. */
  function AddTeacher(st: AppState, newId: string): (r: AppState)
    ensures r.(teachers := st.teachers) == st
    ensures |r.teachers| == |st.teachers| + 1 && r.teachers[..|st.teachers|] == st.teachers
    ensures r.teachers[|st.teachers|] == NewTeacher(newId)
  {
    st.(teachers := st.teachers + [NewTeacher(newId)])
  }

  /** `handleRemoveTeacher`, confirmed: nothing happens for an unknown id, otherwise every teacher
      with that id goes and the others stay. */
  function RemoveTeacher(st: AppState, id: string): (r: AppState)
    ensures r.(teachers := st.teachers) == st
    ensures !HasId(r.teachers, id, TeacherId)
    ensures forall t :: t in r.teachers <==> t in st.teachers && t.id != id
    ensures HasId(st.teachers, id, TeacherId) ==> r.teachers == RemoveById(st.teachers, id, TeacherId)
    ensures !HasId(st.teachers, id, TeacherId) ==> r == st
  {
    if !HasId(st.teachers, id, TeacherId) then st
    else st.(teachers := RemoveById(st.teachers, id, TeacherId))
  }

  /** Removing a teacher just added gives back the state before the addition. */
  lemma AddTeacherThenRemove(st: AppState, newId: string)
    requires !HasId(st.teachers, newId, TeacherId)
    ensures RemoveTeacher(AddTeacher(st, newId), newId) == st
  {
    var added := AddTeacher(st, newId);
    assert HasId(added.teachers, newId, TeacherId) by {
      assert TeacherId(added.teachers[|st.teachers|]) == newId;
    }
    RemoveByIdConcat(st.teachers, [NewTeacher(newId)], newId, TeacherId);
    RemoveAbsentId(st.teachers, newId, TeacherId);
    assert RemoveById([NewTeacher(newId)], newId, TeacherId) == [];
  }

  /** `updateTeacher`: the teacher with the edited one's id is replaced, nothing else moves. */
  function UpdateTeacher(st: AppState, updated: Teacher): (r: AppState)
    ensures r.(teachers := st.teachers) == st
    ensures |r.teachers| == |st.teachers|
    ensures forall k :: 0 <= k < |r.teachers| ==>
              r.teachers[k] == if st.teachers[k].id == updated.id then updated else st.teachers[k]
  {
    st.(teachers := ReplaceById(st.teachers, updated, TeacherId))
  }

  /** After an update of a known teacher, looking its id up finds the edited teacher. */
  lemma UpdateTeacherIsFound(st: AppState, updated: Teacher)
    requires HasId(st.teachers, updated.id, TeacherId)
    ensures FindById(UpdateTeacher(st, updated).teachers, updated.id, TeacherId) == Some(updated)
  {
    FindAfterReplace(st.teachers, updated, TeacherId);
  }

  /** The teacher editor's subject checkbox: adds the subject when absent, removes it when present. */
  function ToggleCanTeach(t: Teacher, subjectId: string): (r: Teacher)
    ensures r.(canTeach := t.canTeach) == t
    ensures forall s :: s in r.canTeach <==> (s in t.canTeach) != (s == subjectId)
    ensures NoDup(t.canTeach) ==> NoDup(r.canTeach)
  {
    t.(canTeach := ToggleMember(t.canTeach, subjectId))
  }

  // ---------------------------------------------------------------- subjects

  /** The subject form's starting values for a new subject. */
  function NewSubjectDraft(degrees: seq<Degree>): Subject {
    Subject("", "", 3, FirstIdOr(degrees, DegreeId), 1)
  }

  /** `saveSubject`: replaces the subject with the same id when editing, otherwise appends the
      subject under the new id. */
  function SaveSubject(st: AppState, editing: bool, subject: Subject, newId: string): (r: AppState)
    ensures r.(subjects := st.subjects) == st
    ensures editing ==>
              && |r.subjects| == |st.subjects|
              && forall k :: 0 <= k < |r.subjects| ==>
                   r.subjects[k] == if st.subjects[k].id == subject.id then subject else st.subjects[k]
    ensures !editing ==> r.subjects == st.subjects + [subject.(id := newId)]
  {
    if editing then st.(subjects := ReplaceById(st.subjects, subject, SubjectId))
    else st.(subjects := st.subjects + [subject.(id := newId)])
  }

  /** The subject form's save button: a missing name or degree raises a notice and saves nothing,
      a complete draft goes to `saveSubject`; so every subject the form writes has both. */
  function SubjectFormSave(st: AppState, editing: bool, draft: Subject, newId: string): (r: AppState)
    ensures draft.name == "" || draft.degreeId == "" ==>
              r == st.(notice := Some(FieldsIncomplete))
    ensures draft.name != "" && draft.degreeId != "" ==> r == SaveSubject(st, editing, draft, newId)
    ensures r.(subjects := st.subjects, notice := st.notice) == st
    ensures forall s :: s in r.subjects && s !in st.subjects ==> s.name != "" && s.degreeId != ""
  {
    if draft.name == "" || draft.degreeId == "" then st.(notice := Some(FieldsIncomplete))
    else SaveSubject(st, editing, draft, newId)
  }

  /** Saving an untouched new-subject form never adds a subject. */
  lemma UntouchedSubjectFormIsRejected(st: AppState, newId: string)
    ensures SubjectFormSave(st, false, NewSubjectDraft(st.degrees), newId).subjects == st.subjects
  {
  }

  predicate SubjectReferenced(st: AppState, id: string) {
    || (exists g :: g in st.groups && id in g.subjects)
    || (exists t :: t in st.teachers && id in t.canTeach)
  }

  /** `handleRemoveSubject`, confirmed: nothing happens for an unknown id; a subject a group or a
      teacher still refers to stays and a notice names it; otherwise it is removed. */
  function RemoveSubject(st: AppState, id: string): (r: AppState)
    ensures r.(subjects := st.subjects, notice := st.notice) == st
    ensures !HasId(st.subjects, id, SubjectId) ==> r == st
    ensures HasId(st.subjects, id, SubjectId) && SubjectReferenced(st, id) ==>
              r.subjects == st.subjects
              && r.notice == Some(SubjectInUse(st.subjects[IndexOfId(st.subjects, id, SubjectId)].name))
    ensures HasId(st.subjects, id, SubjectId) && !SubjectReferenced(st, id) ==>
              r.notice == st.notice && !HasId(r.subjects, id, SubjectId)
              && (forall s :: s in r.subjects <==> s in st.subjects && s.id != id)
              && r.subjects == RemoveById(st.subjects, id, SubjectId)
  {
    match FindById(st.subjects, id, SubjectId)
    case None => st
    case Some(subject) =>
      if SubjectReferenced(st, id) then st.(notice := Some(SubjectInUse(subject.name)))
      else st.(subjects := RemoveById(st.subjects, id, SubjectId))
  }

  // ---------------------------------------------------------------- groups

  function NewGroup(st: AppState, newId: string): Group {
    Group(newId, "Nuevo Grupo", FirstIdOr(st.shifts, ShiftId), FirstIdOr(st.degrees, DegreeId), [])
  }

  /** `addGroup`: appends a group with no subjects, on the first shift and first degree (or on the
      empty id when there is none). */
  function AddGroup(st: AppState, newId: string): (r: AppState)
    ensures r.(groups := st.groups) == st
    ensures |r.groups| == |st.groups| + 1 && r.groups[..|st.groups|] == st.groups
    ensures var g := r.groups[|st.groups|];
            && g.id == newId && g.name == "Nuevo Grupo" && g.subjects == []
            && g.shiftId == (if st.shifts == [] then "" else st.shifts[0].id)
            && g.degreeId == (if st.degrees == [] then "" else st.degrees[0].id)
  {
    st.(groups := st.groups + [NewGroup(st, newId)])
  }

  /** `handleRemoveGroup`, confirmed. */
  function RemoveGroup(st: AppState, id: string): (r: AppState)
    ensures r.(groups := st.groups) == st
    ensures !HasId(r.groups, id, GroupId)
    ensures forall g :: g in r.groups <==> g in st.groups && g.id != id
    ensures HasId(st.groups, id, GroupId) ==> r.groups == RemoveById(st.groups, id, GroupId)
    ensures !HasId(st.groups, id, GroupId) ==> r == st
  {
    if !HasId(st.groups, id, GroupId) then st
    else st.(groups := RemoveById(st.groups, id, GroupId))
  }

  /** `updateGroup`. */
  function UpdateGroup(st: AppState, updated: Group): (r: AppState)
    ensures r.(groups := st.groups) == st
    ensures |r.groups| == |st.groups|
    ensures forall k :: 0 <= k < |r.groups| ==>
              r.groups[k] == if st.groups[k].id == updated.id then updated else st.groups[k]
  {
    st.(groups := ReplaceById(st.groups, updated, GroupId))
  }

  /** The group editor's subject checkbox. */
  function ToggleGroupSubject(g: Group, subjectId: string): (r: Group)
    ensures r.(subjects := g.subjects) == g
    ensures forall s :: s in r.subjects <==> (s in g.subjects) != (s == subjectId)
    ensures NoDup(g.subjects) ==> NoDup(r.subjects)
  {
    g.(subjects := ToggleMember(g.subjects, subjectId))
  }

  /** Choosing another degree in the group editor empties the group's subject list. */
  function ChangeGroupDegree(g: Group, degreeId: string): (r: Group)
    ensures r.degreeId == degreeId && r.subjects == []
    ensures r.(degreeId := g.degreeId, subjects := g.subjects) == g
  {
    g.(degreeId := degreeId, subjects := [])
  }

  // ---------------------------------------------------------------- shifts

  /** `saveShift`: replace by id when editing, otherwise append under the new id. */
  function SaveShift(st: AppState, editing: bool, shift: Shift, newId: string): (r: AppState)
    ensures r.(shifts := st.shifts) == st
    ensures editing ==>
              && |r.shifts| == |st.shifts|
              && forall k :: 0 <= k < |r.shifts| ==>
                   r.shifts[k] == if st.shifts[k].id == shift.id then shift else st.shifts[k]
    ensures !editing ==> r.shifts == st.shifts + [shift.(id := newId)]
  {
    if editing then st.(shifts := ReplaceById(st.shifts, shift, ShiftId))
    else st.(shifts := st.shifts + [shift.(id := newId)])
  }

  /** The shift editor's day checkbox. */
  function ToggleShiftDay(s: Shift, day: Day): (r: Shift)
    ensures r.(days := s.days) == s
    ensures forall d :: d in r.days <==> (d in s.days) != (d == day)
    ensures NoDup(s.days) ==> NoDup(r.days)
  {
    s.(days := ToggleMember(s.days, day))
  }

  predicate ShiftReferenced(st: AppState, id: string) {
    exists g :: g in st.groups && g.shiftId == id
  }

  /** `handleRemoveShift`, confirmed: a shift some group uses stays and a notice names it. */
  function RemoveShift(st: AppState, id: string): (r: AppState)
    ensures r.(shifts := st.shifts, notice := st.notice) == st
    ensures !HasId(st.shifts, id, ShiftId) ==> r == st
    ensures HasId(st.shifts, id, ShiftId) && ShiftReferenced(st, id) ==>
              r.shifts == st.shifts
              && r.notice == Some(ShiftInUse(st.shifts[IndexOfId(st.shifts, id, ShiftId)].name))
    ensures HasId(st.shifts, id, ShiftId) && !ShiftReferenced(st, id) ==>
              r.notice == st.notice && !HasId(r.shifts, id, ShiftId)
              && (forall s :: s in r.shifts <==> s in st.shifts && s.id != id)
              && r.shifts == RemoveById(st.shifts, id, ShiftId)
  {
    match FindById(st.shifts, id, ShiftId)
    case None => st
    case Some(shift) =>
      if ShiftReferenced(st, id) then st.(notice := Some(ShiftInUse(shift.name)))
      else st.(shifts := RemoveById(st.shifts, id, ShiftId))
  }

  // ---------------------------------------------------------------- degrees

  /** `prev.map(d => d.id === id ? { ...d, name } : d)`. */
  function RenameById(degrees: seq<Degree>, id: string, name: string): (r: seq<Degree>)
    ensures |r| == |degrees|
    ensures forall k :: 0 <= k < |r| ==> r[k].id == degrees[k].id
    ensures forall k :: 0 <= k < |r| ==> r[k] == if degrees[k].id == id then Degree(id, name) else degrees[k]
    ensures forall d :: d in r && d !in degrees ==> d.name == name
  {
    seq(|degrees|, k requires 0 <= k < |degrees| =>
      if degrees[k].id == id then degrees[k].(name := name) else degrees[k])
  }

  /** `saveDegree`: a name that trims to nothing changes nothing; with a (non-empty) id the degree
      of that id is renamed to the trimmed name; without one a degree with the trimmed name is
      appended under the new id. */
  function SaveDegree(st: AppState, id: Option<string>, name: string, newId: string): (r: AppState)
    ensures r.(degrees := st.degrees) == st
    ensures AllWhitespace(name) ==> r == st
    ensures !AllWhitespace(name) && id.Some? && id.value != "" ==>
              |r.degrees| == |st.degrees|
              && forall k :: 0 <= k < |r.degrees| ==>
                   r.degrees[k] == if st.degrees[k].id == id.value then Degree(id.value, Trim(name)) else st.degrees[k]
    ensures !AllWhitespace(name) && (id.None? || id.value == "") ==>
              r.degrees == st.degrees + [Degree(newId, Trim(name))]
  {
    var trimmed := Trim(name);
    if trimmed == "" then st
    else if id.Some? && id.value != "" then st.(degrees := RenameById(st.degrees, id.value, trimmed))
    else st.(degrees := st.degrees + [Degree(newId, trimmed)])
  }

  /** Every degree `saveDegree` writes has a non-empty name with no white space at either end. */
  lemma SaveDegreeWritesTrimmedNames(st: AppState, id: Option<string>, name: string, newId: string, d: Degree)
    requires d in SaveDegree(st, id, name, newId).degrees && d !in st.degrees
    ensures d.name == Trim(name) && d.name != "" && Trim(d.name) == d.name
  {
    WrittenDegreeName(st, id, name, newId, d);
    TrimIdempotent(name);
  }

  /** A degree `saveDegree` writes carries the trimmed name, which is not empty. */
  lemma WrittenDegreeName(st: AppState, id: Option<string>, name: string, newId: string, d: Degree)
    requires d in SaveDegree(st, id, name, newId).degrees && d !in st.degrees
    ensures !AllWhitespace(name) && d.name == Trim(name)
  {
    if id.Some? && id.value != "" {
      assert SaveDegree(st, id, name, newId).degrees == RenameById(st.degrees, id.value, Trim(name));
    }
  }

  /** The degree form's save button: a blank name raises a notice and saves nothing; otherwise the
      trimmed name goes to `saveDegree` with the edited degree's id, if any. */
  function DegreeFormSave(st: AppState, editing: Option<Degree>, name: string, newId: string): (r: AppState)
    ensures AllWhitespace(name) ==> r == st.(notice := Some(EmptyDegreeName))
    ensures !AllWhitespace(name) ==> r.notice == st.notice
    ensures r.(degrees := st.degrees, notice := st.notice) == st
  {
    if Trim(name) == "" then st.(notice := Some(EmptyDegreeName))
    else SaveDegree(st, if editing.Some? then Some(editing.value.id) else None, Trim(name), newId)
  }

  /** The form trims the name and `saveDegree` trims it again; the second trim changes nothing, so
      the form saves exactly what `saveDegree` would save from the raw name. */
  lemma DegreeFormTrimsOnce(st: AppState, editing: Option<Degree>, name: string, newId: string)
    requires !AllWhitespace(name)
    ensures DegreeFormSave(st, editing, name, newId)
            == SaveDegree(st, if editing.Some? then Some(editing.value.id) else None, name, newId)
  {
    TrimIdempotent(name);
  }

  predicate DegreeReferenced(st: AppState, id: string) {
    || (exists s :: s in st.subjects && s.degreeId == id)
    || (exists g :: g in st.groups && g.degreeId == id)
  }

  /** `handleRemoveDegree`, confirmed: a degree some subject or group uses stays and a notice
      names it. */
  function RemoveDegree(st: AppState, id: string): (r: AppState)
    ensures r.(degrees := st.degrees, notice := st.notice) == st
    ensures !HasId(st.degrees, id, DegreeId) ==> r == st
    ensures HasId(st.degrees, id, DegreeId) && DegreeReferenced(st, id) ==>
              r.degrees == st.degrees
              && r.notice == Some(DegreeInUse(st.degrees[IndexOfId(st.degrees, id, DegreeId)].name))
    ensures HasId(st.degrees, id, DegreeId) && !DegreeReferenced(st, id) ==>
              r.notice == st.notice && !HasId(r.degrees, id, DegreeId)
              && (forall d :: d in r.degrees <==> d in st.degrees && d.id != id)
              && r.degrees == RemoveById(st.degrees, id, DegreeId)
  {
    match FindById(st.degrees, id, DegreeId)
    case None => st
    case Some(degree) =>
      if DegreeReferenced(st, id) then st.(notice := Some(DegreeInUse(degree.name)))
      else st.(degrees := RemoveById(st.degrees, id, DegreeId))
  }

  // ---------------------------------------------------------------- referential integrity

  /** The guards on subject, shift and degree removal never leave a dangling reference; removing
      a teacher or a group cannot either, since nothing in the lists refers to them. */
  lemma RemoveSubjectKeepsConsistent(st: AppState, id: string)
    requires Consistent(st)
    ensures Consistent(RemoveSubject(st, id))
  {
    var r := RemoveSubject(st, id);
    if HasId(st.subjects, id, SubjectId) && !SubjectReferenced(st, id) {
      forall g, sid | g in r.groups && sid in g.subjects ensures HasId(r.subjects, sid, SubjectId) {
        HasIdAfterRemove(st.subjects, id, sid, SubjectId);
      }
      forall t, sid | t in r.teachers && sid in t.canTeach ensures HasId(r.subjects, sid, SubjectId) {
        HasIdAfterRemove(st.subjects, id, sid, SubjectId);
      }
    }
  }

  lemma RemoveShiftKeepsConsistent(st: AppState, id: string)
    requires Consistent(st)
    ensures Consistent(RemoveShift(st, id))
  {
    var r := RemoveShift(st, id);
    if HasId(st.shifts, id, ShiftId) && !ShiftReferenced(st, id) {
      forall g | g in r.groups ensures HasId(r.shifts, g.shiftId, ShiftId) {
        HasIdAfterRemove(st.shifts, id, g.shiftId, ShiftId);
      }
    }
  }

  lemma RemoveDegreeKeepsConsistent(st: AppState, id: string)
    requires Consistent(st)
    ensures Consistent(RemoveDegree(st, id))
  {
    var r := RemoveDegree(st, id);
    if HasId(st.degrees, id, DegreeId) && !DegreeReferenced(st, id) {
      forall g | g in r.groups ensures HasId(r.degrees, g.degreeId, DegreeId) {
        HasIdAfterRemove(st.degrees, id, g.degreeId, DegreeId);
      }
      forall s | s in r.subjects ensures HasId(r.degrees, s.degreeId, DegreeId) {
        HasIdAfterRemove(st.degrees, id, s.degreeId, DegreeId);
      }
    }
  }

  lemma RemoveTeacherOrGroupKeepsConsistent(st: AppState, id: string)
    requires Consistent(st)
    ensures Consistent(RemoveTeacher(st, id)) && Consistent(RemoveGroup(st, id))
  {
  }

  /** A group added while some shift and some degree exist refers to them; with no shift or no
      degree it refers to the empty id, which the schedule view reports as a missing shift. */
  lemma AddGroupKeepsConsistent(st: AppState, newId: string)
    requires Consistent(st) && st.shifts != [] && st.degrees != []
    ensures Consistent(AddGroup(st, newId))
  {
    var r := AddGroup(st, newId);
    var g := r.groups[|st.groups|];
    assert ShiftId(st.shifts[0]) == g.shiftId;
    assert DegreeId(st.degrees[0]) == g.degreeId;
    forall h | h in r.groups ensures h in st.groups || h == g {
      assert r.groups == st.groups + [g];
    }
  }
}
