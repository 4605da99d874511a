/** The teacher availability editor: a weekly grid of (day, hour) cells painted from a list of
    time slots, and the click handler that flips one cell and writes the grid back as slots,
    one slot per run of consecutive hours. */
module Availability {
  import opened Domain
  import opened Sorting

  type Cell = (Day, int)

  /** The cells one slot covers: its day at every hour from start up to, not including, end. */
  function SlotCells(s: TimeSlot): set<Cell> {
    set h | s.start <= h < s.end :: (s.day, h)
  }

  /** The cells a list of slots covers (the meaning of an availability list). */
  function Cells(slots: seq<TimeSlot>): set<Cell> {
    if slots == [] then {} else Cells(slots[..|slots| - 1]) + SlotCells(slots[|slots| - 1])
  }

  /** `set.has(cell)` flipped: the cell added when absent and removed when present. */
  function Toggle(cells: set<Cell>, c: Cell): set<Cell> {
    if c in cells then cells - {c} else cells + {c}
  }

  /** The cells of one day's hour list. */
  function DayCells(day: Day, hours: seq<int>): set<Cell> {
    set h | h in hours :: (day, h)
  }

  /** Slots of one day that are in ascending order, disjoint and not even adjacent: every slot
      is a maximal run of consecutive hours. */
  predicate MaximalRuns(slots: seq<TimeSlot>, day: Day) {
    forall j, k :: 0 <= j < k < |slots| && slots[j].day == day && slots[k].day == day ==>
      slots[j].end < slots[k].start
  }

  predicate WellFormed(slots: seq<TimeSlot>) {
    forall j :: 0 <= j < |slots| ==> slots[j].start < slots[j].end
  }

  // ---------------------------------------------------------------- properties of Cells

  /** A cell is covered exactly when some slot on its day has start <= hour < end. */
  lemma {:induction false} CellsMembership(slots: seq<TimeSlot>, d: Day, h: int)
    ensures (d, h) in Cells(slots) <==>
            exists j :: 0 <= j < |slots| && slots[j].day == d && slots[j].start <= h < slots[j].end
  {
    if slots != [] {
      var init := slots[..|slots| - 1];
      CellsMembership(init, d, h);
      if (d, h) in Cells(slots) && (d, h) !in Cells(init) {
        assert (d, h) in SlotCells(slots[|slots| - 1]);
      }
      if exists j :: 0 <= j < |slots| && slots[j].day == d && slots[j].start <= h < slots[j].end {
        var j :| 0 <= j < |slots| && slots[j].day == d && slots[j].start <= h < slots[j].end;
        if j < |slots| - 1 {
          assert init[j] == slots[j];
        } else {
          assert (d, h) in SlotCells(slots[j]);
        }
      }
    }
  }

  /** A slot whose end hour is not after its start hour covers nothing. */
  lemma EmptySlotCoversNothing(s: TimeSlot)
    requires s.end <= s.start
    ensures SlotCells(s) == {}
  {
  }

  lemma SlotCellsExtend(d: Day, a: int, b: int)
    requires a <= b
    ensures SlotCells(TimeSlot(d, a, b + 1)) == SlotCells(TimeSlot(d, a, b)) + {(d, b)}
  {
    assert (d, b) in SlotCells(TimeSlot(d, a, b + 1));
  }

  lemma DayCellsAppend(d: Day, hours: seq<int>, x: int)
    ensures DayCells(d, hours + [x]) == DayCells(d, hours) + {(d, x)}
  {
    forall c | c in DayCells(d, hours + [x]) ensures c in DayCells(d, hours) + {(d, x)} {
      var h :| h in hours + [x] && c == (d, h);
      if h != x { assert h in hours; }
    }
    forall c | c in DayCells(d, hours) ensures c in DayCells(d, hours + [x]) {
      var h :| h in hours && c == (d, h);
      assert h in hours + [x];
    }
    assert x in hours + [x];
  }

  lemma SingleSlotCells(d: Day, h: int)
    ensures SlotCells(TimeSlot(d, h, h + 1)) == {(d, h)}
  {
    assert (d, h) in SlotCells(TimeSlot(d, h, h + 1));
  }

  lemma {:induction false} CellsAppend(a: seq<TimeSlot>, b: seq<TimeSlot>)
    ensures Cells(a + b) == Cells(a) + Cells(b)
  {
    if b != [] {
      var b' := b[..|b| - 1];
      assert (a + b)[..|a + b| - 1] == a + b';
      CellsAppend(a, b');
    } else {
      assert a + b == a;
    }
  }

  /** Clicking the same cell twice restores the original cells. */
  lemma ToggleTwice(cells: set<Cell>, c: Cell)
    ensures Toggle(Toggle(cells, c), c) == cells
  {
  }

  /** A click changes exactly the clicked cell. */
  lemma ToggleChangesOnlyClicked(cells: set<Cell>, c: Cell, other: Cell)
    requires other != c
    ensures other in Toggle(cells, c) <==> other in cells
    ensures c in Toggle(cells, c) <==> c !in cells
  {
  }

  // ---------------------------------------------------------------- the painted grid

  /** The `availabilitySet` memo: every covered cell, slot by slot, hour by hour. */
  method AvailabilitySet(availability: seq<TimeSlot>) returns (cells: set<Cell>)
    ensures cells == Cells(availability)
  {
    cells := {};
    for k := 0 to |availability|
      invariant cells == Cells(availability[..k])
    {
      var slot := availability[k];
      var i := slot.start;
      while i < slot.end
        invariant slot.start <= i <= if slot.start < slot.end then slot.end else slot.start
        invariant cells == Cells(availability[..k]) + SlotCells(TimeSlot(slot.day, slot.start, i))
      {
        SlotCellsExtend(slot.day, slot.start, i);
        cells := cells + {(slot.day, i)};
        i := i + 1;
      }
      assert availability[..k + 1][..k] == availability[..k];
      assert SlotCells(TimeSlot(slot.day, slot.start, i)) == SlotCells(slot);
    }
    assert availability[..|availability|] == availability;
  }

  // ---------------------------------------------------------------- the click handler

  /** Cells held by a day-to-hours map. */
  predicate HoldsCell(hoursOf: map<Day, seq<int>>, d: Day, h: int) {
    d in hoursOf && h in hoursOf[d]
  }

  /** The days that have a slot, in the order of their first slot. */
  function DayOrder(slots: seq<TimeSlot>): (r: seq<Day>)
    ensures NoDup(r)
  {
    if slots == [] then []
    else
      var order := DayOrder(slots[..|slots| - 1]);
      var d := slots[|slots| - 1].day;
      if d in order then order else order + [d]
  }

  lemma {:induction false} DayOrderMembership(slots: seq<TimeSlot>, d: Day)
    ensures d in DayOrder(slots) <==> exists j :: 0 <= j < |slots| && slots[j].day == d
  {
    if slots != [] {
      var init := slots[..|slots| - 1];
      DayOrderMembership(init, d);
      if d in DayOrder(init) {
        var j :| 0 <= j < |init| && init[j].day == d;
        assert slots[j] == init[j];
      }
      if exists j :: 0 <= j < |slots| && slots[j].day == d {
        var j :| 0 <= j < |slots| && slots[j].day == d;
        if j < |init| {
          assert init[j] == slots[j];
        }
      }
    }
  }

  /** What the first step has built after reading the slots `prefix`: a key per day that has a
      slot, the keys in insertion order without repeats, no hour twice in a day's list, and
      exactly the cells the slots cover. */
  ghost predicate DayHoursOf(days: seq<Day>, hoursOf: map<Day, seq<int>>, prefix: seq<TimeSlot>) {
    && days == DayOrder(prefix) && (forall d :: d in hoursOf <==> d in days)
    && (forall d :: d in hoursOf ==> NoDup(hoursOf[d]))
    && (forall d, h :: HoldsCell(hoursOf, d, h) <==> (d, h) in Cells(prefix))
  }

  /** First step of the click handler: the per-day hour lists (`Map<Day, number[]>`), with the
      days in the order they were first inserted. A day gets an entry even when its only slots
      are empty. */
  method BuildDayHours(availability: seq<TimeSlot>) returns (days: seq<Day>, hoursOf: map<Day, seq<int>>)
    ensures days == DayOrder(availability) && forall d :: d in hoursOf <==> d in days
    ensures forall d :: d in hoursOf <==> exists j :: 0 <= j < |availability| && availability[j].day == d
    ensures forall d :: d in hoursOf ==> NoDup(hoursOf[d])
    ensures forall d, h :: HoldsCell(hoursOf, d, h) <==> (d, h) in Cells(availability)
  {
    days, hoursOf := [], map[];
    for k := 0 to |availability|
      invariant DayHoursOf(days, hoursOf, availability[..k])
    {
      var slot := availability[k];
      var currentHours := if slot.day in hoursOf then hoursOf[slot.day] else [];
      currentHours := AddSlotHours(currentHours, slot);
      assert availability[..k + 1] == availability[..k] + [slot];
      DayHoursStep(days, hoursOf, availability[..k], slot, currentHours);
      if slot.day !in hoursOf {
        days := days + [slot.day];
      }
      hoursOf := hoursOf[slot.day := currentHours];
    }
    assert availability[..|availability|] == availability;
    forall d ensures d in hoursOf <==> exists j :: 0 <= j < |availability| && availability[j].day == d {
      DayOrderMembership(availability, d);
    }
  }

  /** Reading one more slot into the map, with that slot's day list merged, keeps `DayHoursOf`. */
  lemma DayHoursStep(days: seq<Day>, hoursOf: map<Day, seq<int>>, prefix: seq<TimeSlot>, slot: TimeSlot,
                     merged: seq<int>)
    requires DayHoursOf(days, hoursOf, prefix)
    requires NoDup(merged)
    requires forall h :: h in merged <==> HoldsCell(hoursOf, slot.day, h) || slot.start <= h < slot.end
    ensures DayHoursOf(if slot.day in hoursOf then days else days + [slot.day],
                       hoursOf[slot.day := merged], prefix + [slot])
  {
    var days' := if slot.day in hoursOf then days else days + [slot.day];
    var hoursOf' := hoursOf[slot.day := merged];
    var prefix' := prefix + [slot];
    AddSlotToMap(hoursOf, prefix, slot, merged);
    assert prefix'[..|prefix|] == prefix;
    assert DayOrder(prefix') == days';
    assert forall d :: d in hoursOf' <==> d in days';
    assert forall d :: d in hoursOf' ==> NoDup(hoursOf'[d]);
  }

  /** The inner loop of the first step: every hour of the slot not yet in the list is pushed. */
  method AddSlotHours(hours: seq<int>, slot: TimeSlot) returns (merged: seq<int>)
    requires NoDup(hours)
    ensures NoDup(merged)
    ensures forall h :: h in merged <==> h in hours || slot.start <= h < slot.end
    ensures |hours| <= |merged| && merged[..|hours|] == hours
  {
    merged := hours;
    var i := slot.start;
    while i < slot.end
      invariant slot.start <= i <= if slot.start < slot.end then slot.end else slot.start
      invariant |hours| <= |merged| && merged[..|hours|] == hours
      invariant NoDup(merged)
      invariant forall h :: h in merged <==> h in hours || slot.start <= h < i
    {
      if i !in merged {
        merged := merged + [i];
      }
      i := i + 1;
    }
  }

  /** Storing a slot's merged hour list under its day keeps the map equal to the covered cells. */
  lemma AddSlotToMap(hoursOf: map<Day, seq<int>>, prefix: seq<TimeSlot>, slot: TimeSlot, merged: seq<int>)
    requires forall d, h :: HoldsCell(hoursOf, d, h) <==> (d, h) in Cells(prefix)
    requires forall h :: h in merged <==> HoldsCell(hoursOf, slot.day, h) || slot.start <= h < slot.end
    ensures forall d, h :: HoldsCell(hoursOf[slot.day := merged], d, h) <==> (d, h) in Cells(prefix + [slot])
  {
    assert (prefix + [slot])[..|prefix|] == prefix;
    assert Cells(prefix + [slot]) == Cells(prefix) + SlotCells(slot);
    forall d, h ensures HoldsCell(hoursOf[slot.day := merged], d, h) <==> (d, h) in Cells(prefix + [slot]) {
      assert (d, h) in SlotCells(slot) <==> d == slot.day && slot.start <= h < slot.end;
    }
  }

  /** `indexOf` followed by `splice(index, 1)`: the list without its element at `index`. */
  function RemoveAt(list: seq<int>, index: nat): (r: seq<int>)
    requires index < |list|
    ensures |r| == |list| - 1
    ensures multiset(r) == multiset(list) - multiset{list[index]}
  {
    assert list == list[..index] + [list[index]] + list[index + 1..];
    list[..index] + list[index + 1..]
  }

  /** `list.indexOf(x)` for an element that is present. */
  function IndexOf(list: seq<int>, x: int): (i: nat)
    requires x in list
    ensures i < |list| && list[i] == x && x !in list[..i]
  {
    if list[0] == x then 0
    else
      var i := IndexOf(list[1..], x);
      assert list[..i + 1] == [list[0]] + list[1..][..i];
      i + 1
  }

  /** Second step: the clicked day's hours with the clicked hour removed if present (it occurs at
      most once) or appended if absent, then sorted ascending. */
  function ToggledHours(dayHours: seq<int>, clickedHour: int): (r: seq<int>)
    requires NoDup(dayHours)
    ensures StrictlyIncreasing(r) && NoDup(r)
    ensures forall h :: h in r <==> (h in dayHours) != (h == clickedHour)
  {
    var toggled := if clickedHour in dayHours then RemoveAt(dayHours, IndexOf(dayHours, clickedHour))
                   else dayHours + [clickedHour];
    NoDupIffSingleOccurrences(dayHours);
    NoDupIffSingleOccurrences(toggled);
    assert forall h :: h in toggled <==> h in multiset(toggled);
    var r := SortAscending(toggled);
    SortedDistinctIsStrict(toggled, r);
    assert forall h :: h in r <==> h in multiset(r);
    r
  }

  /** What the run compression has built after reading `hours[..i]`: closed slots of the day
      and the open run `start..end`, together covering exactly those hours; for a strictly
      increasing list the closed slots are maximal runs that all end before the open one. */
  ghost predicate RunsSoFar(day: Day, hours: seq<int>, i: int, slots: seq<TimeSlot>, start: int, end: int) {
    && 1 <= i <= |hours| && start <= end && end == hours[i - 1]
    && (forall j :: 0 <= j < |slots| ==> slots[j].day == day)
    && WellFormed(slots)
    && Cells(slots) + SlotCells(TimeSlot(day, start, end + 1)) == DayCells(day, hours[..i])
    && (StrictlyIncreasing(hours) ==>
          MaximalRuns(slots, day) && forall j :: 0 <= j < |slots| ==> slots[j].end < start)
  }

  /** Third step, for one day: the runs of consecutive hours as slots. A run grows only when the
      next hour is exactly one past its end, so an unsorted list may give more, shorter slots,
      but never loses or invents an hour. A strictly increasing list gives maximal runs. */
  method CompressRuns(day: Day, hours: seq<int>) returns (slots: seq<TimeSlot>)
    requires |hours| > 0
    ensures forall j :: 0 <= j < |slots| ==> slots[j].day == day
    ensures WellFormed(slots) && |slots| >= 1
    ensures Cells(slots) == DayCells(day, hours)
    ensures StrictlyIncreasing(hours) ==> MaximalRuns(slots, day)
  {
    slots := [];
    var start, end := hours[0], hours[0];
    FirstRun(day, hours);
    for i := 1 to |hours|
      invariant RunsSoFar(day, hours, i, slots, start, end)
    {
      if hours[i] == end + 1 {
        ExtendRun(day, hours, i, slots, start, end);
        end := hours[i];
      } else {
        StartRun(day, hours, i, slots, start, end);
        slots := slots + [TimeSlot(day, start, end + 1)];
        start, end := hours[i], hours[i];
      }
    }
    CloseLastRun(day, hours, slots, start, end);
    slots := slots + [TimeSlot(day, start, end + 1)];
  }

  lemma FirstRun(day: Day, hours: seq<int>)
    requires |hours| > 0
    ensures RunsSoFar(day, hours, 1, [], hours[0], hours[0])
  {
    SingleSlotCells(day, hours[0]);
    assert hours[..1] == [] + [hours[0]];
    DayCellsAppend(day, [], hours[0]);
  }

  /** The next hour is one past the open run: the run grows by one hour. */
  lemma ExtendRun(day: Day, hours: seq<int>, i: int, slots: seq<TimeSlot>, start: int, end: int)
    requires RunsSoFar(day, hours, i, slots, start, end) && i < |hours| && hours[i] == end + 1
    ensures RunsSoFar(day, hours, i + 1, slots, start, hours[i])
  {
    assert hours[..i + 1] == hours[..i] + [hours[i]];
    DayCellsAppend(day, hours[..i], hours[i]);
    SlotCellsExtend(day, start, hours[i]);
  }

  /** Any other next hour closes the open run as a slot and opens a run of that hour alone. */
  lemma StartRun(day: Day, hours: seq<int>, i: int, slots: seq<TimeSlot>, start: int, end: int)
    requires RunsSoFar(day, hours, i, slots, start, end) && i < |hours| && hours[i] != end + 1
    ensures RunsSoFar(day, hours, i + 1, slots + [TimeSlot(day, start, end + 1)], hours[i], hours[i])
  {
    var run := TimeSlot(day, start, end + 1);
    var slots' := slots + [run];
    assert hours[..i + 1] == hours[..i] + [hours[i]];
    DayCellsAppend(day, hours[..i], hours[i]);
    SingleSlotCells(day, hours[i]);
    ClosedRunCells(slots, run);
    assert forall j :: 0 <= j < |slots| ==> slots'[j] == slots[j];
    if StrictlyIncreasing(hours) {
      assert hours[i - 1] < hours[i];
    }
  }

  /** After the last hour the open run is closed as the final slot. */
  lemma CloseLastRun(day: Day, hours: seq<int>, slots: seq<TimeSlot>, start: int, end: int)
    requires RunsSoFar(day, hours, |hours|, slots, start, end)
    ensures var slots' := slots + [TimeSlot(day, start, end + 1)];
            && (forall j :: 0 <= j < |slots'| ==> slots'[j].day == day)
            && WellFormed(slots')
            && Cells(slots') == DayCells(day, hours)
            && (StrictlyIncreasing(hours) ==> MaximalRuns(slots', day))
  {
    var run := TimeSlot(day, start, end + 1);
    ClosedRunCells(slots, run);
    assert hours[..|hours|] == hours;
    assert forall j :: 0 <= j < |slots| ==> (slots + [run])[j] == slots[j];
  }

  /** Closing a run adds exactly its cells. */
  lemma ClosedRunCells(slots: seq<TimeSlot>, run: TimeSlot)
    ensures Cells(slots + [run]) == Cells(slots) + SlotCells(run)
  {
    CellsAppend(slots, [run]);
    assert [run][..0] == [];
  }

  /** Second step as a whole: the clicked day's list replaced by its toggled, sorted list (the
      day becomes the last key when it had none). */
  method ToggleClickedDay(days: seq<Day>, hoursOf: map<Day, seq<int>>, day: Day, hour: int)
    returns (days': seq<Day>, hoursOf': map<Day, seq<int>>)
    requires NoDup(days) && forall d :: d in hoursOf <==> d in days
    requires forall d :: d in hoursOf ==> NoDup(hoursOf[d])
    ensures NoDup(days') && forall d :: d in hoursOf' <==> d in days'
    ensures day in hoursOf' && StrictlyIncreasing(hoursOf'[day])
    ensures forall d, h :: HoldsCell(hoursOf', d, h) <==> (HoldsCell(hoursOf, d, h) != ((d, h) == (day, hour)))
    ensures days' == if day in hoursOf then days else days + [day]
  {
    var dayHours := if day in hoursOf then hoursOf[day] else [];
    dayHours := ToggledHours(dayHours, hour);
    days' := if day in hoursOf then days else days + [day];
    hoursOf' := hoursOf[day := dayHours];
  }

  /** Third step as a whole: every key in insertion order, an empty list skipped, the others
      compressed into runs and appended. */
  method MapToSlots(days: seq<Day>, hoursOf: map<Day, seq<int>>, day: Day) returns (slots: seq<TimeSlot>)
    requires NoDup(days) && forall d :: d in hoursOf <==> d in days
    requires day in hoursOf ==> StrictlyIncreasing(hoursOf[day])
    ensures WellFormed(slots)
    ensures forall d, h :: (d, h) in Cells(slots) <==> HoldsCell(hoursOf, d, h)
    ensures MaximalRuns(slots, day)
    ensures DayOrder(slots) == NonEmptyDays(days, hoursOf)
  {
    slots := [];
    for k := 0 to |days|
      invariant SlotsSoFar(slots, days, k, hoursOf, day)
    {
      var d := days[k];
      NonEmptyDaysStep(days, k, hoursOf);
      if |hoursOf[d]| == 0 {
        SkipEmptyDay(slots, days, k, hoursOf, day);
        continue;
      }
      var runs := CompressRuns(d, hoursOf[d]);
      NewDayStep(slots, runs, days, k, day);
      AppendMaximal(slots, runs, day, d);
      AppendDayRuns(slots, runs, d, NonEmptyDays(days[..k], hoursOf));
      AppendKeySlots(slots, runs, days, k, hoursOf, day);
      slots := slots + runs;
    }
    assert days[..|days|] == days;
    forall d, h ensures (d, h) in Cells(slots) <==> HoldsCell(hoursOf, d, h) {
      KeyCellsMembership(days, hoursOf, d, h);
    }
  }

  /** The third step's invariant after the first `k` keys. */
  ghost predicate SlotsSoFar(slots: seq<TimeSlot>, days: seq<Day>, k: int, hoursOf: map<Day, seq<int>>, day: Day) {
    && 0 <= k <= |days|
    && WellFormed(slots)
    && Cells(slots) == KeyCells(days[..k], hoursOf)
    && (day !in days[..k] ==> forall j :: 0 <= j < |slots| ==> slots[j].day != day)
    && MaximalRuns(slots, day)
    && DayOrder(slots) == NonEmptyDays(days[..k], hoursOf)
  }

  /** A key with an empty list adds no slot. */
  lemma SkipEmptyDay(slots: seq<TimeSlot>, days: seq<Day>, k: int, hoursOf: map<Day, seq<int>>, day: Day)
    requires SlotsSoFar(slots, days, k, hoursOf, day) && k < |days|
    requires days[k] in hoursOf && hoursOf[days[k]] == []
    requires NonEmptyDays(days[..k + 1], hoursOf) == NonEmptyDays(days[..k], hoursOf)
    ensures SlotsSoFar(slots, days, k + 1, hoursOf, day)
  {
    assert days[..k + 1][..k] == days[..k];
    assert DayCells(days[k], []) == {};
  }

  /** The runs of the next key, given what the smaller lemmas say about them, extend the invariant. */
  lemma AppendKeySlots(slots: seq<TimeSlot>, runs: seq<TimeSlot>, days: seq<Day>, k: int,
                       hoursOf: map<Day, seq<int>>, day: Day)
    requires 0 <= k < |days| && WellFormed(slots) && Cells(slots) == KeyCells(days[..k], hoursOf)
    requires days[k] in hoursOf && Cells(runs) == DayCells(days[k], hoursOf[days[k]]) && WellFormed(runs)
    requires day !in days[..k + 1] ==> forall j :: 0 <= j < |slots + runs| ==> (slots + runs)[j].day != day
    requires MaximalRuns(slots + runs, day)
    requires DayOrder(slots + runs) == NonEmptyDays(days[..k + 1], hoursOf)
    ensures SlotsSoFar(slots + runs, days, k + 1, hoursOf, day)
  {
    assert days[..k + 1][..k] == days[..k];
    CellsAppend(slots, runs);
    assert WellFormed(slots + runs) by {
      forall j | 0 <= j < |slots + runs| ensures (slots + runs)[j].start < (slots + runs)[j].end {
        if j >= |slots| { assert (slots + runs)[j] == runs[j - |slots|]; }
      }
    }
  }

  /** The cells the map holds under the keys `ds`. */
  function KeyCells(ds: seq<Day>, hoursOf: map<Day, seq<int>>): set<Cell> {
    if ds == [] then {}
    else
      var d := ds[|ds| - 1];
      KeyCells(ds[..|ds| - 1], hoursOf) + if d in hoursOf then DayCells(d, hoursOf[d]) else {}
  }

  lemma {:induction false} KeyCellsMembership(ds: seq<Day>, hoursOf: map<Day, seq<int>>, d: Day, h: int)
    ensures (d, h) in KeyCells(ds, hoursOf) <==> d in ds && HoldsCell(hoursOf, d, h)
  {
    if ds != [] {
      var init := ds[..|ds| - 1];
      assert ds == init + [ds[|ds| - 1]];
      KeyCellsMembership(init, hoursOf, d, h);
    }
  }

  /** The key `days[k]` was not met before, so its runs are the first slots of that day. */
  lemma NewDayStep(slots: seq<TimeSlot>, runs: seq<TimeSlot>, days: seq<Day>, k: int, day: Day)
    requires 0 <= k < |days| && NoDup(days)
    requires day !in days[..k] ==> forall j :: 0 <= j < |slots| ==> slots[j].day != day
    requires forall j :: 0 <= j < |runs| ==> runs[j].day == days[k]
    ensures day !in days[..k + 1] ==> forall j :: 0 <= j < |slots + runs| ==> (slots + runs)[j].day != day
    ensures days[k] == day ==> forall j :: 0 <= j < |slots| ==> slots[j].day != day
  {
    assert days[..k + 1] == days[..k] + [days[k]];
  }

  /** Runs of another day, or the maximal runs of a day with no slot yet, keep the runs maximal. */
  lemma AppendMaximal(slots: seq<TimeSlot>, runs: seq<TimeSlot>, day: Day, d: Day)
    requires MaximalRuns(slots, day)
    requires forall j :: 0 <= j < |runs| ==> runs[j].day == d
    requires d == day ==> MaximalRuns(runs, day) && forall j :: 0 <= j < |slots| ==> slots[j].day != day
    ensures MaximalRuns(slots + runs, day)
  {
  }

  /** The keys of `days` whose hour list is not empty, in key order: the days the third step
      writes slots for. */
  function NonEmptyDays(days: seq<Day>, hoursOf: map<Day, seq<int>>): (r: seq<Day>)
    ensures forall d :: d in r <==> d in days && d in hoursOf && hoursOf[d] != []
  {
    if days == [] then []
    else
      var d := days[|days| - 1];
      NonEmptyDays(days[..|days| - 1], hoursOf) + if d in hoursOf && hoursOf[d] != [] then [d] else []
  }

  /** The days of `ds` that have a cell in `cells`, in the order of `ds`. */
  ghost function DaysWithCells(ds: seq<Day>, cells: set<Cell>): seq<Day> {
    if ds == [] then []
    else
      var d := ds[|ds| - 1];
      DaysWithCells(ds[..|ds| - 1], cells) + if exists h :: (d, h) in cells then [d] else []
  }

  /** One more key extends the non-empty keys by itself exactly when its list is not empty. */
  lemma NonEmptyDaysStep(days: seq<Day>, k: int, hoursOf: map<Day, seq<int>>)
    requires 0 <= k < |days|
    ensures NonEmptyDays(days[..k + 1], hoursOf) ==
            NonEmptyDays(days[..k], hoursOf) + if days[k] in hoursOf && hoursOf[days[k]] != [] then [days[k]] else []
  {
    assert days[..k + 1][..k] == days[..k];
  }

  /** Runs of a day the slots do not have yet put that day last in the day order. */
  lemma {:induction false} AppendDayRuns(slots: seq<TimeSlot>, runs: seq<TimeSlot>, d: Day, order: seq<Day>)
    requires DayOrder(slots) == order && d !in order
    requires runs != [] && forall j :: 0 <= j < |runs| ==> runs[j].day == d
    ensures DayOrder(slots + runs) == order + [d]
  {
    var init, last := runs[..|runs| - 1], runs[|runs| - 1];
    assert slots + runs == (slots + init) + [last];
    if init == [] {
      assert slots + init == slots;
      DayOrderSnoc(slots, last);
    } else {
      AppendDayRuns(slots, init, d, order);
      DayOrderSnoc(slots + init, last);
    }
  }

  /** One more slot adds its day to the order when the day is new. */
  lemma DayOrderSnoc(slots: seq<TimeSlot>, s: TimeSlot)
    ensures DayOrder(slots + [s]) == if s.day in DayOrder(slots) then DayOrder(slots) else DayOrder(slots) + [s.day]
  {
    assert (slots + [s])[..|slots|] == slots;
  }

  /** When the map holds exactly `cells`, a key has a non-empty list exactly when it has a cell. */
  lemma {:induction false} NonEmptyDaysHaveCells(ds: seq<Day>, hoursOf: map<Day, seq<int>>, cells: set<Cell>)
    requires forall d, h :: HoldsCell(hoursOf, d, h) <==> (d, h) in cells
    ensures NonEmptyDays(ds, hoursOf) == DaysWithCells(ds, cells)
  {
    if ds != [] {
      var d := ds[|ds| - 1];
      NonEmptyDaysHaveCells(ds[..|ds| - 1], hoursOf, cells);
      if d in hoursOf && hoursOf[d] != [] {
        assert HoldsCell(hoursOf, d, hoursOf[d][0]);
      }
    }
  }

  /** `handleTimeSlotClick(day, hour)`: the new availability list after flipping one cell. */
  method HandleTimeSlotClick(availability: seq<TimeSlot>, day: Day, hour: int)
    returns (newAvailability: seq<TimeSlot>)
    ensures Cells(newAvailability) == Toggle(Cells(availability), (day, hour))
    ensures WellFormed(newAvailability)
    ensures MaximalRuns(newAvailability, day)
    ensures var days := DayOrder(availability);
            DayOrder(newAvailability) == DaysWithCells(if day in days then days else days + [day], Cells(newAvailability))
  {
    var days, hoursOf := BuildDayHours(availability);
    var toggledDays, toggledHours := ToggleClickedDay(days, hoursOf, day, hour);
    newAvailability := MapToSlots(toggledDays, toggledHours, day);
    NonEmptyDaysHaveCells(toggledDays, toggledHours, Cells(newAvailability));
    ClickedCells(availability, hoursOf, toggledHours, newAvailability, day, hour);
  }

  /** The three steps together flip exactly the clicked cell. */
  lemma ClickedCells(availability: seq<TimeSlot>, hoursOf: map<Day, seq<int>>, toggledHours: map<Day, seq<int>>,
                     newAvailability: seq<TimeSlot>, day: Day, hour: int)
    requires forall d, h :: HoldsCell(hoursOf, d, h) <==> (d, h) in Cells(availability)
    requires forall d, h :: HoldsCell(toggledHours, d, h) <==> (HoldsCell(hoursOf, d, h) != ((d, h) == (day, hour)))
    requires forall d, h :: (d, h) in Cells(newAvailability) <==> HoldsCell(toggledHours, d, h)
    ensures Cells(newAvailability) == Toggle(Cells(availability), (day, hour))
  {
    forall c ensures c in Cells(newAvailability) <==> c in Toggle(Cells(availability), (day, hour)) {
      var (d, h) := c;
      assert HoldsCell(toggledHours, d, h) <==> (HoldsCell(hoursOf, d, h) != ((d, h) == (day, hour)));
      assert HoldsCell(hoursOf, d, h) <==> (d, h) in Cells(availability);
    }
  }

  /** Clicking the same cell twice gives back the cells the teacher started with. */
  method ClickTwice(availability: seq<TimeSlot>, day: Day, hour: int) returns (restored: seq<TimeSlot>)
    ensures Cells(restored) == Cells(availability)
    ensures WellFormed(restored)
  {
    var once := HandleTimeSlotClick(availability, day, hour);
    restored := HandleTimeSlotClick(once, day, hour);
    ToggleTwice(Cells(availability), (day, hour));
  }

  /** In a well-formed list, a day none of whose cells is covered has no slot at all: a day whose
      hours were all clicked away disappears from the availability. */
  lemma NoSlotForEmptyDay(slots: seq<TimeSlot>, d: Day)
    requires WellFormed(slots)
    requires forall h :: (d, h) !in Cells(slots)
    ensures forall j :: 0 <= j < |slots| ==> slots[j].day != d
  {
    forall j | 0 <= j < |slots| ensures slots[j].day != d {
      CellsMembership(slots, slots[j].day, slots[j].start);
    }
  }
}
