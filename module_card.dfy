/** The module card: the values it shows for a record, and the inline edits
    it sends to the page as a field name and a value. */
module ModuleCard {
  import opened Optional
  import opened Text
  import opened ClientData
  import ModuleSchema

  /** What the card shows, with the defaults filled in. */
  datatype CardFields = CardFields(
    moduleName: string,
    moduleCode: string,
    lectureHours: int,
    attendedHours: int,
    assignments: seq<Slot>,
    labs: seq<Slot>)

  /** The destructuring defaults: a field that is absent shows as 'Untitled',
      '', 0, 0, [] or []. */
  function Fields(m: ClientRecord): (c: CardFields)
    ensures c.moduleName == (if m.moduleName.Some? then m.moduleName.value else "Untitled")
    ensures c.moduleCode == (if m.moduleCode.Some? then m.moduleCode.value else "")
    ensures c.lectureHours == (if m.lectureHours.Some? then m.lectureHours.value else 0)
    ensures c.attendedHours == (if m.attendedHours.Some? then m.attendedHours.value else 0)
    ensures c.assignments == (if m.assignments.Some? then m.assignments.value else [])
    ensures c.labs == (if m.labs.Some? then m.labs.value else [])
  {
    CardFields(
      match m.moduleName case Some(n) => n case None => "Untitled",
      match m.moduleCode case Some(c) => c case None => "",
      match m.lectureHours case Some(l) => l case None => 0,
      match m.attendedHours case Some(a) => a case None => 0,
      match m.assignments case Some(s) => s case None => [],
      match m.labs case Some(s) => s case None => [])
  }

  /** The percentage the card shows: 0 unless there are lecture hours,
      otherwise 100 * attended / lecture rounded to the nearest integer. */
  function DisplayPercentage(lectureHours: int, attendedHours: int): (p: int)
    ensures lectureHours <= 0 ==> p == 0
    ensures lectureHours > 0
            ==> 2 * lectureHours * p - lectureHours <= 2 * (100 * attendedHours) < 2 * lectureHours * p + lectureHours
  {
    if lectureHours > 0 then ModuleSchema.RoundHalfUp(100 * attendedHours, lectureHours) else 0
  }

  /** For every stored record the card shows what the backend's virtual
      computes. */
  lemma DisplayMatchesBackend(lectureHours: int, attendedHours: int)
    requires lectureHours >= 0
    ensures DisplayPercentage(lectureHours, attendedHours) == ModuleSchema.AttendancePercentage(lectureHours, attendedHours)
  {
  }

  /** Only for a negative lecture count, which the backend never stores, do
      the two differ. */
  lemma DisplayDiffersOnNegative()
    ensures DisplayPercentage(-2, 1) == 0
    ensures ModuleSchema.AttendancePercentage(-2, 1) == -50
  {
    assert ModuleSchema.RoundHalfUp(-100, 2) == -50 by {
      ModuleSchema.RoundHalfUpUnique(-100, 2, -50);
    }
  }

  /** An edit the card sends: the field name and the new value. */
  datatype InlineEdit = InlineEdit(field: string, value: Value)

  const AttendedField := "attendedHours"

  /** `increaseAttendance`: plus one attended hour. `DecreaseUndoesIncrease`
      and `IncreaseNeverLowersPercentage` state what pressing it means. */
  function Increase(attendedHours: int): (e: InlineEdit)
    ensures e.field == AttendedField && e.value.Num? && e.value.n == attendedHours + 1
  {
    InlineEdit(AttendedField, Num(attendedHours + 1))
  }

  /** `decreaseAttendance`: one less, but never below 0. */
  function Decrease(attendedHours: int): (e: InlineEdit)
    ensures e.field == AttendedField && e.value.Num? && e.value.n >= 0
    ensures attendedHours >= 1 ==> e.value.n == attendedHours - 1
    ensures attendedHours <= 1 ==> e.value.n == 0
  {
    InlineEdit(AttendedField, Num(if attendedHours - 1 > 0 then attendedHours - 1 else 0))
  }

  /** Pressing plus never lowers the percentage the card shows. */
  lemma {:induction false} IncreaseNeverLowersPercentage(lectureHours: int, attendedHours: int)
    ensures DisplayPercentage(lectureHours, Increase(attendedHours).value.n) >= DisplayPercentage(lectureHours, attendedHours)
  {
    if lectureHours > 0 {
      var p, q := DisplayPercentage(lectureHours, attendedHours), DisplayPercentage(lectureHours, attendedHours + 1);
      if q < p {
        ModuleSchema.MulMonotone(2 * lectureHours, q, p - 1);
      }
    }
  }

  /** Pressing minus after plus gives back the count, for every count the
      backend can store. */
  lemma DecreaseUndoesIncrease(attendedHours: int)
    requires attendedHours >= 0
    ensures Decrease(Increase(attendedHours).value.n).value == Num(attendedHours)
  {
  }

  /** The field name of an assignment's marks. */
  function AssignmentPath(i: nat): (f: string)
    ensures StartsWith(f, "assignment:")
  {
    "assignment:" + NatToString(i) + ":marks"
  }

  /** The field name of a lab's completion flag. */
  function LabPath(i: nat): (f: string)
    ensures StartsWith(f, "lab:")
  {
    "lab:" + NatToString(i) + ":completed"
  }

  /** The marks from the input: a cleared input is `null`, anything else is
      converted with `Number`. */
  function MarksValue(input: string): (v: Value)
    ensures input == "" <==> v == Null
    ensures v.Num? || v.NaN? || v.Null?
    ensures input != "" && AllDigits(input) ==> v == Num(DigitsValue(input))
    ensures |input| >= 2 && input[0] == '-' && AllDigits(input[1..]) ==> v == Num(-(DigitsValue(input[1..]) as int))
  {
    StringToNumberOfDecimal(input);
    if input == "" then Null else StringToNumber(input)
  }

  /** `updateAssignmentMarks`: an edit of an assignment field whose value is
      `null` exactly when the input was cleared, and a number (or NaN)
      otherwise. */
  function MarksEdit(i: nat, input: string): (e: InlineEdit)
    ensures StartsWith(e.field, "assignment:")
    ensures e.value == Null <==> input == ""
    ensures input != "" ==> e.value.Num? || e.value.NaN?
    ensures input != "" && AllDigits(input) ==> e.value == Num(DigitsValue(input))
  {
    InlineEdit(AssignmentPath(i), MarksValue(input))
  }

  /** `toggleLabCompleted`: an edit of a lab field carrying the box's new
      state as a boolean. */
  function LabToggle(i: nat, checked: bool): (e: InlineEdit)
    ensures StartsWith(e.field, "lab:")
    ensures e.value.Bool? && (e.value.b <==> checked)
  {
    InlineEdit(LabPath(i), Bool(checked))
  }

  /** A number framed by the same text on both sides identifies the
      number. */
  lemma FramedNumberInjective(before: string, after: string, i: nat, j: nat)
    requires i != j
    ensures before + NatToString(i) + after != before + NatToString(j) + after
  {
    var x, y := NatToString(i), NatToString(j);
    NatToStringInjective(i, j);
    if |x| == |y| {
      var k :| 0 <= k < |x| && x[k] != y[k];
      assert (before + x + after)[|before| + k] == x[k];
      assert (before + y + after)[|before| + k] == y[k];
    }
  }

  /** Different elements get different field names. */
  lemma PathsDistinct(i: nat, j: nat)
    requires i != j
    ensures AssignmentPath(i) != AssignmentPath(j) && LabPath(i) != LabPath(j)
  {
    FramedNumberInjective("assignment:", ":marks", i, j);
    FramedNumberInjective("lab:", ":completed", i, j);
  }
}
