/** The add/edit module form: its state, the list editors for assignments
    and labs, the initialisation from the record being edited, and the
    submit step that either shows the joined error list or hands the trimmed
    and converted data on. */
module ModuleForm {
  import opened Optional
  import opened Text
  import opened ClientData
  import ModuleCard

  /** The form state. The hour inputs hold whatever the inputs produced. */
  datatype FormState = FormState(
    moduleName: string,
    moduleCode: string,
    lectureHours: Value,
    attendedHours: Value,
    assignments: seq<Slot>,
    labs: seq<Slot>)

  const Blank := FormState("", "", Num(0), Num(0), [], [])

  /** The initialisation effect: without a record everything is reset; with
      one, fields are copied with defaults for the missing ones and the lists
      are fresh copies. */
  function Init(initial: Option<ClientRecord>): (f: FormState)
    ensures initial.None? ==> f == Blank
    ensures initial.Some? ==>
              && f.moduleName == (if initial.value.moduleName.Some? then initial.value.moduleName.value else "")
              && f.moduleCode == (if initial.value.moduleCode.Some? then initial.value.moduleCode.value else "")
              && f.lectureHours == Num(if initial.value.lectureHours.Some? then initial.value.lectureHours.value else 0)
              && f.attendedHours == Num(if initial.value.attendedHours.Some? then initial.value.attendedHours.value else 0)
              && f.assignments == (if initial.value.assignments.Some? then initial.value.assignments.value else [])
              && f.labs == (if initial.value.labs.Some? then initial.value.labs.value else [])
  {
    match initial
    case None => Blank
    case Some(r) =>
      FormState(
        OrEmpty(r.moduleName), OrEmpty(r.moduleCode),
        Num(OrZero(r.lectureHours)), Num(OrZero(r.attendedHours)),
        OrNone(r.assignments), OrNone(r.labs))
  }

  /** `s || ''`. */
  function OrEmpty(s: Option<string>): string {
    if s.Some? && s.value != "" then s.value else ""
  }

  /** `n || 0`. */
  function OrZero(n: Option<int>): int {
    if n.Some? && n.value != 0 then n.value else 0
  }

  /** `list ? [...list] : []`. */
  function OrNone(s: Option<seq<Slot>>): seq<Slot> {
    if s.Some? then s.value else []
  }

  /** Editing a record starts from what its card shows: the same code,
      hours and lists, and the same name whenever the record has one (the
      card shows 'Untitled' for a missing name, the form an empty input). */
  lemma EditFormStartsFromCard(m: ClientRecord)
    ensures var f, c := Init(Some(m)), ModuleCard.Fields(m);
            && f.moduleCode == c.moduleCode
            && f.lectureHours == Num(c.lectureHours) && f.attendedHours == Num(c.attendedHours)
            && f.assignments == c.assignments && f.labs == c.labs
            && (m.moduleName.Some? ==> f.moduleName == c.moduleName)
            && (m.moduleName.None? ==> f.moduleName == "" && c.moduleName == "Untitled")
  {
  }

  /** Editing a record with no fields starts from the same state as adding
      a new one. */
  lemma EmptyRecordIsBlank(id: string)
    ensures Init(Some(ClientRecord(id, None, None, None, None, None, None))) == Init(None)
  {
  }

  // ---------------------------------------------------------------------------
  // List editors

  const NameKey := "name"
  const MarksKey := "marks"
  const CompletedKey := "completed"

  const NewAssignment: Entry := map[NameKey := Str(""), MarksKey := Null]
  const NewLab: Entry := map[NameKey := Str(""), CompletedKey := Bool(false)]

  /** `addAssignment`. */
  function AddAssignment(s: seq<Slot>): (r: seq<Slot>)
    ensures |r| == |s| + 1 && r[..|s|] == s && r[|s|] == Item(NewAssignment)
  {
    s + [Item(NewAssignment)]
  }

  /** `addLab`. */
  function AddLab(s: seq<Slot>): (r: seq<Slot>)
    ensures |r| == |s| + 1 && r[..|s|] == s && r[|s|] == Item(NewLab)
  {
    s + [Item(NewLab)]
  }

  /** `list.filter((_, idx) => idx !== i)`, the remover of both lists. */
  function RemoveAt(s: seq<Slot>, i: int): (r: seq<Slot>)
    ensures |r| == if 0 <= i < |s| then |s| - 1 else |s|
    ensures forall j :: 0 <= j < |r| ==> r[j] in s
  {
    if s == [] then []
    else RemoveAt(s[..|s| - 1], i) + (if |s| - 1 == i then [] else [s[|s| - 1]])
  }

  /** Removing drops exactly element `i` and keeps the rest in order; an
      index outside the list removes nothing. */
  lemma {:induction false} RemoveAtSlices(s: seq<Slot>, i: int)
    ensures 0 <= i < |s| ==> RemoveAt(s, i) == s[..i] + s[i + 1..]
    ensures !(0 <= i < |s|) ==> RemoveAt(s, i) == s
  {
    if s != [] {
      var n := |s| - 1;
      RemoveAtSlices(s[..n], i);
      if i == n {
        assert s[..i] + s[i + 1..] == s[..n];
      } else if 0 <= i < n {
        assert s[..n][..i] == s[..i];
        assert s[..n][i + 1..] + [s[n]] == s[i + 1..];
      } else {
        assert s[..n] + [s[n]] == s;
      }
    }
  }

  /** `updateAssignment(i, key, val)`: element `i` is replaced by a copy with
      `key` set; marks from the input are `null` when cleared and a number
      otherwise. */
  function UpdateAssignment(s: seq<Slot>, i: nat, key: string, val: Value): (r: seq<Slot>)
    ensures |r| == if i < |s| then |s| else i + 1
    ensures r[i].Item?
    ensures key == MarksKey ==> (Get(r[i].props, MarksKey) == Null <==> val == Str(""))
    ensures key != MarksKey ==> Get(r[i].props, key) == val
  {
    SetProp(s, i, key, if key == MarksKey then (if val == Str("") then Null else ToNumber(val)) else val)
  }

  /** `updateLab(i, key, val)`: as above, with `completed` made a boolean. */
  function UpdateLab(s: seq<Slot>, i: nat, key: string, val: Value): (r: seq<Slot>)
    ensures |r| == if i < |s| then |s| else i + 1
    ensures r[i].Item?
    ensures key == CompletedKey ==> Get(r[i].props, CompletedKey).Bool?
    ensures key != CompletedKey ==> Get(r[i].props, key) == val
  {
    SetProp(s, i, key, if key == CompletedKey then Bool(Truthy(val)) else val)
  }

  /** Updating an entry changes only that entry's key; marks become null or a
      number. */
  lemma UpdateAssignmentEffect(s: seq<Slot>, i: nat, key: string, val: Value)
    requires i < |s|
    ensures var r := UpdateAssignment(s, i, key, val);
            && |r| == |s|
            && (forall j :: 0 <= j < |s| && j != i ==> r[j] == s[j])
            && r[i].Item?
            && (forall k :: k != key ==> Get(r[i].props, k) == Get(PropsOf(s[i]), k))
            && (key == MarksKey ==> Get(r[i].props, MarksKey).Null? || Get(r[i].props, MarksKey).Num?
                                    || Get(r[i].props, MarksKey).NaN?)
            && (key == MarksKey && val == Str("") ==> Get(r[i].props, MarksKey) == Null)
            && (key == MarksKey && val != Str("") ==> Get(r[i].props, MarksKey) == ToNumber(val))
            && (key != MarksKey ==> Get(r[i].props, key) == val)
  {
  }

  /** Updating a lab changes only that lab's key; `completed` is a boolean. */
  lemma UpdateLabEffect(s: seq<Slot>, i: nat, key: string, val: Value)
    requires i < |s|
    ensures var r := UpdateLab(s, i, key, val);
            && |r| == |s|
            && (forall j :: 0 <= j < |s| && j != i ==> r[j] == s[j])
            && r[i].Item?
            && (forall k :: k != key ==> Get(r[i].props, k) == Get(PropsOf(s[i]), k))
            && (key == CompletedKey ==> Get(r[i].props, CompletedKey) == Bool(Truthy(val)))
            && (key != CompletedKey ==> Get(r[i].props, key) == val)
  {
  }

  // ---------------------------------------------------------------------------
  // Submit

  const NameRequiredText := "Module name is required"
  const CodeRequiredText := "Module code is required"

  /** Every entry has a string name, as the entries the form creates do; on
      any other entry `name.trim()` throws. */
  predicate Named(s: seq<Slot>) {
    forall i :: 0 <= i < |s| ==> s[i].Item? && NameKey in s[i].props && s[i].props[NameKey].Str?
  }

  function NameOf(slot: Slot): string
    requires slot.Item? && NameKey in slot.props && slot.props[NameKey].Str?
  {
    slot.props[NameKey].s
  }

  /** The names of the entries, in order. */
  function Names(s: seq<Slot>): (r: seq<string>)
    requires Named(s)
    ensures |r| == |s| && forall i :: 0 <= i < |s| ==> r[i] == NameOf(s[i])
  {
    seq(|s|, i requires 0 <= i < |s| => NameOf(s[i]))
  }

  /** `!name.trim()`: the name trims to nothing, that is, it is all
      whitespace (TrimEmptyIff). */
  predicate IsBlank(name: string) {
    AllWhitespace(name)
  }

  /** The message for an entry whose name is blank; entries count from 1. */
  function ItemMessage(kind: string, i: nat): string {
    kind + " " + NatToString(i + 1) + " name is required"
  }

  /** The messages for the blank names of a list, in index order. */
  function ItemErrors(names: seq<string>, kind: string): (errs: seq<string>)
    ensures |errs| <= |names|
  {
    if names == [] then []
    else
      var n := |names| - 1;
      ItemErrors(names[..n], kind) + (if IsBlank(names[n]) then [ItemMessage(kind, n)] else [])
  }

  /** The submit-time error list: name, code, then each blank assignment, then
      each blank lab. */
  function SubmitErrors(f: FormState): (errs: seq<string>)
    requires Named(f.assignments) && Named(f.labs)
    ensures |errs| <= 2 + |f.assignments| + |f.labs|
    ensures IsBlank(f.moduleName) ==> |errs| > 0 && errs[0] == NameRequiredText
    ensures !IsBlank(f.moduleName) && IsBlank(f.moduleCode) ==> |errs| > 0 && errs[0] == CodeRequiredText
  {
    (if IsBlank(f.moduleName) then [NameRequiredText] else [])
    + (if IsBlank(f.moduleCode) then [CodeRequiredText] else [])
    + ItemErrors(Names(f.assignments), "Assignment")
    + ItemErrors(Names(f.labs), "Lab")
  }

  datatype AssignmentData = AssignmentData(name: string, marks: Value)
  datatype LabData = LabData(name: string, completed: bool)

  /** The data handed to `onSubmit`. */
  datatype ModuleData = ModuleData(
    moduleName: string,
    moduleCode: string,
    lectureHours: int,
    attendedHours: int,
    assignments: seq<AssignmentData>,
    labs: seq<LabData>)

  /** `marks === null ? null : Number(marks)`. */
  function MarksOut(marks: Value): (m: Value)
    ensures m == Null <==> marks == Null
    ensures m == Null || m.Num? || m.NaN?
    ensures marks.Num? ==> m == marks
  {
    if marks == Null then Null else ToNumber(marks)
  }

  function AssignmentOut(slot: Slot): (a: AssignmentData)
    requires slot.Item? && NameKey in slot.props && slot.props[NameKey].Str?
    ensures a.marks == Null <==> Get(slot.props, MarksKey) == Null
    ensures a.marks == Null || a.marks.Num? || a.marks.NaN?
  {
    AssignmentData(Trim(NameOf(slot)), MarksOut(Get(slot.props, MarksKey)))
  }

  /** The submitted assignment list: one entry per row, in order. */
  function AssignmentsOut(items: seq<Slot>): (r: seq<AssignmentData>)
    requires Named(items)
    ensures |r| == |items|
    ensures forall i :: 0 <= i < |r| ==>
              && (r[i].marks == Null <==> Get(items[i].props, MarksKey) == Null)
              && (r[i].marks == Null || r[i].marks.Num? || r[i].marks.NaN?)
    ensures forall i :: 0 <= i < |r| ==>
              r[i].name == Trim(NameOf(items[i])) && r[i].marks == MarksOut(Get(items[i].props, MarksKey))
  {
    seq(|items|, i requires 0 <= i < |items| => AssignmentOut(items[i]))
  }

  function LabOut(slot: Slot): LabData
    requires slot.Item? && NameKey in slot.props && slot.props[NameKey].Str?
  {
    LabData(Trim(NameOf(slot)), Truthy(Get(slot.props, CompletedKey)))
  }

  /** The submitted lab list: one entry per row, in order. */
  function LabsOut(items: seq<Slot>): (r: seq<LabData>)
    requires Named(items)
    ensures |r| == |items|
    ensures forall i :: 0 <= i < |r| ==> r[i].completed == Truthy(Get(items[i].props, CompletedKey))
    ensures forall i :: 0 <= i < |r| ==> r[i].name == Trim(NameOf(items[i]))
  {
    seq(|items|, i requires 0 <= i < |items| => LabOut(items[i]))
  }

  /** `s.trim()`, known to have no whitespace left at either end. */
  function TrimmedText(s: string): (t: string)
    ensures t == Trim(s) && IsTrimmed(t)
  {
    TrimEdges(s);
    Trim(s)
  }

  /** The submitted data: names trimmed, hours `Number(x) || 0`, marks kept
      null or converted, `completed` a boolean. */
  function SubmitData(f: FormState): (d: ModuleData)
    requires Named(f.assignments) && Named(f.labs)
    ensures IsTrimmed(d.moduleName) && IsTrimmed(d.moduleCode)
    ensures f.lectureHours.Num? ==> d.lectureHours == f.lectureHours.n
    ensures f.attendedHours.Num? ==> d.attendedHours == f.attendedHours.n
    ensures |d.assignments| == |f.assignments| && |d.labs| == |f.labs|
    ensures forall i :: 0 <= i < |d.assignments| ==>
              && (d.assignments[i].marks == Null <==> Get(f.assignments[i].props, MarksKey) == Null)
              && (d.assignments[i].marks == Null || d.assignments[i].marks.Num? || d.assignments[i].marks.NaN?)
    ensures forall i :: 0 <= i < |d.labs| ==> d.labs[i].completed == Truthy(Get(f.labs[i].props, CompletedKey))
    ensures d.moduleName == Trim(f.moduleName) && d.moduleCode == Trim(f.moduleCode)
    ensures forall i :: 0 <= i < |d.assignments| ==>
              && d.assignments[i].name == Trim(NameOf(f.assignments[i]))
              && d.assignments[i].marks == MarksOut(Get(f.assignments[i].props, MarksKey))
    ensures forall i :: 0 <= i < |d.labs| ==> d.labs[i].name == Trim(NameOf(f.labs[i]))
  {
    ModuleData(
      TrimmedText(f.moduleName), TrimmedText(f.moduleCode),
      NumberOrZero(f.lectureHours), NumberOrZero(f.attendedHours),
      AssignmentsOut(f.assignments),
      LabsOut(f.labs))
  }

  /** The hours the form holds as typed text arrive as numbers: a run of
      digits is its value, one behind a minus sign its negation, and blank
      or unreadable text is 0. */
  lemma SubmittedHours(f: FormState)
    requires Named(f.assignments) && Named(f.labs)
    ensures var h, d := f.lectureHours, SubmitData(f);
      && (h.Str? && h.s != "" && AllDigits(h.s) ==> d.lectureHours == DigitsValue(h.s))
      && (h.Str? && |h.s| >= 2 && h.s[0] == '-' && AllDigits(h.s[1..]) ==> d.lectureHours == -(DigitsValue(h.s[1..]) as int))
      && (h.Str? && Trim(h.s) == "" ==> d.lectureHours == 0)
      && (ToNumber(h).NaN? ==> d.lectureHours == 0)
    ensures var h, d := f.attendedHours, SubmitData(f);
      && (h.Str? && h.s != "" && AllDigits(h.s) ==> d.attendedHours == DigitsValue(h.s))
      && (h.Str? && |h.s| >= 2 && h.s[0] == '-' && AllDigits(h.s[1..]) ==> d.attendedHours == -(DigitsValue(h.s[1..]) as int))
      && (h.Str? && Trim(h.s) == "" ==> d.attendedHours == 0)
      && (ToNumber(h).NaN? ==> d.attendedHours == 0)
  {
    var d := SubmitData(f);
    assert d.lectureHours == NumberOrZero(f.lectureHours);
    assert d.attendedHours == NumberOrZero(f.attendedHours);
    if f.lectureHours.Str? {
      NumberOrZeroOfText(f.lectureHours.s);
    }
    if f.attendedHours.Str? {
      NumberOrZeroOfText(f.attendedHours.s);
    }
  }

  /** What submitting does: show the errors joined with '. ', or call
      `onSubmit` with the data. */
  datatype Outcome = ShowError(message: string) | CallSubmit(data: ModuleData)

  /** One `forEach` of `handleSubmit`: pushes a message for every blank
      name, in index order. */
  method PushItemErrors(errors: seq<string>, names: seq<string>, kind: string) returns (out: seq<string>)
    ensures out == errors + ItemErrors(names, kind)
  {
    out := errors;
    var i := 0;
    while i < |names|
      invariant 0 <= i <= |names|
      invariant out == errors + ItemErrors(names[..i], kind)
    {
      assert names[..i + 1][..i] == names[..i];
      TrimEmptyIff(names[i]);
      if Trim(names[i]) == "" {
        out := out + [ItemMessage(kind, i)];
      }
      i := i + 1;
    }
    assert names[..i] == names;
  }

  /** `handleSubmit`: collects the errors, and calls `onSubmit` only when
      there are none. */
  method HandleSubmit(f: FormState) returns (outcome: Outcome)
    requires Named(f.assignments) && Named(f.labs)
    ensures SubmitErrors(f) != [] ==> outcome == ShowError(Join(SubmitErrors(f), ". "))
    ensures SubmitErrors(f) == [] ==> outcome == CallSubmit(SubmitData(f))
  {
    var errors: seq<string> := [];
    if Trim(f.moduleName) == "" {
      errors := errors + [NameRequiredText];
    }
    if Trim(f.moduleCode) == "" {
      errors := errors + [CodeRequiredText];
    }
    assert errors == (if IsBlank(f.moduleName) then [NameRequiredText] else [])
                     + (if IsBlank(f.moduleCode) then [CodeRequiredText] else []) by {
      TrimEmptyIff(f.moduleName);
      TrimEmptyIff(f.moduleCode);
    }
    errors := PushItemErrors(errors, Names(f.assignments), "Assignment");
    errors := PushItemErrors(errors, Names(f.labs), "Lab");
    assert errors == SubmitErrors(f);
    if |errors| > 0 {
      return ShowError(Join(errors, ". "));
    }
    outcome := CallSubmit(SubmitData(f));
  }

  // ---------------------------------------------------------------------------
  // Properties of submit

  /** An entry's message is in the list exactly when that entry's name is
      blank. */
  lemma {:induction false} ItemErrorsExact(names: seq<string>, kind: string, k: nat)
    ensures ItemMessage(kind, k) in ItemErrors(names, kind) <==> k < |names| && IsBlank(names[k])
  {
    if names != [] {
      var n := |names| - 1;
      ItemErrorsExact(names[..n], kind, k);
      if k != n {
        assert ItemMessage(kind, k) != ItemMessage(kind, n) by {
          NumberedMessagesDistinct(kind, k, n);
        }
      }
      if k < n {
        assert names[..n][k] == names[k];
      }
    }
  }

  lemma NumberedMessagesDistinct(kind: string, i: nat, j: nat)
    requires i != j
    ensures ItemMessage(kind, i) != ItemMessage(kind, j)
  {
    var x, y := NatToString(i + 1), NatToString(j + 1);
    var before, after := kind + " ", " name is required";
    NatToStringInjective(i + 1, j + 1);
    if |x| == |y| {
      var k :| 0 <= k < |x| && x[k] != y[k];
      assert (before + x + after)[|before| + k] == x[k];
      assert (before + y + after)[|before| + k] == y[k];
    }
  }

  /** No blank names, no messages. */
  lemma {:induction false} ItemErrorsEmptyIff(names: seq<string>, kind: string)
    ensures ItemErrors(names, kind) == [] <==> forall i :: 0 <= i < |names| ==> !IsBlank(names[i])
  {
    if names != [] {
      var n := |names| - 1;
      ItemErrorsEmptyIff(names[..n], kind);
      assert forall i :: 0 <= i < n ==> names[..n][i] == names[i];
    }
  }

  /** The form submits exactly when the name, the code and every entry name
      are non-blank. */
  lemma SubmitAcceptedIff(f: FormState)
    requires Named(f.assignments) && Named(f.labs)
    ensures SubmitErrors(f) == [] <==>
            && !IsBlank(f.moduleName) && !IsBlank(f.moduleCode)
            && (forall i :: 0 <= i < |f.assignments| ==> !IsBlank(NameOf(f.assignments[i])))
            && (forall i :: 0 <= i < |f.labs| ==> !IsBlank(NameOf(f.labs[i])))
  {
    ItemErrorsEmptyIff(Names(f.assignments), "Assignment");
    ItemErrorsEmptyIff(Names(f.labs), "Lab");
  }

  /** What is submitted has every name trimmed and non-empty. */
  lemma SubmittedIsTrimmed(f: FormState)
    requires Named(f.assignments) && Named(f.labs) && SubmitErrors(f) == []
    ensures var d := SubmitData(f);
            && IsTrimmed(d.moduleName) && d.moduleName != ""
            && IsTrimmed(d.moduleCode) && d.moduleCode != ""
            && (forall i :: 0 <= i < |d.assignments| ==> IsTrimmed(d.assignments[i].name) && d.assignments[i].name != "")
            && (forall i :: 0 <= i < |d.labs| ==> IsTrimmed(d.labs[i].name) && d.labs[i].name != "")
  {
    SubmitAcceptedIff(f);
    var d := SubmitData(f);
    TrimEdges(f.moduleName);
    TrimEdges(f.moduleCode);
    TrimEmptyIff(f.moduleName);
    TrimEmptyIff(f.moduleCode);
    forall i | 0 <= i < |d.assignments|
      ensures IsTrimmed(d.assignments[i].name) && d.assignments[i].name != ""
    {
      TrimEdges(NameOf(f.assignments[i]));
      TrimEmptyIff(NameOf(f.assignments[i]));
    }
    forall i | 0 <= i < |d.labs|
      ensures IsTrimmed(d.labs[i].name) && d.labs[i].name != ""
    {
      TrimEdges(NameOf(f.labs[i]));
      TrimEmptyIff(NameOf(f.labs[i]));
    }
  }
}
