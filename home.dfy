/** The home page's handling of the module list: the inline update, which
    decodes the card's field name and writes into a shallow copy of the
    record (so nested lists are written in place, shared with the page
    state), and the local removal after a delete. The requests themselves are
    outside the model; whether the server accepted one is a parameter. */
module Home {
  import opened Optional
  import opened Text
  import opened ClientData
  import opened ModuleCard

  const NotFoundText := "Module not found"
  const UpdateFailedText := "Failed to update module"
  const MissingIdText := "Module ID is undefined"
  const DeleteFailedText := "Failed to delete module"

  const AssignmentPrefix := "assignment:"
  const LabPrefix := "lab:"

  // ---------------------------------------------------------------------------
  // Decoding the field name

  /** Where an inline edit goes. An index of `None` is a key that is not an
      array index (NaN, negative or too large): it names an ordinary
      property of the array, which the request body does not carry. */
  datatype FieldPath =
    | HoursField(name: string)
    | AssignmentField(index: Option<nat>, prop: string)
    | LabField(index: Option<nat>, prop: string)
    | OtherField

  /** The array key `parseInt(part)` gives, when it is an element index. */
  function ElementIndex(part: string): (r: Option<nat>)
    ensures r.Some? ==> r.value < ArrayIndexLimit
  {
    match ParseInt(part)
    case Some(n) => if 0 <= n < ArrayIndexLimit then Some(n) else None
    case None => None
  }

  /** A field name that starts with `head:` splits into `head` followed by
      the pieces of the rest. */
  lemma SplitPrefixed(head: string, field: string)
    requires ':' !in head && StartsWith(field, head + ":")
    ensures |Split(field, ':')| >= 2
    ensures Split(field, ':') == [head] + Split(field[|head| + 1..], ':')
  {
    var rest := field[|head| + 1..];
    assert field == head + [':'] + rest;
    SplitAtFirst(head, ':', rest);
  }

  /** `const [_, index, prop] = field.split(':')`, with the index read by
      `parseInt`; a missing piece is `undefined`, which names the property
      "undefined". */
  function ElementPath(field: string, head: string): (r: (Option<nat>, string))
    requires ':' !in head && StartsWith(field, head + ":")
  {
    SplitPrefixed(head, field);
    var parts := Split(field, ':');
    (ElementIndex(parts[1]), if |parts| >= 3 then parts[2] else "undefined")
  }

  /** The two hour field names start with neither list prefix, and no name
      starts with both. */
  lemma PrefixesApart(field: string)
    ensures !StartsWith("attendedHours", AssignmentPrefix) && !StartsWith("attendedHours", LabPrefix)
    ensures !StartsWith("lectureHours", AssignmentPrefix) && !StartsWith("lectureHours", LabPrefix)
    ensures !(StartsWith(field, AssignmentPrefix) && StartsWith(field, LabPrefix))
  {
    assert "attendedHours"[1] != AssignmentPrefix[1] && "attendedHours"[0] != LabPrefix[0];
    assert "lectureHours"[0] != AssignmentPrefix[0] && "lectureHours"[1] != LabPrefix[1];
    if StartsWith(field, AssignmentPrefix) {
      assert field[0] == AssignmentPrefix[0] != LabPrefix[0];
    }
  }

  /** The branches of `handleInlineUpdate`, in order: the two hour fields by
      name, then the `assignment:` and `lab:` element paths, then nothing. */
  function DecodeField(field: string): FieldPath {
    if field == "attendedHours" || field == "lectureHours" then HoursField(field)
    else if StartsWith(field, AssignmentPrefix) then
      var p := ElementPath(field, "assignment");
      AssignmentField(p.0, p.1)
    else if StartsWith(field, LabPrefix) then
      var p := ElementPath(field, "lab");
      LabField(p.0, p.1)
    else OtherField
  }

  /** Each field name is classified by its own shape alone: the two hour
      names, the `assignment:` and `lab:` paths (with an index that is a
      valid array index when there is one), and everything else. */
  lemma DecodeFieldClassifies(field: string)
    ensures var r := DecodeField(field);
            && (r.HoursField? <==> field == "attendedHours" || field == "lectureHours")
            && (r.HoursField? ==> r.name == field)
            && (r.AssignmentField? <==> StartsWith(field, AssignmentPrefix))
            && (r.LabField? <==> StartsWith(field, LabPrefix))
            && ((r.AssignmentField? || r.LabField?) && r.index.Some? ==> r.index.value < ArrayIndexLimit)
  {
    PrefixesApart(field);
  }

  /** Joining three pieces with ':'. */
  lemma JoinThree(a: string, b: string, c: string)
    ensures Join([a, b, c], [':']) == a + ":" + b + ":" + c
  {
    var pieces := [a, b, c];
    assert pieces[1..][1..] == [c];
    assert Join(pieces[1..], [':']) == b + ":" + c;
  }

  /** Reading the index and property back out of `head:<i>:prop`. */
  lemma ElementPathOf(head: string, i: nat, prop: string)
    requires ':' !in head && ':' !in prop && i < ArrayIndexLimit
    ensures StartsWith(head + ":" + NatToString(i) + ":" + prop, head + ":")
    ensures ElementPath(head + ":" + NatToString(i) + ":" + prop, head) == (Some(i), prop)
  {
    var f := head + ":" + NatToString(i) + ":" + prop;
    var pieces := [head, NatToString(i), prop];
    JoinThree(head, NatToString(i), prop);
    assert f[..|head + ":"|] == head + ":";
    assert ':' !in NatToString(i) by {
      assert forall k :: 0 <= k < |NatToString(i)| ==> IsDigit(NatToString(i)[k]);
    }
    SplitJoin(pieces, ':');
    ParseIntOfNatToString(i);
  }

  /** Decoding the card's marks path gives back its index and property. */
  lemma DecodeAssignmentPath(i: nat)
    requires i < ArrayIndexLimit
    ensures DecodeField(AssignmentPath(i)) == AssignmentField(Some(i), "marks")
  {
    var f := AssignmentPath(i);
    assert f == "assignment" + ":" + NatToString(i) + ":" + "marks";
    assert f != "attendedHours" && f != "lectureHours" by {
      assert f[1] == 's';
    }
    ElementPathOf("assignment", i, "marks");
    assert StartsWith(f, AssignmentPrefix);
  }

  /** Decoding the card's lab path gives back its index and property. */
  lemma DecodeLabPath(i: nat)
    requires i < ArrayIndexLimit
    ensures DecodeField(LabPath(i)) == LabField(Some(i), "completed")
  {
    var f := LabPath(i);
    assert f == "lab" + ":" + NatToString(i) + ":" + "completed";
    assert f != "attendedHours" && f != "lectureHours" by {
      assert f[0] == 'l' && f[1] == 'a';
    }
    assert !StartsWith(f, AssignmentPrefix) by {
      assert f[0] != AssignmentPrefix[0];
    }
    ElementPathOf("lab", i, "completed");
    assert StartsWith(f, LabPrefix);
  }

  // ---------------------------------------------------------------------------
  // Conversions

  /** The marks conversion as written: `value === '' ? null : Number(value)`. */
  function InlineMarksAsWritten(value: Value): Value {
    if value == Str("") then Null else ToNumber(value)
  }

  /** The marks conversion the page evidently means: a cleared input, sent
      as `''` or as `null`, stays `null`; anything else becomes a number.
      `InlineMarksKeepsCardValue` and `CardMarksRoundTrip` state what this
      gives the card. */
  function InlineMarks(value: Value): (r: Value)
    ensures value == Str("") || value == Null ==> r == Null
    ensures value != Str("") && value != Null ==> r == ToNumber(value)
  {
    if value == Str("") || value == Null then Null else ToNumber(value)
  }

  /** Whatever the card sends for marks arrives unchanged. */
  lemma InlineMarksKeepsCardValue(input: string)
    ensures InlineMarks(MarksValue(input)) == MarksValue(input)
  {
  }

  // ---------------------------------------------------------------------------
  // The request body

  /** The body of the update request: the record's own fields, hours being
      whatever was last written to them. */
  datatype PutBody = PutBody(
    id: string,
    moduleName: Option<string>,
    moduleCode: Option<string>,
    lectureHours: Value,
    attendedHours: Value,
    assignments: Option<seq<Slot>>,
    labs: Option<seq<Slot>>)

  function HoursValue(h: Option<int>): Value {
    if h.Some? then Num(h.value) else Undefined
  }

  /** The shallow copy of a record, unchanged. */
  function BodyOf(r: ClientRecord): PutBody {
    PutBody(r.id, r.moduleName, r.moduleCode, HoursValue(r.lectureHours), HoursValue(r.attendedHours), r.assignments, r.labs)
  }

  function ListOrEmpty(s: Option<seq<Slot>>): seq<Slot> {
    if s.Some? then s.value else []
  }

  /** Writing `arr[index][prop] = v` after `if (!arr[index]) arr[index] = {}`. */
  function WriteElement(slots: seq<Slot>, index: Option<nat>, prop: string, v: Value): seq<Slot> {
    match index
    case None => slots
    case Some(i) => SetProp(slots, i, prop, v)
  }

  /** Which marks conversion a body is built with. */
  datatype MarksRule = AsWritten | Intended

  function ConvertMarks(rule: MarksRule, value: Value): Value {
    match rule
    case AsWritten => InlineMarksAsWritten(value)
    case Intended => InlineMarks(value)
  }

  /** The body `handleInlineUpdate` builds for a record and an edit, marks
      being converted by `rule`. */
  function ApplyInlineWith(rule: MarksRule, r: ClientRecord, field: string, value: Value): PutBody {
    var b := BodyOf(r);
    match DecodeField(field)
    case HoursField(name) =>
      if name == "attendedHours" then b.(attendedHours := value) else b.(lectureHours := value)
    case AssignmentField(index, prop) =>
      b.(assignments := Some(WriteElement(ListOrEmpty(r.assignments), index, prop,
                                          if prop == "marks" then ConvertMarks(rule, value) else value)))
    case LabField(index, prop) =>
      b.(labs := Some(WriteElement(ListOrEmpty(r.labs), index, prop,
                                   if prop == "completed" then Bool(Truthy(value)) else value)))
    case OtherField => b
  }

  /** The body `handleInlineUpdate` sends, as written. */
  function ApplyInline(r: ClientRecord, field: string, value: Value): PutBody {
    ApplyInlineWith(AsWritten, r, field, value)
  }

  /** Identity, name and code are never touched, and only the part the field
      name selects can differ from the record. */
  lemma ApplyInlineTouchesOnlyField(r: ClientRecord, field: string, value: Value)
    ensures var b := ApplyInline(r, field, value);
            && b.id == r.id && b.moduleName == r.moduleName && b.moduleCode == r.moduleCode
            && (field != "lectureHours" ==> b.lectureHours == HoursValue(r.lectureHours))
            && (field != "attendedHours" ==> b.attendedHours == HoursValue(r.attendedHours))
            && (!StartsWith(field, AssignmentPrefix) ==> b.assignments == r.assignments)
            && (!StartsWith(field, LabPrefix) ==> b.labs == r.labs)
  {
    DecodeFieldClassifies(field);
  }

  /** The body the page evidently means to send: a cleared marks input stays
      `null`. */
  function ApplyInlineIntended(r: ClientRecord, field: string, value: Value): (b: PutBody)
    ensures DecodeField(field).OtherField? ==> b == BodyOf(r)
  {
    ApplyInlineWith(Intended, r, field, value)
  }

  /** As written, a marks edit from the card sets that assignment's marks to
      what the card computed, except that a cleared input is stored as 0. */
  lemma CardMarksAsWritten(r: ClientRecord, i: nat, input: string)
    requires i < ArrayIndexLimit
    ensures var e := MarksEdit(i, input);
            ApplyInline(r, e.field, e.value)
            == BodyOf(r).(assignments := Some(SetProp(ListOrEmpty(r.assignments), i, "marks",
                                                       if input == "" then Num(0) else MarksValue(input))))
  {
    DecodeAssignmentPath(i);
    var e := MarksEdit(i, input);
    assert InlineMarksAsWritten(e.value) == if input == "" then Num(0) else MarksValue(input);
  }

  /** Clearing an assignment's marks on the card stores 0 in that
      assignment, not `null`. */
  lemma ClearedMarksStoredAsZero(r: ClientRecord, i: nat)
    requires i < ArrayIndexLimit
    ensures var b := ApplyInline(r, MarksEdit(i, "").field, MarksEdit(i, "").value);
            && MarksEdit(i, "").value == Null
            && b.assignments.Some? && i < |b.assignments.value| && b.assignments.value[i].Item?
            && Get(b.assignments.value[i].props, "marks") == Num(0)
  {
    CardMarksAsWritten(r, i, "");
  }

  /** With the intended conversion a marks edit from the card sets exactly
      that assignment's marks to the value the card computed, a cleared input
      included; the rest of the body is the record. */
  lemma CardMarksRoundTrip(r: ClientRecord, i: nat, input: string)
    requires i < ArrayIndexLimit
    ensures var e := MarksEdit(i, input);
            ApplyInlineIntended(r, e.field, e.value)
            == BodyOf(r).(assignments := Some(SetProp(ListOrEmpty(r.assignments), i, "marks", MarksValue(input))))
  {
    DecodeAssignmentPath(i);
    InlineMarksKeepsCardValue(input);
  }

  /** A lab toggle from the card sets exactly that lab's flag. */
  lemma CardLabRoundTrip(r: ClientRecord, i: nat, checked: bool)
    requires i < ArrayIndexLimit
    ensures var e := LabToggle(i, checked);
            ApplyInline(r, e.field, e.value)
            == BodyOf(r).(labs := Some(SetProp(ListOrEmpty(r.labs), i, "completed", Bool(checked))))
  {
    DecodeLabPath(i);
  }

  /** The attendance buttons change only `attendedHours`. */
  lemma CardCounterRoundTrip(r: ClientRecord, attended: int)
    ensures ApplyInline(r, Increase(attended).field, Increase(attended).value)
            == BodyOf(r).(attendedHours := Num(attended + 1))
    ensures ApplyInline(r, Decrease(attended).field, Decrease(attended).value)
            == BodyOf(r).(attendedHours := Num(if attended > 1 then attended - 1 else 0))
  {
  }

  /** A field name the page does not recognise sends the record unchanged. */
  lemma UnknownFieldUnchanged(r: ClientRecord, field: string, value: Value)
    requires field != "attendedHours" && field != "lectureHours"
    requires !StartsWith(field, AssignmentPrefix) && !StartsWith(field, LabPrefix)
    ensures ApplyInline(r, field, value) == BodyOf(r)
  {
  }

  // ---------------------------------------------------------------------------
  // The page state

  /** An array of assignment or lab objects, shared by reference between the
      page state and the copy the inline update writes to. */
  class EntryList {
    var slots: seq<Slot>

    constructor (slots: seq<Slot>)
      ensures this.slots == slots
    {
      this.slots := slots;
    }

    /** `if (!arr[i]) arr[i] = {}; arr[i][prop] = v;` in place. */
    method Assign(i: nat, prop: string, v: Value)
      modifies this
      ensures slots == SetProp(old(slots), i, prop, v)
    {
      if i >= |slots| {
        slots := slots + seq(i + 1 - |slots|, _ => Hole);
      }
      if slots[i].Hole? {
        slots := slots[i := Item(map[])];
      }
      slots := slots[i := Item(slots[i].props[prop := v])];
    }
  }

  /** A module as the page state holds it; the lists are objects. */
  datatype ClientModule = ClientModule(
    id: string,
    moduleName: Option<string>,
    moduleCode: Option<string>,
    lectureHours: Option<int>,
    attendedHours: Option<int>,
    assignments: Option<EntryList>,
    labs: Option<EntryList>)

  function ListsOf(m: ClientModule): set<EntryList> {
    (if m.assignments.Some? then {m.assignments.value} else {})
    + (if m.labs.Some? then {m.labs.value} else {})
  }

  /** The module's value at this moment. */
  function Snapshot(m: ClientModule): ClientRecord
    reads ListsOf(m)
  {
    ClientRecord(m.id, m.moduleName, m.moduleCode, m.lectureHours, m.attendedHours,
                 if m.assignments.Some? then Some(m.assignments.value.slots) else None,
                 if m.labs.Some? then Some(m.labs.value.slots) else None)
  }

  /** The list object an edit writes into, when the module has one. */
  function WrittenList(m: ClientModule, field: string): Option<EntryList> {
    match DecodeField(field)
    case AssignmentField(_, _) => m.assignments
    case LabField(_, _) => m.labs
    case _ => None
  }

  /** `modules.find(m => m._id === id)`, as a position. */
  function FindModule(modules: seq<ClientModule>, id: string): (r: Option<nat>)
    ensures r.Some? ==> r.value < |modules| && modules[r.value].id == id
    ensures r.None? ==> forall k :: 0 <= k < |modules| ==> modules[k].id != id
  {
    if modules == [] then None
    else if modules[0].id == id then Some(0)
    else match FindModule(modules[1..], id)
      case None => None
      case Some(k) => Some(k + 1)
  }

  /** `prev.filter(module => module._id !== id)`. */
  function RemoveById(modules: seq<ClientModule>, id: string): seq<ClientModule> {
    if modules == [] then []
    else (if modules[0].id != id then [modules[0]] else []) + RemoveById(modules[1..], id)
  }

  /** The filtered list holds exactly the other modules. */
  lemma {:induction false} RemoveByIdExact(modules: seq<ClientModule>, id: string)
    ensures forall m :: m in RemoveById(modules, id) <==> m in modules && m.id != id
  {
    if modules != [] {
      RemoveByIdExact(modules[1..], id);
      assert modules == [modules[0]] + modules[1..];
    }
  }

  /** Filtering keeps the order: the filter of a concatenation is the
      concatenation of the filters. */
  lemma {:induction false} RemoveByIdAppend(a: seq<ClientModule>, b: seq<ClientModule>, id: string)
    ensures RemoveById(a + b, id) == RemoveById(a, id) + RemoveById(b, id)
  {
    if a != [] {
      RemoveByIdAppend(a[1..], b, id);
      assert (a + b)[0] == a[0];
      assert (a + b)[1..] == a[1..] + b;
    } else {
      assert a + b == b;
    }
  }

  /** Deleting twice is deleting once. */
  lemma {:induction false} RemoveByIdIdempotent(modules: seq<ClientModule>, id: string)
    ensures RemoveById(RemoveById(modules, id), id) == RemoveById(modules, id)
  {
    if modules != [] {
      RemoveByIdIdempotent(modules[1..], id);
      if modules[0].id != id {
        var r := RemoveById(modules, id);
        assert r == [modules[0]] + RemoveById(modules[1..], id);
        assert r[0] == modules[0] && r[1..] == RemoveById(modules[1..], id);
      } else {
        assert RemoveById(modules, id) == RemoveById(modules[1..], id);
      }
    }
  }

  /** `if (!arr) arr = []; if (!arr[i]) arr[i] = {}; arr[i][prop] = v;`: the
      module's own list is written in place; a missing one is created on the
      copy. Returns the list's contents afterwards. */
  method WriteList(list: Option<EntryList>, index: Option<nat>, prop: string, v: Value) returns (slots: seq<Slot>)
    modifies if list.Some? then {list.value} else {}
    ensures slots == WriteElement(if list.Some? then old(list.value.slots) else [], index, prop, v)
    ensures list.Some? ==> list.value.slots == slots
  {
    var target: EntryList;
    if list.Some? {
      target := list.value;
    } else {
      target := new EntryList([]);
    }
    if index.Some? {
      target.Assign(index.value, prop, v);
    }
    slots := target.slots;
  }

  /** The body of `handleInlineUpdate` once the module is found: a shallow
      copy of the module with the edit applied. Only the list the edit names
      is written, in place. */
  method EditCopy(m: ClientModule, field: string, value: Value) returns (body: PutBody)
    modifies ListsOf(m)
    ensures body == ApplyInline(old(Snapshot(m)), field, value)
    ensures forall l :: l in ListsOf(m) && Some(l) != WrittenList(m, field) ==> l.slots == old(l.slots)
    ensures WrittenList(m, field).Some? && DecodeField(field).AssignmentField?
            ==> WrittenList(m, field).value.slots == body.assignments.value
    ensures WrittenList(m, field).Some? && DecodeField(field).LabField?
            ==> WrittenList(m, field).value.slots == body.labs.value
  {
    ghost var before := Snapshot(m);
    body := PutBody(m.id, m.moduleName, m.moduleCode, HoursValue(m.lectureHours), HoursValue(m.attendedHours),
                    if m.assignments.Some? then Some(m.assignments.value.slots) else None,
                    if m.labs.Some? then Some(m.labs.value.slots) else None);
    assert body == BodyOf(before);
    assert ApplyInline(before, field, value) == ApplyInlineWith(AsWritten, before, field, value);
    match DecodeField(field) {
    case HoursField(name) =>
      body := if name == "attendedHours" then body.(attendedHours := value) else body.(lectureHours := value);
    case AssignmentField(index, prop) =>
      var slots := WriteList(m.assignments, index, prop, if prop == "marks" then ConvertMarks(AsWritten, value) else value);
      body := body.(assignments := Some(slots));
    case LabField(index, prop) =>
      var slots := WriteList(m.labs, index, prop, if prop == "completed" then Bool(Truthy(value)) else value);
      body := body.(labs := Some(slots));
    case OtherField =>
    }
  }

  /** The page: its module list and its error message. */
  class HomePage {
    var modules: seq<ClientModule>
    var error: Option<string>

    constructor (modules: seq<ClientModule>)
      ensures this.modules == modules && error == None
    {
      this.modules := modules;
      error := None;
    }

    /** Every list object the page state refers to. */
    function AllLists(): set<EntryList>
      reads this
    {
      set m, l | m in modules && l in ListsOf(m) :: l
    }

    /** `handleInlineUpdate`: builds the request body from a shallow copy of
        the module. The module's own list is written in place, so the page
        state sees the edit whether or not the server accepts it; a list the
        module lacks is created on the copy only. `ok` is whether the server
        accepted the request. */
    method InlineUpdate(moduleId: string, field: string, value: Value, ok: bool) returns (put: Option<PutBody>)
      modifies AllLists(), this`error
      ensures modules == old(modules)
      ensures match FindModule(modules, moduleId)
              case None =>
                && put == None && error == Some(NotFoundText)
                && forall l :: l in old(AllLists()) ==> l.slots == old(l.slots)
              case Some(k) =>
                var m := modules[k];
                && put == Some(ApplyInline(old(Snapshot(m)), field, value))
                && error == (if ok then old(error) else Some(UpdateFailedText))
                && (forall l :: l in old(AllLists()) && Some(l) != WrittenList(m, field) ==> l.slots == old(l.slots))
                && (WrittenList(m, field).Some? && DecodeField(field).AssignmentField?
                    ==> WrittenList(m, field).value.slots == put.value.assignments.value)
                && (WrittenList(m, field).Some? && DecodeField(field).LabField?
                    ==> WrittenList(m, field).value.slots == put.value.labs.value)
    {
      var found := FindModule(modules, moduleId);
      if found.None? {
        error := Some(NotFoundText);
        return None;
      }
      var m := modules[found.value];
      assert ListsOf(m) <= AllLists();
      var body := EditCopy(m, field, value);
      put := Some(body);
      if !ok {
        error := Some(UpdateFailedText);
      }
    }

    /** `handleDeleteModule`: a missing id is refused before any request; a
        refused request shows the server's message (or a default); an
        accepted one removes every module with that id, keeping the order. */
    method DeleteModule(moduleId: Option<string>, ok: bool, message: Option<string>)
      modifies this`modules, this`error
      ensures moduleId.None? || moduleId.value == ""
              ==> error == Some(MissingIdText) && modules == old(modules)
      ensures moduleId.Some? && moduleId.value != "" && !ok
              ==> && error == Some(if message.Some? && message.value != "" then message.value else DeleteFailedText)
                  && modules == old(modules)
      ensures moduleId.Some? && moduleId.value != "" && ok
              ==> error == None && modules == RemoveById(old(modules), moduleId.value)
    {
      error := None;
      if moduleId.None? || moduleId.value == "" {
        error := Some(MissingIdText);
        return;
      }
      if !ok {
        error := Some(if message.Some? && message.value != "" then message.value else DeleteFailedText);
        return;
      }
      modules := RemoveById(modules, moduleId.value);
    }
  }
}
