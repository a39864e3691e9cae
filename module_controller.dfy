/** The module handlers of the backend (create, list, get, update, delete)
    over the module collection. Every handler filters on the caller's id, so a
    record of another user looks exactly like a missing one. */
module ModuleController {
  import opened Optional
  import opened Text
  import opened ModuleSchema

  /** The fields of a create or update request body; `None` is a field the
      client left out. */
  datatype ModuleBody = ModuleBody(
    moduleName: Option<string>,
    moduleCode: Option<string>,
    lectureHours: Option<int>,
    attendedHours: Option<int>)

  /** A record as serialised: with the `attendancePercentage` virtual. */
  datatype ModuleJson = ModuleJson(record: ModuleDoc, attendancePercentage: int)

  /** Why a handler answered 500; the reply carries the error's message. */
  datatype Fault = DuplicateKey | InvalidUpdate(errors: seq<string>)

  datatype Body =
    | Message(text: string)
    | ValidationFailed(text: string, errors: seq<string>)
    | ServerError(text: string, cause: Fault)
    | Record(json: ModuleJson)
    | Records(list: seq<ModuleJson>)

  datatype Reply = Reply(status: int, body: Body)

  const RequiredText := "Module name and code are required"
  const DuplicateText := "Module code already exists for this user"
  const ValidationText := "Validation failed"
  const NotFoundText := "Module not found"
  const DeletedText := "Module deleted successfully"
  const ServerErrorText := "Server error"

  function ToJson(d: ModuleDoc): ModuleJson {
    ModuleJson(d, AttendancePercentage(d.lectureHours, d.attendedHours))
  }

  function JsonList(docs: seq<ModuleDoc>): (r: seq<ModuleJson>)
    ensures |r| == |docs|
    ensures forall i :: 0 <= i < |docs| ==> r[i] == ToJson(docs[i])
  {
    seq(|docs|, i requires 0 <= i < |docs| => ToJson(docs[i]))
  }

  /** `!field` for a string field of the body: missing or empty. */
  predicate Falsy(s: Option<string>) {
    s.None? || s.value == ""
  }

  /** `hours || 0`. */
  function HoursOrZero(h: Option<int>): int {
    if h.Some? then h.value else 0
  }

  /** Two records that collide on the unique (moduleCode, user) index. */
  predicate SameKey(a: ModuleDoc, b: ModuleDoc) {
    a.moduleCode == b.moduleCode && a.user == b.user
  }

  /** What the collection always satisfies: every record well formed, ids
      fresh below `nextId` and distinct, and no two records sharing a code and
      an owner. */
  predicate TableInvariant(docs: seq<ModuleDoc>, nextId: ModuleId) {
    && (forall i :: 0 <= i < |docs| ==> WellFormed(docs[i]) && docs[i].id < nextId)
    && (forall i, j :: 0 <= i < j < |docs| ==> docs[i].id != docs[j].id && !SameKey(docs[i], docs[j]))
  }

  /** Whether the caller already holds a record with this code. */
  predicate CodeTaken(docs: seq<ModuleDoc>, code: string, user: UserId) {
    exists i :: 0 <= i < |docs| && docs[i].moduleCode == code && docs[i].user == user
  }

  /** Whether the record `id` exists and belongs to `user`. */
  predicate Owns(docs: seq<ModuleDoc>, id: ModuleId, user: UserId) {
    exists i :: 0 <= i < |docs| && docs[i].id == id && docs[i].user == user
  }

  /** `findOne({ _id: id, user })`: the position of the first match. */
  function FindOwned(docs: seq<ModuleDoc>, id: ModuleId, user: UserId): (r: Option<nat>)
    ensures r.Some? <==> Owns(docs, id, user)
    ensures r.Some? ==> r.value < |docs| && docs[r.value].id == id && docs[r.value].user == user
  {
    if |docs| == 0 then None
    else if docs[0].id == id && docs[0].user == user then Some(0)
    else
      assert forall i :: 1 <= i < |docs| ==> docs[i] == docs[1..][i - 1];
      match FindOwned(docs[1..], id, user)
      case None => None
      case Some(k) => Some(k + 1)
  }

  /** `find({ user })`: the caller's records in collection order. */
  function OwnedBy(docs: seq<ModuleDoc>, user: UserId): seq<ModuleDoc> {
    if |docs| == 0 then []
    else (if docs[0].user == user then [docs[0]] else []) + OwnedBy(docs[1..], user)
  }

  /** The list holds exactly the caller's records. */
  lemma {:induction false} OwnedByExact(docs: seq<ModuleDoc>, user: UserId)
    ensures forall d :: d in OwnedBy(docs, user) <==> d in docs && d.user == user
  {
    if |docs| > 0 {
      OwnedByExact(docs[1..], user);
      assert docs == [docs[0]] + docs[1..];
    }
  }

  /** The list keeps collection order: listing a concatenation lists each
      part in turn. */
  lemma {:induction false} OwnedByAppend(a: seq<ModuleDoc>, b: seq<ModuleDoc>, user: UserId)
    ensures OwnedBy(a + b, user) == OwnedBy(a, user) + OwnedBy(b, user)
  {
    if |a| > 0 {
      OwnedByAppend(a[1..], b, user);
      assert (a + b)[0] == a[0];
      assert (a + b)[1..] == a[1..] + b;
    } else {
      assert a + b == b;
    }
  }

  /** Record the new record `d` as the last one keeps the invariant when its
      id is fresh and its (code, owner) pair is free. */
  lemma AppendKeepsInvariant(docs: seq<ModuleDoc>, nextId: ModuleId, d: ModuleDoc)
    requires TableInvariant(docs, nextId)
    requires WellFormed(d) && d.id == nextId && !CodeTaken(docs, d.moduleCode, d.user)
    ensures TableInvariant(docs + [d], nextId + 1)
  {
    var docs' := docs + [d];
    forall i, j | 0 <= i < j < |docs'|
      ensures docs'[i].id != docs'[j].id && !SameKey(docs'[i], docs'[j])
    {
      if j == |docs| {
        assert docs'[i] == docs[i];
      }
    }
  }

  /** Replacing one record keeps the invariant when the replacement keeps the
      id and collides with no other record. */
  lemma ReplaceKeepsInvariant(docs: seq<ModuleDoc>, nextId: ModuleId, k: nat, d: ModuleDoc)
    requires TableInvariant(docs, nextId) && k < |docs|
    requires WellFormed(d) && d.id == docs[k].id
    requires forall j :: 0 <= j < |docs| && j != k ==> !SameKey(docs[j], d)
    ensures TableInvariant(docs[k := d], nextId)
  {
  }

  /** Removing one record keeps the invariant. */
  lemma RemoveKeepsInvariant(docs: seq<ModuleDoc>, nextId: ModuleId, k: nat)
    requires TableInvariant(docs, nextId) && k < |docs|
    ensures TableInvariant(docs[..k] + docs[k + 1..], nextId)
  {
    var r := docs[..k] + docs[k + 1..];
    assert forall i :: 0 <= i < |r| ==> r[i] == docs[if i < k then i else i + 1];
  }

  /** The record create saves: the setters applied and missing hours 0. */
  function NewRecord(id: ModuleId, caller: UserId, name: string, code: string, body: ModuleBody): ModuleDoc {
    ModuleDoc(id, Trim(name), NormaliseCode(code), HoursOrZero(body.lectureHours), HoursOrZero(body.attendedHours), caller)
  }

  /** The validation messages of an update: only the supplied fields are
      validated, after the setters. */
  function UpdateErrors(body: ModuleBody): seq<string> {
    FieldErrors(
      if body.moduleName.Some? then Trim(body.moduleName.value) else "x",
      if body.moduleCode.Some? then NormaliseCode(body.moduleCode.value) else "X",
      if body.lectureHours.Some? then body.lectureHours.value else 0,
      if body.attendedHours.Some? then body.attendedHours.value else 0)
  }

  /** The record after an update: supplied fields replaced (normalised), the
      rest, the id and the owner kept. */
  function Patched(d: ModuleDoc, body: ModuleBody): ModuleDoc {
    d.(moduleName := if body.moduleName.Some? then Trim(body.moduleName.value) else d.moduleName,
       moduleCode := if body.moduleCode.Some? then NormaliseCode(body.moduleCode.value) else d.moduleCode,
       lectureHours := if body.lectureHours.Some? then body.lectureHours.value else d.lectureHours,
       attendedHours := if body.attendedHours.Some? then body.attendedHours.value else d.attendedHours)
  }

  /** A validated update of a well-formed record gives a well-formed record. */
  lemma PatchedWellFormed(d: ModuleDoc, body: ModuleBody)
    requires WellFormed(d) && UpdateErrors(body) == []
    ensures WellFormed(Patched(d, body))
  {
    if body.moduleName.Some? {
      TrimEdges(body.moduleName.value);
    }
    if body.moduleCode.Some? {
      NormaliseCodeIsNormal(body.moduleCode.value);
    }
  }

  /** The module collection together with the id the next insert receives. */
  class ModuleTable {
    var docs: seq<ModuleDoc>
    var nextId: ModuleId

    predicate Valid()
      reads this
    {
      TableInvariant(docs, nextId)
    }

    constructor ()
      ensures Valid() && docs == []
    {
      docs := [];
      nextId := 0;
    }

    /** `Module.create` once the validators and the unique index have
        accepted the record: it is stored under the next id. */
    method Insert(d: ModuleDoc)
      requires Valid() && WellFormed(d) && d.id == nextId && !CodeTaken(docs, d.moduleCode, d.user)
      modifies this
      ensures Valid() && docs == old(docs) + [d] && nextId == old(nextId) + 1
    {
      AppendKeepsInvariant(docs, nextId, d);
      docs := docs + [d];
      nextId := nextId + 1;
    }

    /** `createModule`. */
    method Create(caller: UserId, body: ModuleBody) returns (reply: Reply)
      requires Valid()
      modifies this
      ensures Valid()
      ensures Falsy(body.moduleName) || Falsy(body.moduleCode)
              ==> reply == Reply(400, Message(RequiredText)) && docs == old(docs)
      ensures !Falsy(body.moduleName) && !Falsy(body.moduleCode) ==>
              var d := NewRecord(old(nextId), caller, body.moduleName.value, body.moduleCode.value, body);
              if CodeTaken(old(docs), d.moduleCode, caller) then
                reply == Reply(400, Message(DuplicateText)) && docs == old(docs)
              else if FieldErrors(d.moduleName, d.moduleCode, d.lectureHours, d.attendedHours) != [] then
                && reply == Reply(400, ValidationFailed(ValidationText, FieldErrors(d.moduleName, d.moduleCode, d.lectureHours, d.attendedHours)))
                && docs == old(docs)
              else
                reply == Reply(201, Record(ToJson(d))) && docs == old(docs) + [d]
    {
      if Falsy(body.moduleName) || Falsy(body.moduleCode) {
        return Reply(400, Message(RequiredText));
      }
      var d := NewRecord(nextId, caller, body.moduleName.value, body.moduleCode.value, body);
      if CodeTaken(docs, d.moduleCode, caller) {
        return Reply(400, Message(DuplicateText));
      }
      var errors := FieldErrors(d.moduleName, d.moduleCode, d.lectureHours, d.attendedHours);
      if errors != [] {
        return Reply(400, ValidationFailed(ValidationText, errors));
      }
      assert WellFormed(d) by {
        ValidatorsAcceptIff(nextId, body.moduleName.value, body.moduleCode.value, d.lectureHours, d.attendedHours, caller);
      }
      Insert(d);
      reply := Reply(201, Record(ToJson(d)));
    }

    /** `getAllModules`: exactly the caller's records, in collection order. */
    method GetAll(caller: UserId) returns (reply: Reply)
      ensures reply.status == 200 && reply.body.Records?
      ensures forall j :: j in reply.body.list <==> (j.record in docs && j.record.user == caller
                                                   && j == ToJson(j.record))
      ensures reply.body.list == JsonList(OwnedBy(docs, caller))
    {
      var mine := OwnedBy(docs, caller);
      OwnedByExact(docs, caller);
      reply := Reply(200, Records(JsonList(mine)));
    }

    /** `getModule`: the record only when it exists and is the caller's. */
    method Get(caller: UserId, id: ModuleId) returns (reply: Reply)
      ensures Owns(docs, id, caller) <==> reply.status == 200
      ensures reply.status == 200 ==> reply.body.Record? && reply.body.json.record in docs
                                      && reply.body.json.record.id == id && reply.body.json.record.user == caller
                                      && reply.body.json == ToJson(reply.body.json.record)
      ensures reply.status != 200 ==> reply == Reply(404, Message(NotFoundText))
    {
      match FindOwned(docs, id, caller)
      case None =>
        reply := Reply(404, Message(NotFoundText));
      case Some(k) =>
        reply := Reply(200, Record(ToJson(docs[k])));
    }

    /** `updateModule`: the supplied fields are validated first (an invalid
        update is a thrown error, hence 500), then the caller's record is
        looked up (404), then written; a (code, owner) collision with another
        record is the unique index's error, also 500. */
    method Update(caller: UserId, id: ModuleId, body: ModuleBody) returns (reply: Reply)
      requires Valid()
      modifies this
      ensures Valid() && nextId == old(nextId)
      ensures UpdateErrors(body) != []
              ==> reply == Reply(500, ServerError(ServerErrorText, InvalidUpdate(UpdateErrors(body)))) && docs == old(docs)
      ensures UpdateErrors(body) == [] && !Owns(old(docs), id, caller)
              ==> reply == Reply(404, Message(NotFoundText)) && docs == old(docs)
      ensures UpdateErrors(body) == [] && Owns(old(docs), id, caller) ==>
              var k := FindOwned(old(docs), id, caller).value;
              var d := Patched(old(docs)[k], body);
              if exists j :: 0 <= j < |old(docs)| && j != k && SameKey(old(docs)[j], d) then
                reply == Reply(500, ServerError(ServerErrorText, DuplicateKey)) && docs == old(docs)
              else
                reply == Reply(200, Record(ToJson(d))) && docs == old(docs)[k := d]
    {
      var errors := UpdateErrors(body);
      if errors != [] {
        return Reply(500, ServerError(ServerErrorText, InvalidUpdate(errors)));
      }
      var found := FindOwned(docs, id, caller);
      if found.None? {
        return Reply(404, Message(NotFoundText));
      }
      var k := found.value;
      var d := Patched(docs[k], body);
      if exists j :: 0 <= j < |docs| && j != k && SameKey(docs[j], d) {
        return Reply(500, ServerError(ServerErrorText, DuplicateKey));
      }
      PatchedWellFormed(docs[k], body);
      ReplaceKeepsInvariant(docs, nextId, k, d);
      docs := docs[k := d];
      reply := Reply(200, Record(ToJson(d)));
    }

    /** `deleteModule`: removes only the caller's matching record and answers
        with a confirmation, not the record. */
    method Delete(caller: UserId, id: ModuleId) returns (reply: Reply)
      requires Valid()
      modifies this
      ensures Valid() && nextId == old(nextId)
      ensures !Owns(old(docs), id, caller) ==> reply == Reply(404, Message(NotFoundText)) && docs == old(docs)
      ensures Owns(old(docs), id, caller) ==>
              var k := FindOwned(old(docs), id, caller).value;
              reply == Reply(200, Message(DeletedText)) && docs == old(docs)[..k] + old(docs)[k + 1..]
    {
      var found := FindOwned(docs, id, caller);
      if found.None? {
        return Reply(404, Message(NotFoundText));
      }
      var k := found.value;
      RemoveKeepsInvariant(docs, nextId, k);
      docs := docs[..k] + docs[k + 1..];
      reply := Reply(200, Message(DeletedText));
    }
  }

  /** A record of another user is never matched: get, update and delete
      report it as missing. */
  lemma ForeignRecordIsMissing(docs: seq<ModuleDoc>, nextId: ModuleId, k: nat, caller: UserId)
    requires TableInvariant(docs, nextId) && k < |docs| && docs[k].user != caller
    ensures !Owns(docs, docs[k].id, caller)
  {
  }

  /** Deleting removes exactly the matched record: every other record stays
      and the deleted id is gone. */
  lemma DeleteRemovesOnlyMatch(docs: seq<ModuleDoc>, nextId: ModuleId, k: nat)
    requires TableInvariant(docs, nextId) && k < |docs|
    ensures forall d :: d in docs[..k] + docs[k + 1..] <==> d in docs && d.id != docs[k].id
  {
    var r := docs[..k] + docs[k + 1..];
    forall d | d in docs && d.id != docs[k].id ensures d in r {
      var i :| 0 <= i < |docs| && docs[i] == d;
      if i < k { assert r[i] == d; } else { assert r[i - 1] == d; }
    }
  }

  /** Codes are unique per owner only: a record of one user does not block
      the same code for another user. */
  lemma CodesArePerOwner(docs: seq<ModuleDoc>, d: ModuleDoc, code: string, other: UserId)
    requires d.user != other
    ensures CodeTaken(docs + [d], code, other) == CodeTaken(docs, code, other)
  {
    if CodeTaken(docs + [d], code, other) {
      var i :| 0 <= i < |docs| + 1 && (docs + [d])[i].moduleCode == code && (docs + [d])[i].user == other;
      assert i < |docs|;
      assert docs[i] == (docs + [d])[i];
    }
    if CodeTaken(docs, code, other) {
      var i :| 0 <= i < |docs| && docs[i].moduleCode == code && docs[i].user == other;
      assert (docs + [d])[i] == docs[i];
    }
  }
}
