/**
 * The examination-session lifecycle over the two tables of
 * `SessionSchema`: creating a session (with data backfilled from the
 * hospital information system, HIS), saving the medical record of a
 * session as an upsert, and finalizing it. The HIS, the clock and random
 * id suffixes are parameters.
 */
module SessionService {
  import opened Wrappers
  import opened JsValues
  import opened SessionSchema
  import Decimal
  import Text

  // ---------------- The HIS, as seen by the service ----------------

  datatype HisContext = HisContext(medicalHistory: Option<string>)

  /** The current-session data the HIS returns; `patientInfo` is a JSON object. */
  datatype HisData = HisData(visitId: Option<string>, patientInfo: map<string, Json>, context: Option<HisContext>)

  /** A reply of `getCurrentSession`: a success flag and optional data. */
  datatype HisResponse = HisResponse(success: bool, data: Option<HisData>)

  /** The body sent with `updateVisit`. */
  datatype MedicalPayload = MedicalPayload(
    subjective: string,
    objective: string,
    assessment: string,
    plan: string,
    icdCodes: seq<string>)

  /** A call the service makes to the HIS. */
  datatype HisCall = UpdateVisit(visitId: string, payload: MedicalPayload)

  // ---------------- Creating a session ----------------

  datatype SessionInput = SessionInput(
    visitId: Option<string>,
    patientName: string,
    patientInfo: Option<map<string, Json>>,
    medicalHistory: Option<string>)

  /** The HIS is asked only for a visit id or when no patient name is given. */
  predicate ConsultsHis(input: SessionInput) {
    Truthy(input.visitId) || input.patientName == ""
  }

  /** The HIS data the service goes on: none unless consulted, successful and carrying data. */
  function HisDataOf(input: SessionInput, response: HisResponse): Option<HisData> {
    if ConsultsHis(input) && response.success then response.data else None
  }

  /** `hisData?.patientInfo.name`, when it is a string. */
  function HisName(his: Option<HisData>): Option<string> {
    if his.Some? && "name" in his.value.patientInfo && his.value.patientInfo["name"].JString?
    then Some(his.value.patientInfo["name"].s)
    else None
  }

  function HisVisitId(his: Option<HisData>): Option<string> {
    if his.Some? then his.value.visitId else None
  }

  function HisMedicalHistory(his: Option<HisData>): Option<string> {
    if his.Some? && his.value.context.Some? then his.value.context.value.medicalHistory else None
  }

  /** `sess_<stamp>_<suffix>`. */
  function SessionId(stamp: nat, suffix: string): string {
    "sess_" + Decimal.NatToDecimal(stamp) + "_" + suffix
  }

  /** The row createSession inserts: each field from the input, else the HIS, else its default. */
  function NewSession(input: SessionInput, his: Option<HisData>, id: string, now: int): Session {
    Session(
      id,
      Or(input.visitId, OrNull(HisVisitId(his))),
      if input.patientName != "" then input.patientName
      else if Truthy(HisName(his)) then HisName(his).value
      else "Unknown",
      if input.patientInfo.Some? then JObject(input.patientInfo.value)
      else if his.Some? then JObject(his.value.patientInfo)
      else JObject(map[]),
      Or(input.medicalHistory, OrNull(HisMedicalHistory(his))),
      Active,
      now, now)
  }

  /**
   * The precedence of each backfilled field: a truthy input value is kept;
   * otherwise a truthy HIS value; otherwise the default. No empty string is
   * ever stored.
   */
  lemma NewSessionPrecedence(input: SessionInput, his: Option<HisData>, id: string, now: int)
    ensures var s := NewSession(input, his, id, now);
      && s.id == id && s.status == Active && s.createdAt == s.updatedAt == now
      && (Truthy(input.visitId) ==> s.visitId == input.visitId)
      && (!Truthy(input.visitId) ==> s.visitId == OrNull(HisVisitId(his)))
      && (!Truthy(input.visitId) && Truthy(HisVisitId(his)) ==> s.visitId == HisVisitId(his))
      && (s.visitId == None <==> !Truthy(input.visitId) && !Truthy(HisVisitId(his)))
      && s.visitId != Some("")
      && (input.patientName != "" ==> s.patientName == input.patientName)
      && (input.patientName == "" && Truthy(HisName(his)) ==> s.patientName == HisName(his).value)
      && (input.patientName == "" && !Truthy(HisName(his)) ==> s.patientName == "Unknown")
      && s.patientName != ""
      && (input.patientInfo.Some? ==> s.patientInfo == JObject(input.patientInfo.value))
      && (input.patientInfo.None? && his.Some? ==> s.patientInfo == JObject(his.value.patientInfo))
      && (input.patientInfo.None? && his.None? ==> s.patientInfo == JObject(map[]))
      && (Truthy(input.medicalHistory) ==> s.medicalHistory == input.medicalHistory)
      && (!Truthy(input.medicalHistory) && Truthy(HisMedicalHistory(his)) ==> s.medicalHistory == HisMedicalHistory(his))
      && (s.medicalHistory == None <==> !Truthy(input.medicalHistory) && !Truthy(HisMedicalHistory(his)))
      && s.medicalHistory != Some("")
  {
  }

  /** When the HIS is not consulted its reply makes no difference. */
  lemma HisIgnoredUnlessConsulted(input: SessionInput, r1: HisResponse, r2: HisResponse, id: string, now: int)
    requires !ConsultsHis(input)
    ensures NewSession(input, HisDataOf(input, r1), id, now) == NewSession(input, HisDataOf(input, r2), id, now)
    ensures NewSession(input, HisDataOf(input, r1), id, now) == NewSession(input, None, id, now)
  {
  }

  /** An unsuccessful reply, or one without data, counts as no HIS data. */
  lemma FailedHisReplyIsNoData(input: SessionInput, response: HisResponse)
    requires !response.success || response.data.None?
    ensures HisDataOf(input, response) == None
  {
  }

  /**
   * Behind the create route, which refuses a blank patient name, the
   * given name is always stored and the HIS is consulted only for a visit id.
   */
  lemma RouteValidatedName(input: SessionInput, response: HisResponse, id: string, now: int)
    requires Text.Trim(input.patientName) != ""
    ensures NewSession(input, HisDataOf(input, response), id, now).patientName == input.patientName
    ensures ConsultsHis(input) <==> Truthy(input.visitId)
  {
  }

  // ---------------- Medical records ----------------

  datatype RecordInput = RecordInput(
    sessionId: string,
    subjective: Option<string>,
    objective: Option<string>,
    assessment: Option<string>,
    plan: Option<string>,
    icdCodes: Option<seq<string>>,
    status: RecordStatus)

  /** `rec_<stamp>_<suffix>`. */
  function RecordId(stamp: nat, suffix: string): string {
    "rec_" + Decimal.NatToDecimal(stamp) + "_" + suffix
  }

  /** The row inserted by a first save: falsy SOAP fields become NULL, the ICD list defaults to empty. */
  function NewRecord(input: RecordInput, id: string, now: int): MedicalRecord {
    MedicalRecord(
      id, input.sessionId,
      OrNull(input.subjective), OrNull(input.objective), OrNull(input.assessment), OrNull(input.plan),
      input.icdCodes.GetOr([]), input.status, now, now)
  }

  /**
   * A repeat save on the stored row: the supplied SOAP fields are
   * overwritten, absent ones kept; the ICD list, the status and `updatedAt`
   * are always written.
   */
  function MergeRecord(r: MedicalRecord, input: RecordInput, now: int): MedicalRecord {
    r.(subjective := PatchNullable(r.subjective, input.subjective),
       objective := PatchNullable(r.objective, input.objective),
       assessment := PatchNullable(r.assessment, input.assessment),
       plan := PatchNullable(r.plan, input.plan),
       icdCodes := input.icdCodes.GetOr([]),
       status := input.status,
       updatedAt := now)
  }

  /** What the first save stores. */
  lemma NewRecordFields(input: RecordInput, id: string, now: int)
    ensures var r := NewRecord(input, id, now);
      && r.id == id && r.sessionId == input.sessionId && r.status == input.status
      && r.createdAt == r.updatedAt == now
      && (input.icdCodes.None? ==> r.icdCodes == [])
      && (input.icdCodes.Some? ==> r.icdCodes == input.icdCodes.value)
      && KeptOrNull(r.subjective, input.subjective)
      && KeptOrNull(r.objective, input.objective)
      && KeptOrNull(r.assessment, input.assessment)
      && KeptOrNull(r.plan, input.plan)
      && r.subjective != Some("") && r.objective != Some("") && r.assessment != Some("") && r.plan != Some("")
  {
  }

  /** What a repeat save keeps and what it writes. */
  lemma MergeRecordFields(r: MedicalRecord, input: RecordInput, now: int)
    ensures var m := MergeRecord(r, input, now);
      && m.id == r.id && m.sessionId == r.sessionId && m.createdAt == r.createdAt
      && m.status == input.status && m.updatedAt == now
      && m.icdCodes == (if input.icdCodes.Some? then input.icdCodes.value else [])
      && PatchedNullable(m.subjective, r.subjective, input.subjective)
      && PatchedNullable(m.objective, r.objective, input.objective)
      && PatchedNullable(m.assessment, r.assessment, input.assessment)
      && PatchedNullable(m.plan, r.plan, input.plan)
  {
  }

  /** There is no guard on the record status: a draft save turns a final record back into a draft. */
  lemma FinalRecordReopens(r: MedicalRecord, input: RecordInput, now: int)
    requires r.status == Final && input.status == Draft
    ensures MergeRecord(r, input, now).status == Draft
  {
  }

  /** The payload sent to the HIS: NULL SOAP fields read as empty text. */
  function Payload(r: MedicalRecord): MedicalPayload {
    MedicalPayload(OrEmpty(r.subjective), OrEmpty(r.objective), OrEmpty(r.assessment), OrEmpty(r.plan), r.icdCodes)
  }

  /** The HIS receives the typed text of a first save, an empty string for each field left out. */
  lemma PayloadOfNewRecord(input: RecordInput, id: string, now: int)
    ensures var p := Payload(NewRecord(input, id, now));
      && p.subjective == input.subjective.GetOr("") && p.objective == input.objective.GetOr("")
      && p.assessment == input.assessment.GetOr("") && p.plan == input.plan.GetOr("")
      && p.icdCodes == input.icdCodes.GetOr([])
  {
  }

  // ---------------- Queries ----------------

  /** `SELECT * FROM examination_sessions WHERE id = ? LIMIT 1`. */
  function FindSession(sessions: seq<Session>, id: string): (r: Option<Session>)
    ensures r.Some? ==> r.value in sessions && r.value.id == id
    ensures r.None? <==> !HasSession(sessions, id)
  {
    if sessions == [] then None
    else if sessions[0].id == id then Some(sessions[0])
    else
      var rest := FindSession(sessions[1..], id);
      assert HasSession(sessions, id) <==> HasSession(sessions[1..], id) by {
        if HasSession(sessions, id) {
          var k :| 0 <= k < |sessions| && sessions[k].id == id;
          assert sessions[1..][k - 1].id == id;
        }
        if HasSession(sessions[1..], id) {
          var k :| 0 <= k < |sessions[1..]| && sessions[1..][k].id == id;
          assert sessions[k + 1].id == id;
        }
      }
      rest
  }

  predicate HasRecordFor(records: seq<MedicalRecord>, sessionId: string) {
    exists k :: 0 <= k < |records| && records[k].sessionId == sessionId
  }

  predicate HasRecordId(records: seq<MedicalRecord>, id: string) {
    exists k :: 0 <= k < |records| && records[k].id == id
  }

  /** `SELECT * FROM medical_records WHERE session_id = ? LIMIT 1`. */
  function FindRecord(records: seq<MedicalRecord>, sessionId: string): (r: Option<MedicalRecord>)
    ensures r.Some? ==> r.value in records && r.value.sessionId == sessionId
    ensures r.None? <==> !HasRecordFor(records, sessionId)
  {
    if records == [] then None
    else if records[0].sessionId == sessionId then Some(records[0])
    else
      var rest := FindRecord(records[1..], sessionId);
      assert HasRecordFor(records, sessionId) <==> HasRecordFor(records[1..], sessionId) by {
        if HasRecordFor(records, sessionId) {
          var k :| 0 <= k < |records| && records[k].sessionId == sessionId;
          assert records[1..][k - 1].sessionId == sessionId;
        }
        if HasRecordFor(records[1..], sessionId) {
          var k :| 0 <= k < |records[1..]| && records[1..][k].sessionId == sessionId;
          assert records[k + 1].sessionId == sessionId;
        }
      }
      rest
  }

  /** With one record per session, the record found is the only one of that session. */
  lemma FindRecordUnique(records: seq<MedicalRecord>, sessionId: string)
    requires OneRecordPerSession(records)
    ensures FindRecord(records, sessionId).Some? ==>
              forall k :: 0 <= k < |records| && records[k].sessionId == sessionId ==> records[k] == FindRecord(records, sessionId).value
  {
  }

  // ---------------- State changes, as functions of the tables ----------------

  /** `UPDATE examination_sessions SET status, updated_at WHERE id = ?`: no check of the current status. */
  function SetStatus(sessions: seq<Session>, id: string, status: SessionStatus, now: int): (r: seq<Session>)
    ensures |r| == |sessions|
    ensures forall k :: 0 <= k < |sessions| ==>
              r[k] == if sessions[k].id == id then sessions[k].(status := status, updatedAt := now) else sessions[k]
  {
    seq(|sessions|, k requires 0 <= k < |sessions| =>
      if sessions[k].id == id then sessions[k].(status := status, updatedAt := now) else sessions[k])
  }

  /** A status update keeps the keys, and so every table invariant. */
  lemma SetStatusKeepsTables(sessions: seq<Session>, records: seq<MedicalRecord>, id: string, status: SessionStatus, now: int)
    requires TablesValid(sessions, records)
    ensures TablesValid(SetStatus(sessions, id, status, now), records)
  {
    var r := SetStatus(sessions, id, status, now);
    forall k | 0 <= k < |records|
      ensures HasSession(r, records[k].sessionId)
    {
      var j :| 0 <= j < |sessions| && sessions[j].id == records[k].sessionId;
      assert r[j].id == sessions[j].id;
    }
  }

  /** Any status can follow any status, and an unknown id changes nothing. */
  lemma NoTransitionGuard(sessions: seq<Session>, id: string, status: SessionStatus, now: int)
    ensures !HasSession(sessions, id) ==> SetStatus(sessions, id, status, now) == sessions
    ensures forall k :: 0 <= k < |sessions| && sessions[k].id == id ==>
              SetStatus(sessions, id, status, now)[k].status == status
              && SetStatus(sessions, id, status, now)[k].updatedAt == now
  {
  }

  /** The record a save leaves for its session: the merged row on a repeat save, a new row on the first. */
  function SavedRecord(records: seq<MedicalRecord>, input: RecordInput, id: string, now: int): (r: MedicalRecord)
    ensures r.sessionId == input.sessionId && r.status == input.status && r.updatedAt == now
    ensures FindRecord(records, input.sessionId).None? ==> r.id == id && r.createdAt == now
  {
    match FindRecord(records, input.sessionId)
    case Some(existing) => MergeRecord(existing, input, now)
    case None => NewRecord(input, id, now)
  }

  /** The records table after a save: an update by the existing row's id, or an insert. */
  function Upsert(records: seq<MedicalRecord>, input: RecordInput, id: string, now: int): (r: seq<MedicalRecord>)
    ensures FindRecord(records, input.sessionId).Some? ==> |r| == |records|
    ensures FindRecord(records, input.sessionId).None? ==> r == records + [NewRecord(input, id, now)]
  {
    match FindRecord(records, input.sessionId)
    case Some(existing) =>
      seq(|records|, k requires 0 <= k < |records| =>
        if records[k].id == existing.id then MergeRecord(records[k], input, now) else records[k])
    case None => records + [NewRecord(input, id, now)]
  }

  /**
   * A repeat save for a session updates its record in place: same id, same
   * `createdAt`, same number of records, every other record untouched.
   */
  lemma RepeatSaveUpdatesInPlace(records: seq<MedicalRecord>, input: RecordInput, id: string, now: int)
    requires UniqueRecordIds(records) && HasRecordFor(records, input.sessionId)
    ensures var existing := FindRecord(records, input.sessionId).value;
      && |Upsert(records, input, id, now)| == |records|
      && SavedRecord(records, input, id, now).id == existing.id
      && SavedRecord(records, input, id, now).createdAt == existing.createdAt
      && forall k :: 0 <= k < |records| ==>
           Upsert(records, input, id, now)[k] ==
             if records[k] == existing then SavedRecord(records, input, id, now) else records[k]
  {
    var existing := FindRecord(records, input.sessionId).value;
    var u := Upsert(records, input, id, now);
    forall k | 0 <= k < |records|
      ensures u[k] == if records[k] == existing then SavedRecord(records, input, id, now) else records[k]
    {
      var j :| 0 <= j < |records| && records[j] == existing;
      if records[k].id == existing.id {
        assert k == j;
      }
    }
  }

  /** The saved record is in the table afterwards. */
  lemma SavedRecordStored(records: seq<MedicalRecord>, input: RecordInput, id: string, now: int)
    requires UniqueRecordIds(records)
    ensures SavedRecord(records, input, id, now) in Upsert(records, input, id, now)
  {
    if HasRecordFor(records, input.sessionId) {
      RepeatSaveUpdatesInPlace(records, input, id, now);
      var existing := FindRecord(records, input.sessionId).value;
      var j :| 0 <= j < |records| && records[j] == existing;
      assert Upsert(records, input, id, now)[j] == SavedRecord(records, input, id, now);
    } else {
      var u := Upsert(records, input, id, now);
      assert u[|records|] == SavedRecord(records, input, id, now);
    }
  }

  /** A save keeps every table invariant, in particular one record per session. */
  lemma UpsertKeepsTables(sessions: seq<Session>, records: seq<MedicalRecord>, input: RecordInput, id: string, now: int)
    requires TablesValid(sessions, records)
    requires HasSession(sessions, input.sessionId) && !HasRecordId(records, id)
    ensures TablesValid(sessions, Upsert(records, input, id, now))
  {
    var u := Upsert(records, input, id, now);
    match FindRecord(records, input.sessionId)
    case Some(existing) =>
      forall k | 0 <= k < |records|
        ensures u[k].id == records[k].id && u[k].sessionId == records[k].sessionId
      {
      }
    case None =>
      assert u == records + [NewRecord(input, id, now)];
      forall k | 0 <= k < |records|
        ensures records[k].id != id && records[k].sessionId != input.sessionId
      {
      }
  }

  /** The HIS call finalizing makes: only for a stored session with a truthy visit id. */
  function FinalizeCall(sessions: seq<Session>, sessionId: string, record: MedicalRecord): (c: Option<HisCall>)
    ensures c.Some? <==> FindSession(sessions, sessionId).Some? && Truthy(FindSession(sessions, sessionId).value.visitId)
  {
    match FindSession(sessions, sessionId)
    case Some(s) =>
      if Truthy(s.visitId) then Some(UpdateVisit(s.visitId.value, Payload(record))) else None
    case None => None
  }

  /** With unique session ids, the HIS hears about the record exactly when its session has a truthy visit id. */
  lemma FinalizeCallFacts(sessions: seq<Session>, sessionId: string, record: MedicalRecord)
    requires UniqueSessionIds(sessions)
    ensures forall k :: 0 <= k < |sessions| && sessions[k].id == sessionId ==>
              (FinalizeCall(sessions, sessionId, record).Some? <==> Truthy(sessions[k].visitId))
              && (Truthy(sessions[k].visitId) ==>
                    FinalizeCall(sessions, sessionId, record) == Some(UpdateVisit(sessions[k].visitId.value, Payload(record))))
    ensures !HasSession(sessions, sessionId) ==> FinalizeCall(sessions, sessionId, record) == None
  {
    forall k | 0 <= k < |sessions| && sessions[k].id == sessionId
      ensures FindSession(sessions, sessionId) == Some(sessions[k])
    {
      var s := FindSession(sessions, sessionId).value;
      var j :| 0 <= j < |sessions| && sessions[j] == s;
      assert j == k;
    }
  }

  datatype SaveOutcome =
    | Saved(record: MedicalRecord)
    /** The insert of a first save names a session that does not exist. */
    | ForeignKeyViolation

  // ---------------- The tables ----------------

  class SessionStore {
    var sessions: seq<Session>
    var records: seq<MedicalRecord>

    ghost predicate Valid()
      reads this
    {
      TablesValid(sessions, records)
    }

    constructor ()
      ensures Valid() && sessions == [] && records == []
    {
      sessions := [];
      records := [];
    }

    /** createSession: inserts exactly one active session built from the input and the HIS reply. */
    method CreateSession(input: SessionInput, his: HisResponse, stamp: nat, suffix: string, now: int) returns (session: Session)
      requires Valid() && !HasSession(sessions, SessionId(stamp, suffix))
      modifies this
      ensures Valid()
      ensures session == NewSession(input, HisDataOf(input, his), SessionId(stamp, suffix), now)
      ensures sessions == old(sessions) + [session] && records == old(records)
    {
      var hisData: Option<HisData> := None;
      if Truthy(input.visitId) || input.patientName == "" {
        if his.success && his.data.Some? {
          hisData := his.data;
        }
      }
      session := NewSession(input, hisData, SessionId(stamp, suffix), now);
      var extended := sessions + [session];
      forall k | 0 <= k < |records|
        ensures HasSession(extended, records[k].sessionId)
      {
        var j :| 0 <= j < |sessions| && sessions[j].id == records[k].sessionId;
        assert extended[j] == sessions[j];
      }
      sessions := extended;
    }

    /** getSession: the session with that id, None when there is none. */
    method GetSession(id: string) returns (r: Option<Session>)
      ensures r.Some? <==> HasSession(sessions, id)
      ensures r.Some? ==> r.value in sessions && r.value.id == id
    {
      r := FindSession(sessions, id);
    }

    /** updateSessionStatus: overwrites the status of that session, whatever it was, and bumps `updatedAt`. */
    method UpdateSessionStatus(id: string, status: SessionStatus, now: int)
      requires Valid()
      modifies this
      ensures Valid()
      ensures sessions == SetStatus(old(sessions), id, status, now) && records == old(records)
    {
      SetStatusKeepsTables(sessions, records, id, status, now);
      sessions := SetStatus(sessions, id, status, now);
    }

    /** getMedicalRecordBySession: the record of that session, None when there is none. */
    method GetMedicalRecordBySession(sessionId: string) returns (r: Option<MedicalRecord>)
      requires Valid()
      ensures r.Some? <==> HasRecordFor(records, sessionId)
      ensures r.Some? ==> r.value in records && r.value.sessionId == sessionId
      ensures r.Some? ==> forall k :: 0 <= k < |records| && records[k].sessionId == sessionId ==> records[k] == r.value
    {
      r := FindRecord(records, sessionId);
      FindRecordUnique(records, sessionId);
    }

    /**
     * finalizeRecord: sends the record to the HIS when the session has a
     * visit id, ignores the reply, and marks the session completed.
     */
    method FinalizeRecord(sessionId: string, record: MedicalRecord, now: int) returns (call: Option<HisCall>)
      requires Valid()
      modifies this
      ensures Valid()
      ensures call == FinalizeCall(old(sessions), sessionId, record)
      ensures sessions == SetStatus(old(sessions), sessionId, Completed, now) && records == old(records)
    {
      var session := GetSession(sessionId);
      call := None;
      if session.Some? && Truthy(session.value.visitId) {
        call := Some(UpdateVisit(session.value.visitId.value, Payload(record)));
      }
      UpdateSessionStatus(sessionId, Completed, now);
    }

    /**
     * saveMedicalRecord: the upsert of the session's record, followed for a
     * final record by finalizeRecord. A first save for a session that does
     * not exist fails on the foreign key and changes nothing.
     */
    method SaveMedicalRecord(input: RecordInput, stamp: nat, suffix: string, now: int)
      returns (outcome: SaveOutcome, call: Option<HisCall>)
      requires Valid() && !HasRecordId(records, RecordId(stamp, suffix))
      modifies this
      ensures Valid()
      ensures !HasSession(old(sessions), input.sessionId) ==>
                outcome == ForeignKeyViolation && call == None
                && sessions == old(sessions) && records == old(records)
      ensures HasSession(old(sessions), input.sessionId) ==>
                && outcome == Saved(SavedRecord(old(records), input, RecordId(stamp, suffix), now))
                && records == Upsert(old(records), input, RecordId(stamp, suffix), now)
      ensures HasSession(old(sessions), input.sessionId) && input.status == Final ==>
                && sessions == SetStatus(old(sessions), input.sessionId, Completed, now)
                && call == FinalizeCall(old(sessions), input.sessionId, outcome.record)
      ensures input.status == Draft ==> sessions == old(sessions) && call == None
    {
      var existing := FindRecord(records, input.sessionId);
      var record: MedicalRecord;
      if existing.Some? {
        record := MergeRecord(existing.value, input, now);
        records := Upsert(records, input, RecordId(stamp, suffix), now);
      } else {
        var sessionExists := HasSessionRow(input.sessionId);
        if !sessionExists {
          return ForeignKeyViolation, None;
        }
        record := NewRecord(input, RecordId(stamp, suffix), now);
        records := records + [record];
      }
      assert HasSession(sessions, input.sessionId) by {
        if existing.Some? {
          var k :| 0 <= k < |old(records)| && old(records)[k] == existing.value;
        }
      }
      UpsertKeepsTables(sessions, old(records), input, RecordId(stamp, suffix), now);
      outcome := Saved(record);
      call := None;
      if input.status == Final {
        call := FinalizeRecord(input.sessionId, record, now);
      }
    }

    /** Whether a session row with that id exists (the check the foreign key makes on insert). */
    method HasSessionRow(id: string) returns (b: bool)
      ensures b <==> HasSession(sessions, id)
    {
      var s := FindSession(sessions, id);
      b := s.Some?;
    }
  }
}
