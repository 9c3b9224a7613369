/**
 * The `examination_sessions` and `medical_records` tables: their enums,
 * defaults, row shapes and the key constraints the tables declare.
 * Timestamps are the stored integer values.
 */
module SessionSchema {
  import opened Wrappers

  /** `status` of a session; the column default is Active. */
  datatype SessionStatus = Active | Completed | Cancelled

  /** `status` of a medical record; the column default is Draft. */
  datatype RecordStatus = Draft | Final

  const DefaultSessionStatus: SessionStatus := Active
  const DefaultRecordStatus: RecordStatus := Draft

  /** The text the enum column stores. */
  function SessionStatusText(s: SessionStatus): string {
    match s
    case Active => "active"
    case Completed => "completed"
    case Cancelled => "cancelled"
  }

  function ParseSessionStatus(t: string): (r: Option<SessionStatus>)
    ensures r.Some? ==> SessionStatusText(r.value) == t
  {
    if t == "active" then Some(Active)
    else if t == "completed" then Some(Completed)
    else if t == "cancelled" then Some(Cancelled)
    else None
  }

  function RecordStatusText(s: RecordStatus): string {
    match s
    case Draft => "draft"
    case Final => "final"
  }

  function ParseRecordStatus(t: string): (r: Option<RecordStatus>)
    ensures r.Some? ==> RecordStatusText(r.value) == t
  {
    if t == "draft" then Some(Draft)
    else if t == "final" then Some(Final)
    else None
  }

  /** Reading back the stored text of a status gives the status: the column holds exactly the enum's values. */
  lemma StatusTextRoundTrip(s: SessionStatus, r: RecordStatus)
    ensures ParseSessionStatus(SessionStatusText(s)) == Some(s)
    ensures ParseRecordStatus(RecordStatusText(r)) == Some(r)
  {
  }

  /** A JSON value, as the `patient_info` column holds it. */
  datatype Json =
    | JNull
    | JBool(b: bool)
    | JNumber(n: int)
    | JString(s: string)
    | JArray(items: seq<Json>)
    | JObject(fields: map<string, Json>)

  /**
   * A row of `examination_sessions`. `patientName` is NOT NULL; `visitId`
   * and `medicalHistory` are nullable.
   */
  datatype Session = Session(
    id: string,
    visitId: Option<string>,
    patientName: string,
    patientInfo: Json,
    medicalHistory: Option<string>,
    status: SessionStatus,
    createdAt: int,
    updatedAt: int)

  /**
   * A row of `medical_records`. `sessionId` is NOT NULL and refers to a
   * session; the four SOAP fields are nullable; `icdCodes` holds the JSON
   * array of ICD-10 code strings.
   */
  datatype MedicalRecord = MedicalRecord(
    id: string,
    sessionId: string,
    subjective: Option<string>,
    objective: Option<string>,
    assessment: Option<string>,
    plan: Option<string>,
    icdCodes: seq<string>,
    status: RecordStatus,
    createdAt: int,
    updatedAt: int)

  /** `id` is the primary key of `examination_sessions`. */
  predicate UniqueSessionIds(sessions: seq<Session>) {
    forall i, j :: 0 <= i < j < |sessions| ==> sessions[i].id != sessions[j].id
  }

  /** `id` is the primary key of `medical_records`. */
  predicate UniqueRecordIds(records: seq<MedicalRecord>) {
    forall i, j :: 0 <= i < j < |records| ==> records[i].id != records[j].id
  }

  predicate HasSession(sessions: seq<Session>, id: string) {
    exists k :: 0 <= k < |sessions| && sessions[k].id == id
  }

  /** The foreign key: every record's session exists. */
  predicate RecordsReferenceSessions(records: seq<MedicalRecord>, sessions: seq<Session>) {
    forall k :: 0 <= k < |records| ==> HasSession(sessions, records[k].sessionId)
  }

  /** What the save operation maintains, though the table does not declare it: one record per session. */
  predicate OneRecordPerSession(records: seq<MedicalRecord>) {
    forall i, j :: 0 <= i < j < |records| ==> records[i].sessionId != records[j].sessionId
  }

  /** The invariant of the two tables together. */
  predicate TablesValid(sessions: seq<Session>, records: seq<MedicalRecord>) {
    && UniqueSessionIds(sessions)
    && UniqueRecordIds(records)
    && RecordsReferenceSessions(records, sessions)
    && OneRecordPerSession(records)
  }
}
