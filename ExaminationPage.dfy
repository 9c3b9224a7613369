/**
 * The examination page: the helpers that turn the analysis service's ICD
 * strings into code/description pairs and classify transcript speakers,
 * and the two handlers that reset and flag the page state.
 */
module ExaminationPage {
  import opened Wrappers
  import opened Text
  import SessionSchema

  // ---------------- ICD codes ----------------

  /** The analysis service writes each ICD entry as `CODE - description`. */
  const Separator: string := " - "

  datatype IcdCode = IcdCode(code: string, description: string)

  /** One entry: the trimmed pieces either side of the first separator; the code falls back to the whole entry. */
  function TransformCode(codeStr: string): IcdCode {
    FromPieces(codeStr, Split(codeStr, Separator))
  }

  /** The pair read off the pieces of an entry: pieces 0 and 1, trimmed. */
  function FromPieces(codeStr: string, parts: seq<string>): (r: IcdCode)
    requires |parts| >= 1
    ensures r.code == "" ==> codeStr == ""
    ensures |parts| == 1 ==> r.description == ""
  {
    IcdCode(
      if Trim(parts[0]) != "" then Trim(parts[0]) else codeStr,
      if |parts| > 1 then Trim(parts[1]) else "")
  }

  /** transformIcdCodes: one pair per entry, in the same order. */
  function TransformIcdCodes(codes: seq<string>): (r: seq<IcdCode>)
    ensures |r| == |codes|
    ensures forall k :: 0 <= k < |codes| ==> r[k] == TransformCode(codes[k])
  {
    seq(|codes|, k requires 0 <= k < |codes| => TransformCode(codes[k]))
  }

  /** The list handed to the matching engine: the code part of every entry, read separately from the entries. */
  function MatchingEngineCodes(codes: seq<string>): (r: seq<string>)
    ensures |r| == |codes|
  {
    seq(|codes|, k requires 0 <= k < |codes| =>
      if Trim(Split(codes[k], Separator)[0]) != "" then Trim(Split(codes[k], Separator)[0]) else codes[k])
  }

  function Codes(icd: seq<IcdCode>): (r: seq<string>)
    ensures |r| == |icd| && forall k :: 0 <= k < |icd| ==> r[k] == icd[k].code
  {
    seq(|icd|, k requires 0 <= k < |icd| => icd[k].code)
  }

  /** The matching engine sees exactly the codes the review form shows. */
  lemma MatchingEngineSeesTheFormCodes(codes: seq<string>)
    ensures MatchingEngineCodes(codes) == Codes(TransformIcdCodes(codes))
  {
  }

  /** The code is never empty unless the entry itself is. */
  lemma CodeNeverEmpty(codeStr: string)
    ensures TransformCode(codeStr).code == "" ==> codeStr == ""
  {
  }

  // The worked example passes its literals in as parameters pinned by `requires`:
  // a literal written inside a proof makes the solver unfold Split, Trim and
  // IndexFrom over every character at once, which the proofs below avoid by
  // taking one step per lemma.

  lemma GastritisPiecesTrimmed(code: string, desc: string)
    requires code == "K29.7" && desc == "Viêm dạ dày"
    ensures Trim(code) == code && Trim(desc) == desc
  {
    TrimUnchanged(code);
    TrimUnchanged(desc);
  }

  lemma GastritisPieces(entry: string, code: string, desc: string)
    requires entry == "K29.7 - Viêm dạ dày" && code == "K29.7" && desc == "Viêm dạ dày"
    ensures Split(entry, Separator) == [code, desc]
  {
    assert entry == code + Separator + desc;
    GastritisCodeHasNoSpace(code);
    SplitAfter(code, Separator, desc);
    GastritisDescriptionHasNoDash(desc);
    SplitWhole(desc, Separator);
  }

  lemma GastritisCodeHasNoSpace(code: string)
    requires code == "K29.7"
    ensures forall k :: 0 <= k < |code| ==> code[k] != Separator[0]
  {
  }

  lemma GastritisDescriptionHasNoDash(desc: string)
    requires desc == "Viêm dạ dày"
    ensures !Contains(desc, Separator)
  {
    AbsentChar(desc, Separator, 1);
  }

  /**
   * Two pieces that are already trimmed (no white space at either end) are
   * the code and the description as they stand.
   */
  lemma FromTrimmedPieces(codeStr: string, a: string, b: string)
    requires a != "" && !IsSpace(a[0]) && !IsSpace(a[|a| - 1])
    requires b == "" || (!IsSpace(b[0]) && !IsSpace(b[|b| - 1]))
    ensures FromPieces(codeStr, [a, b]) == IcdCode(a, b)
  {
    TrimUnchanged(a);
    if b != "" {
      TrimUnchanged(b);
    }
  }

  /** `K29.7 - Viêm dạ dày` is the code `K29.7` with the description `Viêm dạ dày`. */
  lemma GastritisEntry(entry: string)
    requires entry == "K29.7 - Viêm dạ dày"
    ensures TransformCode(entry) == IcdCode("K29.7", "Viêm dạ dày")
  {
    var code, desc := "K29.7", "Viêm dạ dày";
    GastritisPieces(entry, code, desc);
    GastritisPiecesTrimmed(code, desc);
    FromTrimmedPieces(entry, code, desc);
  }

  /** An entry without the separator has no description; its code is the trimmed entry, or the entry when that is blank. */
  lemma EntryWithoutSeparator(codeStr: string)
    requires !Contains(codeStr, Separator)
    ensures TransformCode(codeStr).description == ""
    ensures TransformCode(codeStr).code == if Trim(codeStr) != "" then Trim(codeStr) else codeStr
  {
    SplitWhole(codeStr, Separator);
  }

  /**
   * Pieces after the second are dropped: the entry reads like its first two
   * pieces alone, up to the fallback of a blank code to the entry itself.
   */
  lemma ExtraPiecesDropped(codeStr: string)
    requires |Split(codeStr, Separator)| >= 3
    ensures var parts := Split(codeStr, Separator);
      && TransformCode(codeStr).description == TransformCode(parts[0] + Separator + parts[1]).description
      && (Trim(parts[0]) != "" ==> TransformCode(codeStr) == TransformCode(parts[0] + Separator + parts[1]))
  {
    var parts := Split(codeStr, Separator);
    SplitFirstTwo(codeStr, Separator);
    var again := Split(parts[0] + Separator + parts[1], Separator);
    assert |again| == 2 && again[0] == parts[0] && again[1] == parts[1];
    assert TransformCode(codeStr) == FromPieces(codeStr, parts);
    assert TransformCode(parts[0] + Separator + parts[1]) == FromPieces(parts[0] + Separator + parts[1], again);
  }

  // ---------------- Speakers ----------------

  /** The label (`labelText`, as `label` is a Dafny keyword) and Tailwind classes a transcript line is drawn with. */
  datatype SpeakerStyle = SpeakerStyle(labelText: string, bgColor: string, borderColor: string, textColor: string, labelBg: string)

  const DoctorStyle := SpeakerStyle(
    "\U{1F468}\U{200D}\U{2695}\U{FE0F} Bác sĩ",
    "bg-gradient-to-r from-blue-50 to-indigo-50", "border-blue-500", "text-blue-800", "bg-blue-100")

  const PatientStyle := SpeakerStyle(
    "\U{1F9D1} Bệnh nhân",
    "bg-gradient-to-r from-green-50 to-emerald-50", "border-green-500", "text-green-800", "bg-green-100")

  /** The style of any other speaker, labelled with the role as given. */
  function OtherStyle(role: string): SpeakerStyle {
    SpeakerStyle("\U{1F4AC} " + role, "bg-gray-50", "border-gray-400", "text-gray-700", "bg-gray-100")
  }

  const DoctorWord: string := "bác sĩ"
  const PatientWord: string := "bệnh nhân"

  /** The role lower-cased, then trimmed. */
  function NormalizeRole(role: string): (r: string)
    ensures |r| <= |role|
    ensures r == [] || (!IsSpace(r[0]) && !IsSpace(r[|r| - 1]))
    ensures exists i :: TrimmedAt(ToLower(role), r, i)
  {
    Trim(ToLower(role))
  }

  predicate IsDoctorRole(normalized: string) {
    Contains(normalized, DoctorWord) || normalized == "doctor"
  }

  predicate IsPatientRole(normalized: string) {
    Contains(normalized, PatientWord) || normalized == "patient"
  }

  /** getSpeakerStyle: doctor is tested first, then patient, else the fallback. */
  function GetSpeakerStyle(role: string): (r: SpeakerStyle)
    ensures r == DoctorStyle || r == PatientStyle || r == OtherStyle(role)
  {
    var normalized := NormalizeRole(role);
    if IsDoctorRole(normalized) then DoctorStyle
    else if IsPatientRole(normalized) then PatientStyle
    else OtherStyle(role)
  }

  /**
   * The classification: doctor exactly when the normalized role names a
   * doctor, even if it also names a patient; patient only when it names a
   * patient and not a doctor; otherwise the fallback, with the original role.
   */
  lemma SpeakerClassification(role: string)
    ensures GetSpeakerStyle(role) == DoctorStyle <==> IsDoctorRole(NormalizeRole(role))
    ensures GetSpeakerStyle(role) == PatientStyle <==> !IsDoctorRole(NormalizeRole(role)) && IsPatientRole(NormalizeRole(role))
    ensures !IsDoctorRole(NormalizeRole(role)) && !IsPatientRole(NormalizeRole(role)) ==>
              GetSpeakerStyle(role).labelText == "\U{1F4AC} " + role
  {
    assert DoctorStyle != PatientStyle && DoctorStyle.bgColor != OtherStyle(role).bgColor && PatientStyle.bgColor != OtherStyle(role).bgColor;
  }

  /** Two roles that normalize alike and name a doctor or a patient get the same style. */
  lemma StyleDependsOnNormalizedRole(a: string, b: string)
    requires NormalizeRole(a) == NormalizeRole(b)
    requires IsDoctorRole(NormalizeRole(a)) || IsPatientRole(NormalizeRole(a))
    ensures GetSpeakerStyle(a) == GetSpeakerStyle(b)
  {
  }

  lemma LowerDoctorWord(role: string)
    requires role == "BÁC SĨ"
    ensures ToLower(role) == DoctorWord
  {
    var lowered := ToLower(role);
    assert lowered[0] == 'b' && lowered[1] == 'á' && lowered[2] == 'c';
    assert lowered[3] == ' ' && lowered[4] == 's' && lowered[5] == 'ĩ';
  }

  lemma LowerPatientWord(role: string)
    requires role == "BỆNH NHÂN"
    ensures ToLower(role) == PatientWord
  {
    var lowered := ToLower(role);
    assert lowered[0] == 'b' && lowered[1] == 'ệ' && lowered[2] == 'n';
    assert lowered[3] == 'h' && lowered[4] == ' ' && lowered[5] == 'n';
    assert lowered[6] == 'h' && lowered[7] == 'â' && lowered[8] == 'n';
  }

  /** A word contains itself. */
  lemma ContainsItself(w: string)
    ensures Contains(w, w)
  {
    assert w[0..|w|] == w;
    FirstOccurrence(w, w, 0);
  }

  /** An upper-case role with Vietnamese diacritics is still recognised: `BÁC SĨ` is a doctor. */
  lemma UpperCaseDoctor(role: string)
    requires role == "BÁC SĨ"
    ensures GetSpeakerStyle(role) == DoctorStyle
  {
    LowerDoctorWord(role);
    TrimUnchanged(DoctorWord);
    ContainsItself(DoctorWord);
  }

  /** A patient role in capitals is a patient, not a doctor. */
  lemma UpperCasePatient(role: string)
    requires role == "BỆNH NHÂN"
    ensures GetSpeakerStyle(role) == PatientStyle
  {
    LowerPatientWord(role);
    PatientWordFacts(ToLower(role));
  }

  lemma PatientWordFacts(w: string)
    requires w == PatientWord
    ensures Trim(w) == w
    ensures !IsDoctorRole(w) && IsPatientRole(w)
  {
    TrimUnchanged(w);
    PatientWordIsNoDoctor(w);
    ContainsItself(w);
  }

  lemma PatientWordIsNoDoctor(w: string)
    requires w == PatientWord
    ensures !Contains(w, DoctorWord)
  {
    AbsentChar(w, DoctorWord, 1);
  }

  // ---------------- Page state ----------------

  datatype TranscriptSegment = TranscriptSegment(start: int, end: int, role: string, rawText: string, cleanText: string)

  datatype Soap = Soap(subjective: string, objective: string, assessment: string, plan: string)

  datatype AnalysisResult = AnalysisResult(soap: Soap, icdCodes: seq<string>, medicalAdvice: string, references: seq<string>)

  datatype Tab = SoapTab | AdviceTab | IcdTab

  datatype ServiceStatus = Checking | Ready | ServiceError

  /** The component state of the examination page. */
  class PageState {
    var currentSession: Option<SessionSchema.Session>
    var medicalRecordSaved: bool
    var isRecording: bool
    var loading: bool
    var analyzing: bool
    var transcripts: seq<TranscriptSegment>
    var fullText: string
    var analysisResult: Option<AnalysisResult>
    var activeTab: Tab
    var serviceStatus: ServiceStatus

    /** The initial values of the state hooks. */
    constructor ()
      ensures currentSession == None && !medicalRecordSaved
      ensures !isRecording && !loading && !analyzing
      ensures transcripts == [] && fullText == "" && analysisResult == None
      ensures activeTab == SoapTab && serviceStatus == Checking
    {
      currentSession := None;
      medicalRecordSaved := false;
      isRecording := false;
      loading := false;
      analyzing := false;
      transcripts := [];
      fullText := "";
      analysisResult := None;
      activeTab := SoapTab;
      serviceStatus := Checking;
    }

    /** The matching engine is shown only once a final record has been saved. */
    predicate ShowsMatchingEngine()
      reads this
    {
      medicalRecordSaved
    }

    /** handleSessionCreated: switches to the new session and clears the previous examination. */
    method HandleSessionCreated(session: SessionSchema.Session)
      modifies this
      ensures currentSession == Some(session)
      ensures transcripts == [] && fullText == "" && analysisResult == None && !medicalRecordSaved
      ensures !ShowsMatchingEngine()
      ensures isRecording == old(isRecording) && loading == old(loading) && analyzing == old(analyzing)
      ensures activeTab == old(activeTab) && serviceStatus == old(serviceStatus)
    {
      currentSession := Some(session);
      transcripts := [];
      fullText := "";
      analysisResult := None;
      medicalRecordSaved := false;
    }

    /** handleMedicalRecordSave: a final save raises the saved flag; a draft save leaves it as it was. */
    method HandleMedicalRecordSave(isFinal: bool)
      modifies this
      ensures medicalRecordSaved == (old(medicalRecordSaved) || isFinal)
      ensures old(medicalRecordSaved) ==> medicalRecordSaved
      ensures currentSession == old(currentSession) && transcripts == old(transcripts)
      ensures fullText == old(fullText) && analysisResult == old(analysisResult)
      ensures isRecording == old(isRecording) && loading == old(loading) && analyzing == old(analyzing)
      ensures activeTab == old(activeTab) && serviceStatus == old(serviceStatus)
    {
      if isFinal {
        medicalRecordSaved := true;
      }
    }
  }
}
