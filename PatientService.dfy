/**
 * The patient registry: duplicate detection, registration with a generated
 * display id, lookups, partial updates and paged listings over the
 * `patients` table. The table is a sequence of rows in insertion order;
 * random ids, the clock and the current year are parameters.
 */
module PatientService {
  import opened Wrappers
  import opened Text
  import opened JsValues
  import DisplayIds

  datatype Patient = Patient(
    id: string,
    displayId: string,
    externalPatientId: Option<string>,
    name: string,
    birthDate: Option<string>,
    gender: Option<string>,
    phoneNumber: Option<string>,
    email: Option<string>,
    address: Option<string>,
    medicalHistory: Option<string>,
    allergies: Option<string>,
    bloodType: Option<string>,
    createdAt: int,
    updatedAt: int)

  /** What a registration form supplies; None is a field left out. */
  datatype PatientInput = PatientInput(
    name: string,
    birthDate: Option<string>,
    gender: Option<string>,
    phoneNumber: Option<string>,
    email: Option<string>,
    address: Option<string>,
    medicalHistory: Option<string>,
    allergies: Option<string>,
    bloodType: Option<string>,
    externalPatientId: Option<string>)

  /** A partial update: None is a key that is absent, Some a value to write. */
  datatype PatientUpdate = PatientUpdate(
    name: Option<string>,
    birthDate: Option<string>,
    gender: Option<string>,
    phoneNumber: Option<string>,
    email: Option<string>,
    address: Option<string>,
    medicalHistory: Option<string>,
    allergies: Option<string>,
    bloodType: Option<string>,
    externalPatientId: Option<string>)

  const NoChanges := PatientUpdate(None, None, None, None, None, None, None, None, None, None)

  /** The internal id built from a random UUID. */
  function PatientId(uuid: string): string {
    "pat_" + uuid
  }

  // ---------------- Table facts ----------------

  /** `id` is the key of the table. */
  predicate UniqueIds(ps: seq<Patient>) {
    forall i, j :: 0 <= i < j < |ps| ==> ps[i].id != ps[j].id
  }

  predicate HasId(ps: seq<Patient>, id: string) {
    exists k :: 0 <= k < |ps| && ps[k].id == id
  }

  function DisplayIdsOf(ps: seq<Patient>): (r: seq<string>)
    ensures |r| == |ps| && forall k :: 0 <= k < |ps| ==> r[k] == ps[k].displayId
  {
    seq(|ps|, k requires 0 <= k < |ps| => ps[k].displayId)
  }

  // ---------------- Queries ----------------

  /** The WHERE clauses the service uses. */
  datatype Criterion =
    | ById(id: string)
    | ByDisplayId(displayId: string)
    | ByPhone(phone: string)
    | ByNameAndBirth(name: string, birthDate: string)
    | ByText(query: string)

  /**
   * Whether a row satisfies a clause. `=` on a NULL column never holds.
   * ByText is the `LIKE '%query%'` search over name, phone and display id,
   * taken as a plain substring test.
   */
  predicate Satisfies(p: Patient, c: Criterion) {
    match c
    case ById(id) => p.id == id
    case ByDisplayId(d) => p.displayId == d
    case ByPhone(phone) => p.phoneNumber == Some(phone)
    case ByNameAndBirth(name, birth) => p.name == name && p.birthDate == Some(birth)
    case ByText(q) =>
      || Contains(p.name, q)
      || (p.phoneNumber.Some? && Contains(p.phoneNumber.value, q))
      || Contains(p.displayId, q)
  }

  /** `SELECT ... WHERE c`, rows in table order. */
  function Where(ps: seq<Patient>, c: Criterion): (r: seq<Patient>)
    ensures |r| <= |ps|
    ensures forall p :: p in r <==> p in ps && Satisfies(p, c)
  {
    if ps == [] then []
    else (if Satisfies(ps[0], c) then [ps[0]] else []) + Where(ps[1..], c)
  }

  /** `SELECT ... WHERE c LIMIT 1`. */
  function FirstWhere(ps: seq<Patient>, c: Criterion): (r: Option<Patient>)
    ensures r.Some? ==> r.value in ps && Satisfies(r.value, c)
    ensures r.None? ==> forall p :: p in ps ==> !Satisfies(p, c)
  {
    if ps == [] then None
    else if Satisfies(ps[0], c) then Some(ps[0])
    else FirstWhere(ps[1..], c)
  }

  // ---------------- Duplicate detection ----------------

  predicate ChecksPhone(input: PatientInput) {
    Truthy(input.phoneNumber)
  }

  predicate ChecksNameAndBirth(input: PatientInput) {
    input.name != "" && Truthy(input.birthDate)
  }

  /** The meaning of a possible duplicate: same phone, or same name and same birth date. */
  predicate IsPossibleDuplicate(p: Patient, input: PatientInput) {
    || (ChecksPhone(input) && p.phoneNumber == input.phoneNumber)
    || (ChecksNameAndBirth(input) && p.name == input.name && p.birthDate == input.birthDate)
  }

  /** The rows of both lookups, phone matches first. */
  function Candidates(ps: seq<Patient>, input: PatientInput): seq<Patient> {
    (if ChecksPhone(input) then Where(ps, ByPhone(input.phoneNumber.value)) else [])
    + (if ChecksNameAndBirth(input) then Where(ps, ByNameAndBirth(input.name, input.birthDate.value)) else [])
  }

  predicate DistinctIds(s: seq<Patient>) {
    forall i, j :: 0 <= i < j < |s| ==> s[i].id != s[j].id
  }

  function IndexOfId(acc: seq<Patient>, id: string): (r: Option<nat>)
    ensures r.Some? ==> r.value < |acc| && acc[r.value].id == id
    ensures r.None? ==> forall k :: 0 <= k < |acc| ==> acc[k].id != id
  {
    if acc == [] then None
    else if acc[|acc| - 1].id == id then Some(|acc| - 1)
    else IndexOfId(acc[..|acc| - 1], id)
  }

  /** `map.set(p.id, p)` on a Map kept as its entries in insertion order. */
  function MapSet(acc: seq<Patient>, p: Patient): (r: seq<Patient>)
    ensures |r| <= |acc| + 1 && p in r
  {
    match IndexOfId(acc, p.id)
    case None => acc + [p]
    case Some(i) => assert acc[i := p][i] == p; acc[i := p]
  }

  /** `Array.from(new Map(s.map(p => [p.id, p])).values())`. */
  function UniqueById(s: seq<Patient>): (r: seq<Patient>)
    ensures |r| <= |s|
  {
    if s == [] then [] else MapSet(UniqueById(s[..|s| - 1]), s[|s| - 1])
  }

  /** findPossibleDuplicates as a function of the table. */
  function Duplicates(ps: seq<Patient>, input: PatientInput): (r: seq<Patient>)
    ensures |r| <= |Candidates(ps, input)|
  {
    UniqueById(Candidates(ps, input))
  }

  /** Rows that share an id are the same row. */
  predicate SameIdSameRow(s: seq<Patient>) {
    forall i, j :: 0 <= i < |s| && 0 <= j < |s| && s[i].id == s[j].id ==> s[i] == s[j]
  }

  /** Deduplicating rows that agree per id keeps every row once and adds nothing. */
  lemma {:induction false} UniqueByIdFacts(s: seq<Patient>)
    requires SameIdSameRow(s)
    ensures DistinctIds(UniqueById(s))
    ensures forall q :: q in UniqueById(s) ==> q in s
    ensures forall p :: p in s ==> p in UniqueById(s)
  {
    if s != [] {
      var init, last := s[..|s| - 1], s[|s| - 1];
      assert SameIdSameRow(init) by {
        forall i, j | 0 <= i < |init| && 0 <= j < |init| && init[i].id == init[j].id
          ensures init[i] == init[j]
        {
          assert init[i] == s[i] && init[j] == s[j];
        }
      }
      UniqueByIdFacts(init);
      var acc := UniqueById(init);
      assert s == init + [last];
      match IndexOfId(acc, last.id)
      case None =>
      case Some(i) =>
        assert acc[i] in init;
        assert acc[i] == last;
        assert acc[i := last] == acc;
    }
  }

  /**
   * The duplicates are exactly the stored rows matching by phone or by
   * name and birth date, each once.
   */
  lemma DuplicatesExact(ps: seq<Patient>, input: PatientInput)
    requires UniqueIds(ps)
    ensures forall q :: q in Duplicates(ps, input) ==> q in ps && IsPossibleDuplicate(q, input)
    ensures forall p :: p in ps && IsPossibleDuplicate(p, input) ==> p in Duplicates(ps, input)
    ensures DistinctIds(Duplicates(ps, input))
  {
    var c := Candidates(ps, input);
    assert forall q :: q in c <==> q in ps && IsPossibleDuplicate(q, input);
    assert SameIdSameRow(c) by {
      forall i, j | 0 <= i < |c| && 0 <= j < |c| && c[i].id == c[j].id
        ensures c[i] == c[j]
      {
        assert c[i] in ps && c[j] in ps;
      }
    }
    UniqueByIdFacts(c);
  }

  /** With neither a phone nor both name and birth date there is nothing to compare: no duplicates. */
  lemma DuplicatesEmptyCriteria(ps: seq<Patient>, input: PatientInput)
    requires !ChecksPhone(input) && !ChecksNameAndBirth(input)
    ensures Duplicates(ps, input) == []
  {
  }

  // ---------------- Registration ----------------

  /** The row registration stores: falsy optional fields become NULL, both timestamps are `now`. */
  function NewPatient(input: PatientInput, id: string, displayId: string, now: int): Patient {
    Patient(
      id, displayId, OrNull(input.externalPatientId), input.name,
      OrNull(input.birthDate), OrNull(input.gender), OrNull(input.phoneNumber),
      OrNull(input.email), OrNull(input.address), OrNull(input.medicalHistory),
      OrNull(input.allergies), OrNull(input.bloodType),
      now, now)
  }

  /** No optional column of a registered patient holds an empty string. */
  predicate NoEmptyOptionals(p: Patient) {
    && p.externalPatientId != Some("") && p.birthDate != Some("") && p.gender != Some("")
    && p.phoneNumber != Some("") && p.email != Some("") && p.address != Some("")
    && p.medicalHistory != Some("") && p.allergies != Some("") && p.bloodType != Some("")
  }

  /**
   * A registered row: keeps every truthy input field, stores every falsy one
   * as NULL, and was created and updated at the same instant.
   */
  lemma NewPatientFields(input: PatientInput, id: string, displayId: string, now: int)
    ensures var p := NewPatient(input, id, displayId, now);
      && p.id == id && p.displayId == displayId && p.name == input.name
      && p.createdAt == p.updatedAt == now
      && NoEmptyOptionals(p)
      && KeptOrNull(p.externalPatientId, input.externalPatientId)
      && KeptOrNull(p.birthDate, input.birthDate)
      && KeptOrNull(p.gender, input.gender)
      && KeptOrNull(p.phoneNumber, input.phoneNumber)
      && KeptOrNull(p.email, input.email)
      && KeptOrNull(p.address, input.address)
      && KeptOrNull(p.medicalHistory, input.medicalHistory)
      && KeptOrNull(p.allergies, input.allergies)
      && KeptOrNull(p.bloodType, input.bloodType)
  {
  }

  datatype CreateOutcome =
    | Created(patient: Patient)
    | PossibleDuplicate(duplicates: seq<Patient>)

  // ---------------- Updates ----------------

  /** updatePatient on one row: the supplied fields and `updatedAt` change, nothing else. */
  function Merge(p: Patient, u: PatientUpdate, now: int): (r: Patient)
    ensures r.id == p.id && r.displayId == p.displayId && r.createdAt == p.createdAt
    ensures r.updatedAt == now
  {
    p.(name := Patch(p.name, u.name),
       birthDate := PatchNullable(p.birthDate, u.birthDate),
       gender := PatchNullable(p.gender, u.gender),
       phoneNumber := PatchNullable(p.phoneNumber, u.phoneNumber),
       email := PatchNullable(p.email, u.email),
       address := PatchNullable(p.address, u.address),
       medicalHistory := PatchNullable(p.medicalHistory, u.medicalHistory),
       allergies := PatchNullable(p.allergies, u.allergies),
       bloodType := PatchNullable(p.bloodType, u.bloodType),
       externalPatientId := PatchNullable(p.externalPatientId, u.externalPatientId),
       updatedAt := now)
  }

  /** An update that supplies nothing only touches `updatedAt`. */
  lemma MergeNothing(p: Patient, now: int)
    ensures Merge(p, NoChanges, now) == p.(updatedAt := now)
  {
  }

  /** Applying the same update twice is the same as applying it once. */
  lemma MergeIdempotent(p: Patient, u: PatientUpdate, now: int)
    ensures Merge(Merge(p, u, now), u, now) == Merge(p, u, now)
  {
  }

  /** A supplied field reads back as supplied, an absent one as it was. */
  lemma MergeFields(p: Patient, u: PatientUpdate, now: int)
    ensures var r := Merge(p, u, now);
      && Patched(r.name, p.name, u.name)
      && PatchedNullable(r.birthDate, p.birthDate, u.birthDate)
      && PatchedNullable(r.gender, p.gender, u.gender)
      && PatchedNullable(r.phoneNumber, p.phoneNumber, u.phoneNumber)
      && PatchedNullable(r.email, p.email, u.email)
      && PatchedNullable(r.address, p.address, u.address)
      && PatchedNullable(r.medicalHistory, p.medicalHistory, u.medicalHistory)
      && PatchedNullable(r.allergies, p.allergies, u.allergies)
      && PatchedNullable(r.bloodType, p.bloodType, u.bloodType)
      && PatchedNullable(r.externalPatientId, p.externalPatientId, u.externalPatientId)
  {
  }

  /** `UPDATE patients SET ... WHERE id = ?` over the whole table. */
  function UpdateRows(ps: seq<Patient>, id: string, u: PatientUpdate, now: int): (r: seq<Patient>)
    ensures |r| == |ps|
    ensures forall k :: 0 <= k < |ps| ==> r[k] == if ps[k].id == id then Merge(ps[k], u, now) else ps[k]
  {
    seq(|ps|, k requires 0 <= k < |ps| => if ps[k].id == id then Merge(ps[k], u, now) else ps[k])
  }

  // ---------------- Listings ----------------

  /** `options.page || 1`: absent and 0 both mean the first page. */
  function PageNumber(page: Option<int>): int {
    if page.None? || page.value == 0 then 1 else page.value
  }

  /** `options.limit || 20`. */
  function PageSize(limit: Option<int>): (r: int)
    ensures r != 0
  {
    if limit.None? || limit.value == 0 then 20 else limit.value
  }

  /** `(page - 1) * limit`. */
  function Offset(page: Option<int>, limit: Option<int>): int {
    (PageNumber(page) - 1) * PageSize(limit)
  }

  /** The defaults, and the offset of explicit values. */
  lemma PagingDefaults(page: Option<int>, limit: Option<int>)
    ensures (page.None? || page == Some(0)) && (limit.None? || limit == Some(0)) ==> Offset(page, limit) == 0 && PageSize(limit) == 20
    ensures page.Some? && page.value != 0 && limit.Some? && limit.value != 0 ==>
              Offset(page, limit) == (page.value - 1) * limit.value
  {
  }

  /**
   * `LIMIT limit OFFSET offset` as SQLite reads them: a negative offset
   * counts as 0 and a negative limit means no limit.
   */
  function Window<T>(rows: seq<T>, offset: int, limit: int): (r: seq<T>)
    ensures limit >= 0 ==> |r| <= limit
    ensures 0 <= offset <= |rows| && limit >= 0 ==> r == rows[offset..if offset + limit <= |rows| then offset + limit else |rows|]
  {
    var start := if offset < 0 then 0 else if offset > |rows| then |rows| else offset;
    var end := if limit < 0 || start + limit > |rows| then |rows| else start + limit;
    rows[start..end]
  }

  /** `Math.ceil(total / limit)`. */
  function PageCount(total: nat, limit: int): int
    requires limit != 0
  {
    if limit > 0 then (total + limit - 1) / limit else -(total / -limit)
  }

  /** With a positive limit, `PageCount` is the least number of pages that hold every row. */
  lemma PageCountIsCeiling(total: nat, limit: int)
    requires limit > 0
    ensures PageCount(total, limit) >= 0
    ensures PageCount(total, limit) * limit >= total
    ensures total > 0 ==> (PageCount(total, limit) - 1) * limit < total
  {
    var n := PageCount(total, limit);
    assert (total + limit - 1) == n * limit + (total + limit - 1) % limit;
  }

  /** The first `n` pages one after the other. */
  function FirstPages<T>(rows: seq<T>, limit: int, n: nat): seq<T>
    requires limit > 0
  {
    if n == 0 then [] else FirstPages(rows, limit, n - 1) + Window(rows, (n - 1) * limit, limit)
  }

  /** The first `n` pages hold exactly the first `n * limit` rows. */
  lemma {:induction false} FirstPagesArePrefix<T>(rows: seq<T>, limit: int, n: nat)
    requires limit > 0
    ensures FirstPages(rows, limit, n) == rows[..if n * limit <= |rows| then n * limit else |rows|]
  {
    if n > 0 {
      FirstPagesArePrefix(rows, limit, n - 1);
      assert (n - 1) * limit + limit == n * limit;
      assert (n - 1) * limit >= 0;
    }
  }

  /** Reading pages 1 to `pages` returns every row once, in order. */
  lemma PagesCoverAllRows<T>(rows: seq<T>, limit: int)
    requires limit > 0
    ensures FirstPages(rows, limit, PageCount(|rows|, limit)) == rows
  {
    PageCountIsCeiling(|rows|, limit);
    FirstPagesArePrefix(rows, limit, PageCount(|rows|, limit));
  }

  /** Newest first: `ORDER BY created_at DESC`. */
  predicate NewestFirst(s: seq<Patient>) {
    forall i, j :: 0 <= i < j < |s| ==> s[i].createdAt >= s[j].createdAt
  }

  function InsertByNewest(p: Patient, s: seq<Patient>): (r: seq<Patient>)
    requires NewestFirst(s)
    ensures NewestFirst(r)
    ensures multiset(r) == multiset(s) + multiset{p}
    ensures |r| == |s| + 1 && (r[0] == p || (s != [] && r[0] == s[0]))
  {
    if s == [] || p.createdAt >= s[0].createdAt then [p] + s
    else
      var t := InsertByNewest(p, s[1..]);
      assert s == [s[0]] + s[1..];
      [s[0]] + t
  }

  /** The table ordered by creation time, newest first; rows created at the same instant stay in table order. */
  function SortByNewest(s: seq<Patient>): (r: seq<Patient>)
    ensures NewestFirst(r)
    ensures multiset(r) == multiset(s)
  {
    if s == [] then []
    else
      assert s == [s[0]] + s[1..];
      InsertByNewest(s[0], SortByNewest(s[1..]))
  }

  datatype SearchRow = SearchRow(
    id: string,
    displayId: string,
    name: string,
    birthDate: Option<string>,
    phoneNumber: Option<string>,
    totalVisits: nat,
    lastVisitDate: Option<int>)

  /** The selected columns, with the visit statistics still placeholders. */
  function ToSearchRow(p: Patient): SearchRow {
    SearchRow(p.id, p.displayId, p.name, p.birthDate, p.phoneNumber, 0, None)
  }

  function SearchRows(ps: seq<Patient>): (r: seq<SearchRow>)
    ensures |r| == |ps| && forall k :: 0 <= k < |ps| ==> r[k] == ToSearchRow(ps[k])
  {
    seq(|ps|, k requires 0 <= k < |ps| => ToSearchRow(ps[k]))
  }

  /** One page of a listing: the `PageSize` rows after `Offset` of the newest-first order. */
  function PageOf(ps: seq<Patient>, page: Option<int>, limit: Option<int>): seq<SearchRow> {
    SearchRows(Window(SortByNewest(ps), Offset(page, limit), PageSize(limit)))
  }

  /** A page holds at most `limit` rows, each a stored row, newest first. */
  lemma PageOfFacts(ps: seq<Patient>, page: Option<int>, limit: Option<int>)
    ensures PageSize(limit) > 0 ==> |PageOf(ps, page, limit)| <= PageSize(limit)
    ensures forall r :: r in PageOf(ps, page, limit) ==> exists p :: p in ps && r == ToSearchRow(p)
  {
    var sorted := SortByNewest(ps);
    var w := Window(sorted, Offset(page, limit), PageSize(limit));
    forall r | r in PageOf(ps, page, limit)
      ensures exists p :: p in ps && r == ToSearchRow(p)
    {
      var k :| 0 <= k < |w| && PageOf(ps, page, limit)[k] == r;
      assert w[k] in multiset(sorted);
    }
  }

  /** The rows of a page occur in the newest-first order of the whole table. */
  lemma WindowKeepsOrder(s: seq<Patient>, offset: int, limit: int)
    requires NewestFirst(s)
    ensures NewestFirst(Window(s, offset, limit))
  {
  }

  // ---------------- The table ----------------

  class Registry {
    var patients: seq<Patient>

    ghost predicate Valid()
      reads this
    {
      UniqueIds(patients)
    }

    constructor ()
      ensures Valid() && patients == []
    {
      patients := [];
    }

    /** findPossibleDuplicates: every stored patient matching by phone or by name and birth date, once each. */
    method FindPossibleDuplicates(input: PatientInput) returns (duplicates: seq<Patient>)
      requires Valid()
      ensures duplicates == Duplicates(patients, input)
      ensures forall q :: q in duplicates ==> q in patients && IsPossibleDuplicate(q, input)
      ensures forall p :: p in patients && IsPossibleDuplicate(p, input) ==> p in duplicates
      ensures DistinctIds(duplicates)
    {
      var results: seq<Patient> := [];
      if Truthy(input.phoneNumber) {
        results := results + Where(patients, ByPhone(input.phoneNumber.value));
      }
      if input.name != "" && Truthy(input.birthDate) {
        results := results + Where(patients, ByNameAndBirth(input.name, input.birthDate.value));
      }
      assert results == Candidates(patients, input);
      duplicates := UniqueById(results);
      DuplicatesExact(patients, input);
    }

    /** generateDisplayId over the stored display ids. */
    method GenerateDisplayId(year: nat) returns (displayId: string)
      ensures displayId == DisplayIds.NextDisplayId(DisplayIdsOf(patients), year)
      ensures (forall p :: p in patients ==> !StartsWith(p.displayId, DisplayIds.Prefix(year))) ==>
                displayId == DisplayIds.DisplayIdFor(year, 1)
    {
      displayId := DisplayIds.NextDisplayId(DisplayIdsOf(patients), year);
      var ids := DisplayIdsOf(patients);
      if forall p :: p in patients ==> !StartsWith(p.displayId, DisplayIds.Prefix(year)) {
        forall id | id in ids
          ensures !StartsWith(id, DisplayIds.Prefix(year))
        {
          var k :| 0 <= k < |ids| && ids[k] == id;
          assert patients[k] in patients;
        }
        DisplayIds.FirstOfYear(ids, year);
      }
    }

    /** Appends a registered row under a fresh id. */
    method Insert(p: Patient)
      requires Valid() && !HasId(patients, p.id)
      modifies this
      ensures Valid() && patients == old(patients) + [p]
    {
      patients := patients + [p];
    }

    /**
     * createPatient: refuses with the duplicate list and leaves the table
     * alone when any duplicate exists; otherwise stores exactly one new row.
     */
    method CreatePatient(input: PatientInput, uuid: string, year: nat, now: int) returns (outcome: CreateOutcome)
      requires Valid() && !HasId(patients, PatientId(uuid))
      modifies this
      ensures Valid()
      ensures Duplicates(old(patients), input) != [] ==>
                outcome == PossibleDuplicate(Duplicates(old(patients), input)) && patients == old(patients)
      ensures Duplicates(old(patients), input) == [] ==>
                && outcome == Created(NewPatient(input, PatientId(uuid),
                                                 DisplayIds.NextDisplayId(DisplayIdsOf(old(patients)), year), now))
                && patients == old(patients) + [outcome.patient]
    {
      var duplicates := FindPossibleDuplicates(input);
      if |duplicates| > 0 {
        return PossibleDuplicate(duplicates);
      }
      var id := PatientId(uuid);
      var displayId := GenerateDisplayId(year);
      var patient := NewPatient(input, id, displayId, now);
      Insert(patient);
      outcome := Created(patient);
    }

    /** forceCreatePatient: stores exactly one new row whatever the duplicates. */
    method ForceCreatePatient(input: PatientInput, uuid: string, year: nat, now: int) returns (patient: Patient)
      requires Valid() && !HasId(patients, PatientId(uuid))
      modifies this
      ensures Valid()
      ensures patient == NewPatient(input, PatientId(uuid), DisplayIds.NextDisplayId(DisplayIdsOf(old(patients)), year), now)
      ensures patients == old(patients) + [patient]
    {
      var id := PatientId(uuid);
      var displayId := GenerateDisplayId(year);
      patient := NewPatient(input, id, displayId, now);
      Insert(patient);
    }

    /** getPatientById: the row with that id, None when there is none. */
    method GetPatientById(id: string) returns (r: Option<Patient>)
      ensures r.Some? <==> HasId(patients, id)
      ensures r.Some? ==> r.value in patients && r.value.id == id
    {
      r := FirstWhere(patients, ById(id));
      if r.Some? {
        var k :| 0 <= k < |patients| && patients[k] == r.value;
      } else {
        forall k | 0 <= k < |patients|
          ensures patients[k].id != id
        {
          assert patients[k] in patients;
        }
      }
    }

    /** getPatientByDisplayId: a row with that display id, None when there is none. */
    method GetPatientByDisplayId(displayId: string) returns (r: Option<Patient>)
      ensures r.Some? ==> r.value in patients && r.value.displayId == displayId
      ensures r.None? <==> forall p :: p in patients ==> p.displayId != displayId
    {
      r := FirstWhere(patients, ByDisplayId(displayId));
    }

    /**
     * updatePatient: the row with that id gets the supplied fields and a new
     * `updatedAt`; every other row is untouched; the refreshed row is
     * returned, None for an unknown id.
     */
    method UpdatePatient(id: string, updates: PatientUpdate, now: int) returns (r: Option<Patient>)
      requires Valid()
      modifies this
      ensures Valid()
      ensures patients == UpdateRows(old(patients), id, updates, now)
      ensures r.Some? <==> HasId(old(patients), id)
      ensures forall k :: 0 <= k < |old(patients)| && old(patients)[k].id == id ==>
                r == Some(Merge(old(patients)[k], updates, now))
    {
      patients := UpdateRows(patients, id, updates, now);
      r := GetPatientById(id);
      if r.Some? {
        var k :| 0 <= k < |patients| && patients[k] == r.value;
      }
    }

    /** searchPatients: one page of the rows matching the query, and how many match. */
    method SearchPatients(query: string, page: Option<int>, limit: Option<int>) returns (rows: seq<SearchRow>, total: nat)
      ensures rows == PageOf(Where(patients, ByText(query)), page, limit)
      ensures total == |Where(patients, ByText(query))|
      ensures PageSize(limit) > 0 ==> |rows| <= PageSize(limit)
      ensures forall r :: r in rows ==> exists p :: p in patients && Satisfies(p, ByText(query)) && r == ToSearchRow(p)
    {
      var matching := Where(patients, ByText(query));
      rows := PageOf(matching, page, limit);
      total := |matching|;
      PageOfFacts(matching, page, limit);
    }

    /** listPatients: one page of the table, its size and the number of pages. */
    method ListPatients(page: Option<int>, limit: Option<int>) returns (rows: seq<SearchRow>, total: nat, pages: int)
      ensures rows == PageOf(patients, page, limit)
      ensures total == |patients|
      ensures pages == PageCount(total, PageSize(limit))
      ensures PageSize(limit) > 0 ==> |rows| <= PageSize(limit) && pages * PageSize(limit) >= total
    {
      rows := PageOf(patients, page, limit);
      total := |patients|;
      pages := PageCount(total, PageSize(limit));
      PageOfFacts(patients, page, limit);
      if PageSize(limit) > 0 {
        PageCountIsCeiling(total, PageSize(limit));
      }
    }
  }
}
