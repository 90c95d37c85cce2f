/** The three conformed dimensions of the star schema: `dim_patient`,
    `dim_date` and `dim_diagnosis` (scripts/etl_pipeline.py, transform phase). */
module Dimensions {
  import opened Common
  import opened Calendar
  import opened SourceRecords
  import opened SeqUtil

  // ---------------------------------------------------------------- dim_patient

  /** The eleven projected PAS columns plus the surrogate `patient_key`. */
  datatype DimPatientRow = DimPatientRow(
    patientId: string,
    nhsNumber: string,
    title: string,
    firstName: string,
    lastName: string,
    dateOfBirth: string,
    age: int,
    gender: string,
    ethnicity: string,
    postcode: string,
    city: string,
    patientKey: nat)

  /** The row carries the patient's eleven projected columns unchanged. */
  predicate ProjectsPatient(row: DimPatientRow, p: PasPatient)
  {
    && row.patientId == p.patientId
    && row.nhsNumber == p.nhsNumber
    && row.title == p.title
    && row.firstName == p.firstName
    && row.lastName == p.lastName
    && row.dateOfBirth == p.dateOfBirth
    && row.age == p.age
    && row.gender == p.gender
    && row.ethnicity == p.ethnicity
    && row.postcode == p.postcode
    && row.city == p.city
  }

  /** `df_pas[[...11 columns...]]` with `patient_key = range(1, N + 1)`. */
  function BuildDimPatient(pas: seq<PasPatient>): (dim: seq<DimPatientRow>)
    ensures |dim| == |pas|
    ensures forall i :: 0 <= i < |dim| ==> ProjectsPatient(dim[i], pas[i]) && dim[i].patientKey == i + 1
  {
    seq(|pas|, i requires 0 <= i < |pas| =>
      var p := pas[i];
      DimPatientRow(p.patientId, p.nhsNumber, p.title, p.firstName, p.lastName, p.dateOfBirth,
                    p.age, p.gender, p.ethnicity, p.postcode, p.city, i + 1))
  }

  function PatientKeys(dim: seq<DimPatientRow>): seq<nat>
  {
    seq(|dim|, i requires 0 <= i < |dim| => dim[i].patientKey)
  }

  /** The surrogate keys are exactly 1..N, each used once. */
  lemma PatientKeysAreDense(pas: seq<PasPatient>)
    ensures Distinct(PatientKeys(BuildDimPatient(pas)))
    ensures forall k :: k in Elements(PatientKeys(BuildDimPatient(pas))) <==> 1 <= k <= |pas|
  {
    var keys := PatientKeys(BuildDimPatient(pas));
    forall k: int | 1 <= k <= |pas|
      ensures k in Elements(keys)
    {
      assert keys[k - 1] == k;
    }
  }

  // ---------------------------------------------------------------- dim_date

  /** A `dim_date` row: the timestamp and the calendar parts derived from it. */
  datatype DimDateRow = DimDateRow(
    date: DateTime,
    dateKey: int,
    year: int,
    quarter: int,
    month: int,
    day: int,
    dayOfWeek: int)

  /** `pd.concat` of the encounter, lab-order and appointment date columns. */
  function EventTimestamps(src: Sources): (ts: seq<DateTime>)
    ensures |ts| == |src.ehr| + |src.lims| + |src.appointments|
  {
    seq(|src.ehr|, i requires 0 <= i < |src.ehr| => src.ehr[i].encounterDate)
    + seq(|src.lims|, i requires 0 <= i < |src.lims| => src.lims[i].orderDate)
    + seq(|src.appointments|, i requires 0 <= i < |src.appointments| => src.appointments[i].appointmentDate)
  }

  /** The concatenation lists the encounter dates, then the lab order
      dates, then the appointment dates, each in source order. */
  lemma EventTimestampsContents(src: Sources)
    ensures forall i :: 0 <= i < |src.ehr| ==> EventTimestamps(src)[i] == src.ehr[i].encounterDate
    ensures forall i :: 0 <= i < |src.lims| ==> EventTimestamps(src)[|src.ehr| + i] == src.lims[i].orderDate
    ensures forall i :: 0 <= i < |src.appointments| ==>
              EventTimestamps(src)[|src.ehr| + |src.lims| + i] == src.appointments[i].appointmentDate
  {
    var a := seq(|src.ehr|, i requires 0 <= i < |src.ehr| => src.ehr[i].encounterDate);
    var b := seq(|src.lims|, i requires 0 <= i < |src.lims| => src.lims[i].orderDate);
    var c := seq(|src.appointments|, i requires 0 <= i < |src.appointments| => src.appointments[i].appointmentDate);
    assert EventTimestamps(src) == (a + b) + c;
    assert forall i :: 0 <= i < |a| ==> ((a + b) + c)[i] == a[i];
    assert forall i :: 0 <= i < |b| ==> ((a + b) + c)[|a| + i] == b[i];
    assert forall i :: 0 <= i < |c| ==> ((a + b) + c)[|a| + |b| + i] == c[i];
  }

  /** Non-decreasing in time. */
  predicate SortedByTime(s: seq<Timestamp>)
  {
    forall i, j :: 0 <= i < j < |s| ==> !Before(s[j], s[i])
  }

  /** Strictly increasing in time. */
  predicate StrictlyIncreasing(s: seq<Timestamp>)
  {
    forall i, j :: 0 <= i < j < |s| ==> Before(s[i], s[j])
  }

  /** Putting `y` in front of a sorted sequence keeps it sorted when nothing
      in it comes before `y`. */
  lemma ConsSorted(y: Timestamp, s: seq<Timestamp>)
    requires SortedByTime(s)
    requires forall j :: 0 <= j < |s| ==> !Before(s[j], y)
    ensures SortedByTime([y] + s)
  {
    var r := [y] + s;
    forall i, j | 0 <= i < j < |r|
      ensures !Before(r[j], r[i])
    {
      if i > 0 {
        assert r[i] == s[i - 1] && r[j] == s[j - 1];
      }
    }
  }

  /** `x` may go in front of a sorted sequence whose head does not come before it. */
  lemma InsertAtHead(x: Timestamp, s: seq<Timestamp>)
    requires SortedByTime(s) && s != [] && !Before(s[0], x)
    ensures SortedByTime([x] + s)
  {
    forall j | 0 <= j < |s|
      ensures !Before(s[j], x)
    {
      BeforeIsStrictTotalOrder(s[j], s[0], x);
    }
    ConsSorted(x, s);
  }

  /** The head of a sorted sequence stays in front when `x`, which follows
      it, is inserted into the tail. */
  lemma InsertAfterHead(x: Timestamp, s: seq<Timestamp>, rest: seq<Timestamp>)
    requires SortedByTime(s) && s != [] && Before(s[0], x)
    requires SortedByTime(rest) && multiset(rest) == multiset(s[1..]) + multiset{x}
    ensures SortedByTime([s[0]] + rest)
  {
    forall j | 0 <= j < |rest|
      ensures !Before(rest[j], s[0])
    {
      assert rest[j] in multiset(rest);
      if rest[j] != x {
        var k :| 0 <= k < |s[1..]| && s[1..][k] == rest[j];
        assert s[k + 1] == rest[j];
      }
      BeforeIsStrictTotalOrder(rest[j], s[0], x);
    }
    ConsSorted(s[0], rest);
  }

  /** One insertion step: `x` goes before the first element it does not
      follow. */
  function InsertByTime(x: DateTime, s: seq<DateTime>): (r: seq<DateTime>)
    requires SortedByTime(s)
    ensures SortedByTime(r)
    ensures multiset(r) == multiset(s) + multiset{x}
  {
    if s == [] then [x]
    else if !Before(s[0], x) then
      InsertAtHead(x, s);
      [x] + s
    else
      var rest := InsertByTime(x, s[1..]);
      InsertAfterHead(x, s, rest);
      assert s == [s[0]] + s[1..];
      [s[0]] + rest
  }

  /** `sort_values('date')`, as an insertion sort on timestamps. */
  function SortByTime(xs: seq<DateTime>): (r: seq<DateTime>)
    ensures SortedByTime(r)
    ensures multiset(r) == multiset(xs)
  {
    if xs == [] then []
    else
      var n := |xs| - 1;
      assert xs == xs[..n] + [xs[n]];
      InsertByTime(xs[n], SortByTime(xs[..n]))
  }

  lemma SortedDistinctIsStrict(s: seq<Timestamp>)
    requires SortedByTime(s) && Distinct(s)
    ensures StrictlyIncreasing(s)
  {
    forall i, j | 0 <= i < j < |s|
      ensures Before(s[i], s[j])
    {
      BeforeIsStrictTotalOrder(s[i], s[j], s[j]);
    }
  }

  /** One `dim_date` row for a timestamp. */
  function DateRow(t: DateTime): DimDateRow
  {
    DimDateRow(t, DateKey(t), t.year, Quarter(t), t.month, t.day, DayOfWeek(t))
  }

  /** The calendar columns of a row agree with its timestamp. */
  predicate WellFormedDateRow(r: DimDateRow)
  {
    && r.dateKey == YmdKey(r.date)
    && r.year == r.date.year && r.month == r.date.month && r.day == r.date.day
    && 1 <= r.quarter <= 4 && 3 * r.quarter - 2 <= r.month <= 3 * r.quarter
    && r.dayOfWeek == DayOfWeek(r.date)
  }

  /** The timestamps in `dim_date`: the distinct event timestamps, sorted. */
  function DimDateTimestamps(src: Sources): (ts: seq<DateTime>)
    ensures StrictlyIncreasing(ts)
    ensures Elements(ts) == Elements(EventTimestamps(src))
  {
    var all := EventTimestamps(src);
    var u := Unique(all);
    var ts := SortByTime(u);
    PermutationKeepsDistinct(u, ts);
    SortedDistinctIsStrict(ts);
    assert forall t :: t in ts <==> t in multiset(u);
    ts
  }

  /** Calendar rows for a sequence of timestamps, in the same order. */
  function DateRows(ts: seq<DateTime>): (dim: seq<DimDateRow>)
    ensures |dim| == |ts|
    ensures forall i :: 0 <= i < |dim| ==> dim[i].date == ts[i] && WellFormedDateRow(dim[i])
  {
    seq(|ts|, i requires 0 <= i < |ts| => DateRow(ts[i]))
  }

  /** `dim_date`: one row per distinct event timestamp, ascending. */
  function BuildDimDate(src: Sources): (dim: seq<DimDateRow>)
    ensures forall i :: 0 <= i < |dim| ==> WellFormedDateRow(dim[i])
    ensures forall i, j :: 0 <= i < j < |dim| ==> Before(dim[i].date, dim[j].date)
    ensures forall i :: 0 <= i < |dim| ==> dim[i].date in EventTimestamps(src)
    ensures forall t {:trigger DateListed(dim, t)} :: t in EventTimestamps(src) ==> DateListed(dim, t)
  {
    DateRowsFromEvents(src);
    DateRowsCoverEvents(src);
    DateRows(DimDateTimestamps(src))
  }

  /** Every `dim_date` timestamp is an event timestamp. */
  lemma DateRowsFromEvents(src: Sources)
    ensures var dim := DateRows(DimDateTimestamps(src));
      forall i :: 0 <= i < |dim| ==> dim[i].date in EventTimestamps(src)
  {
    var ts := DimDateTimestamps(src);
    forall i | 0 <= i < |ts|
      ensures ts[i] in EventTimestamps(src)
    {
      assert ts[i] in Elements(EventTimestamps(src));
    }
  }

  /** Every event timestamp has a `dim_date` row. */
  lemma DateRowsCoverEvents(src: Sources)
    ensures var dim := DateRows(DimDateTimestamps(src));
      forall t {:trigger DateListed(dim, t)} :: t in EventTimestamps(src) ==> DateListed(dim, t)
  {
    var ts := DimDateTimestamps(src);
    var dim := DateRows(ts);
    forall t | t in EventTimestamps(src)
      ensures DateListed(dim, t)
    {
      assert t in Elements(ts);
      assert dim[IndexOf(ts, t)].date == t;
    }
  }

  /** Some row of `dim` is for the timestamp `t`. */
  predicate DateListed(dim: seq<DimDateRow>, t: DateTime)
  {
    exists i :: 0 <= i < |dim| && dim[i].date == t
  }

  /** Two strictly increasing sequences with the same elements are equal. */
  lemma {:induction false} StrictlyIncreasingUnique(a: seq<DateTime>, b: seq<DateTime>)
    requires StrictlyIncreasing(a) && StrictlyIncreasing(b)
    requires Elements(a) == Elements(b)
    ensures a == b
    decreases |a|
  {
    assert a != [] ==> a[0] in Elements(b);
    assert b != [] ==> b[0] in Elements(a);
    if a != [] && b != [] {
      var k := IndexOf(b, a[0]);
      var m := IndexOf(a, b[0]);
      if k > 0 && m > 0 {
        BeforeIsStrictTotalOrder(b[0], a[0], a[0]);
        assert false;
      }
      assert a[0] == b[0];
      assert a[0] !in a[1..] && b[0] !in b[1..];
      assert Elements(a) == Elements(a[1..]) + {a[0]};
      assert Elements(b) == Elements(b[1..]) + {b[0]};
      assert Elements(a[1..]) == Elements(b[1..]);
      StrictlyIncreasingUnique(a[1..], b[1..]);
      assert a == [a[0]] + a[1..] && b == [b[0]] + b[1..];
    }
  }

  /** `dim_date` depends only on the set of event timestamps, not on the order
      or multiplicity in which the sources list them. */
  lemma DimDateDeterministic(src1: Sources, src2: Sources)
    requires Elements(EventTimestamps(src1)) == Elements(EventTimestamps(src2))
    ensures BuildDimDate(src1) == BuildDimDate(src2)
  {
    StrictlyIncreasingUnique(DimDateTimestamps(src1), DimDateTimestamps(src2));
  }

  /** `all_dates.unique()` deduplicates full timestamps: two events on the same
      day at different times yield two `dim_date` rows with one `date_key`. */
  lemma SameDayDistinctTimesShareDateKey(src: Sources, t1: DateTime, t2: DateTime)
    requires t1 in EventTimestamps(src) && t2 in EventTimestamps(src)
    requires t1 != t2 && DateOf(t1) == DateOf(t2)
    ensures exists i, j :: 0 <= i < j < |BuildDimDate(src)| &&
                           BuildDimDate(src)[i].dateKey == BuildDimDate(src)[j].dateKey
  {
    var dim := BuildDimDate(src);
    var i := RowOfEvent(src, t1);
    var j := RowOfEvent(src, t2);
    assert WellFormedDateRow(dim[i]) && WellFormedDateRow(dim[j]);
    assert i != j;
    var lo, hi := if i < j then i else j, if i < j then j else i;
    assert dim[lo].dateKey == dim[hi].dateKey;
  }

  /** The `dim_date` row of an event timestamp. */
  lemma RowOfEvent(src: Sources, t: DateTime) returns (i: nat)
    requires t in EventTimestamps(src)
    ensures i < |BuildDimDate(src)| && BuildDimDate(src)[i].date == t
  {
    var dim := BuildDimDate(src);
    assert DateListed(dim, t);
    i :| 0 <= i < |dim| && dim[i].date == t;
  }

  /** The set of `date_key`s is exactly the set of YYYYMMDD values of the
      event timestamps. */
  lemma DimDateKeysAreEventDays(src: Sources, key: int)
    ensures (exists i :: 0 <= i < |BuildDimDate(src)| && BuildDimDate(src)[i].dateKey == key)
        <==> (exists t :: t in EventTimestamps(src) && YmdKey(t) == key)
  {
    var dim := BuildDimDate(src);
    var ev := EventTimestamps(src);
    if t :| t in ev && YmdKey(t) == key {
      assert DateListed(dim, t);
      var i :| 0 <= i < |dim| && dim[i].date == t;
      assert dim[i].dateKey == key;
    }
    if i :| 0 <= i < |dim| && dim[i].dateKey == key {
      var t := dim[i].date;
      assert t in ev;
      assert YmdKey(t) == key;
    }
  }

  // ---------------------------------------------------------------- dim_diagnosis

  /** A `dim_diagnosis` row: a distinct (code, description) pair and its key. */
  datatype DimDiagnosisRow = DimDiagnosisRow(icd10Code: Option<string>, description: Option<string>, diagnosisKey: nat)

  function PairOf(r: DimDiagnosisRow): Diagnosis
  {
    Diagnosis(r.icd10Code, r.description)
  }

  /** The encounter loop collecting dict-valued primary diagnoses. */
  function DiagnosisData(ehr: seq<Encounter>): (data: seq<Diagnosis>)
    ensures |data| <= |ehr|
    ensures forall d :: d in data <==> exists i :: 0 <= i < |ehr| && ehr[i].primaryDiagnosis == DictDiagnosis(d)
  {
    if ehr == [] then []
    else
      var n := |ehr| - 1;
      var rest := DiagnosisData(ehr[..n]);
      assert forall i :: 0 <= i < n ==> ehr[..n][i] == ehr[i];
      match ehr[n].primaryDiagnosis
      case DictDiagnosis(d) => rest + [d]
      case NoDiagnosis => rest
      case OtherDiagnosis => rest
  }

  /** `pd.DataFrame(diagnosis_data).drop_duplicates()` keyed 1..M. */
  function BuildDimDiagnosis(ehr: seq<Encounter>): (dim: seq<DimDiagnosisRow>)
    ensures forall i :: 0 <= i < |dim| ==> dim[i].diagnosisKey == i + 1
    ensures forall i, j :: 0 <= i < j < |dim| ==> PairOf(dim[i]) != PairOf(dim[j])
    ensures forall i {:trigger DiagnosisOccurs(ehr, PairOf(dim[i]))} ::
              0 <= i < |dim| ==> DiagnosisOccurs(ehr, PairOf(dim[i]))
    ensures forall e {:trigger DiagnosisListed(dim, ehr[e].primaryDiagnosis.diagnosis)} ::
              0 <= e < |ehr| && ehr[e].primaryDiagnosis.DictDiagnosis? ==> DiagnosisListed(dim, ehr[e].primaryDiagnosis.diagnosis)
  {
    var pairs := Unique(DiagnosisData(ehr));
    var dim := NumberDiagnoses(pairs);
    assert forall d :: d in pairs ==> PairOf(dim[IndexOf(pairs, d)]) == d;
    dim
  }

  /** Some encounter has the dictionary diagnosis `d`. */
  predicate DiagnosisOccurs(ehr: seq<Encounter>, d: Diagnosis)
  {
    exists e :: 0 <= e < |ehr| && ehr[e].primaryDiagnosis == DictDiagnosis(d)
  }

  /** Some dim_diagnosis row holds the pair `d`. */
  predicate DiagnosisListed(dim: seq<DimDiagnosisRow>, d: Diagnosis)
  {
    exists i :: 0 <= i < |dim| && PairOf(dim[i]) == d
  }

  /** `diagnosis_key = range(1, len + 1)` assigned by position: one row per pair, in order. */
  function NumberDiagnoses(pairs: seq<Diagnosis>): (dim: seq<DimDiagnosisRow>)
    ensures |dim| == |pairs|
    ensures forall i :: 0 <= i < |dim| ==> dim[i].diagnosisKey == i + 1 && PairOf(dim[i]) == pairs[i]
  {
    seq(|pairs|, i requires 0 <= i < |pairs| => DimDiagnosisRow(pairs[i].icd10Code, pairs[i].description, i + 1))
  }

  /** Diagnosis keys follow the order in which each pair first occurs. */
  lemma DiagnosisKeysFollowFirstOccurrence(ehr: seq<Encounter>)
    ensures forall i, j :: 0 <= i < j < |BuildDimDiagnosis(ehr)| ==>
      IndexOf(DiagnosisData(ehr), PairOf(BuildDimDiagnosis(ehr)[i]))
        < IndexOf(DiagnosisData(ehr), PairOf(BuildDimDiagnosis(ehr)[j]))
  {
    UniqueKeepsFirstOccurrenceOrder(DiagnosisData(ehr));
    var pairs := Unique(DiagnosisData(ehr));
    assert forall i :: 0 <= i < |BuildDimDiagnosis(ehr)| ==> PairOf(BuildDimDiagnosis(ehr)[i]) == pairs[i];
  }
}
