/** The validate phase: the counts the pipeline reports before it transforms
    anything. */
module Quality {
  import opened Common
  import opened SourceRecords
  import opened NhsNumber
  import opened SeqUtil
  import opened Dimensions

  predicate HasValidNhs(p: PasPatient) { ValidateNhsNumber(p.nhsNumber) }
  predicate HasDiagnosis(e: Encounter) { !e.primaryDiagnosis.NoDiagnosis? }
  predicate HasDictDiagnosis(e: Encounter) { e.primaryDiagnosis.DictDiagnosis? }
  predicate IsCompleted(l: LabResult) { l.status == "Completed" }
  predicate IsAttended(a: Appointment) { a.attendanceStatus == "Attended" }
  predicate IsPast(a: Appointment) { a.attendanceStatus != "Scheduled" }

  /** Check 1: PAS rows whose NHS number passes the modulus-11 check. */
  function ValidNhsCount(pas: seq<PasPatient>): (n: nat)
    ensures n <= |pas|
    ensures n == |Positions(pas, HasValidNhs)|
  {
    CountIsPositions(pas, HasValidNhs);
    Count(pas, HasValidNhs)
  }

  /** Every NHS number is valid exactly when the count reaches the row count;
      none is valid exactly when it is zero. */
  lemma ValidNhsCountExtremes(pas: seq<PasPatient>)
    ensures ValidNhsCount(pas) == |pas| <==> forall i :: 0 <= i < |pas| ==> ValidateNhsNumber(pas[i].nhsNumber)
    ensures (forall i :: 0 <= i < |pas| ==> !ValidateNhsNumber(pas[i].nhsNumber)) ==> ValidNhsCount(pas) == 0
  {
    CountAll(pas, HasValidNhs);
    if forall i :: 0 <= i < |pas| ==> !ValidateNhsNumber(pas[i].nhsNumber) {
      CountNone(pas, HasValidNhs);
    }
  }

  /** Check 3: encounters whose `primary_diagnosis` cell is not null. */
  function WithDiagnosisCount(ehr: seq<Encounter>): (n: nat)
    ensures n <= |ehr|
    ensures n == |Positions(ehr, HasDiagnosis)|
  {
    CountIsPositions(ehr, HasDiagnosis);
    Count(ehr, HasDiagnosis)
  }

  /** Check 4: lab tests with status `Completed`. */
  function CompletedCount(lims: seq<LabResult>): (n: nat)
    ensures n <= |lims|
    ensures n == |Positions(lims, IsCompleted)|
  {
    CountIsPositions(lims, IsCompleted);
    Count(lims, IsCompleted)
  }

  /** Check 5, numerator: appointments attended. */
  function AttendedCount(apts: seq<Appointment>): (n: nat)
    ensures n <= |apts|
    ensures n == |Positions(apts, IsAttended)|
  {
    CountIsPositions(apts, IsAttended);
    Count(apts, IsAttended)
  }

  /** Check 5, denominator: appointments not still `Scheduled`. */
  function PastCount(apts: seq<Appointment>): (n: nat)
    ensures n <= |apts|
    ensures n == |Positions(apts, IsPast)|
  {
    CountIsPositions(apts, IsPast);
    Count(apts, IsPast)
  }

  /** An attended appointment is never a scheduled one, so the attendance
      rate's numerator never exceeds its denominator. */
  lemma AttendedAtMostPast(apts: seq<Appointment>)
    ensures AttendedCount(apts) <= PastCount(apts)
  {
    CountMonotone(apts, IsAttended, IsPast);
  }

  /** The diagnosis loop collects one pair per dict-valued diagnosis. */
  lemma {:induction false} DiagnosisDataCount(ehr: seq<Encounter>)
    ensures |DiagnosisData(ehr)| == Count(ehr, HasDictDiagnosis)
  {
    if ehr != [] {
      DiagnosisDataCount(ehr[..|ehr| - 1]);
    }
  }

  /** dim_diagnosis never has more rows than there are encounters with a
      diagnosis. */
  lemma DimDiagnosisAtMostWithDiagnosis(ehr: seq<Encounter>)
    ensures |BuildDimDiagnosis(ehr)| <= WithDiagnosisCount(ehr)
  {
    DiagnosisDataCount(ehr);
    CountMonotone(ehr, HasDictDiagnosis, HasDiagnosis);
    assert |BuildDimDiagnosis(ehr)| == |Unique(DiagnosisData(ehr))|;
  }

  /** Number of PAS columns, and how many of them a row fills. */
  const PasColumns: nat := 23

  function FilledCells(p: PasPatient): (n: nat)
    ensures 18 <= n <= PasColumns
    ensures n == PasColumns <==> p.phone.Some? && p.email.Some? && p.nokName.Some? && p.nokRelationship.Some? && p.nokPhone.Some?
  {
    18 + (if p.phone.Some? then 1 else 0) + (if p.email.Some? then 1 else 0)
       + (if p.nokName.Some? then 1 else 0) + (if p.nokRelationship.Some? then 1 else 0)
       + (if p.nokPhone.Some? then 1 else 0)
  }

  predicate FullyFilled(p: PasPatient)
  {
    FilledCells(p) == PasColumns
  }

  function TotalFilled(pas: seq<PasPatient>): (n: nat)
    ensures n <= PasColumns * |pas|
  {
    if pas == [] then 0 else TotalFilled(pas[..|pas| - 1]) + FilledCells(pas[|pas| - 1])
  }

  lemma {:induction false} TotalFilledFull(pas: seq<PasPatient>)
    ensures TotalFilled(pas) == PasColumns * |pas| <==> forall i :: 0 <= i < |pas| ==> FullyFilled(pas[i])
  {
    if pas != [] {
      var n := |pas| - 1;
      TotalFilledFull(pas[..n]);
      assert forall i :: 0 <= i < n ==> pas[..n][i] == pas[i];
    }
  }

  lemma PercentInRange(part: real, whole: real)
    requires 0.0 <= part <= whole && whole > 0.0
    ensures 0.0 <= 100.0 * part / whole <= 100.0
  {
    assert part / whole <= 1.0;
  }

  /** Check 2: the mean, over the 23 columns, of each column's percentage of
      non-null cells. With no rows every percentage is NaN (`None`). */
  function Completeness(pas: seq<PasPatient>): (c: Option<real>)
    ensures c.Some? <==> |pas| > 0
    ensures c.Some? ==> 0.0 <= c.value <= 100.0
  {
    if |pas| == 0 then None
    else
      var total := TotalFilled(pas);
      PercentInRange(total as real, (PasColumns * |pas|) as real);
      Some(100.0 * total as real / (PasColumns * |pas|) as real)
  }

  /** Completeness is exactly 100% when every optional field of every row is
      present. */
  lemma CompletenessFull(pas: seq<PasPatient>)
    requires |pas| > 0
    ensures Completeness(pas) == Some(100.0) <==> forall i :: 0 <= i < |pas| ==> FullyFilled(pas[i])
  {
    TotalFilledFull(pas);
    var d := (PasColumns * |pas|) as real;
    var t := TotalFilled(pas) as real;
    assert Completeness(pas) == Some(100.0 * t / d);
    assert 100.0 * t / d == 100.0 <==> t == d;
  }

  /** The five checks' figures. */
  datatype QualityReport = QualityReport(
    validNhs: nat, patients: nat,
    completeness: Option<real>,
    withDiagnosis: nat, encounters: nat,
    completedTests: nat, labTests: nat,
    attended: nat, pastAppointments: nat)

  function RunQualityChecks(src: Sources): (r: QualityReport)
    ensures r.validNhs <= r.patients == |src.pas|
    ensures r.withDiagnosis <= r.encounters == |src.ehr|
    ensures r.completedTests <= r.labTests == |src.lims|
    ensures r.attended <= r.pastAppointments <= |src.appointments|
    ensures r.completeness.Some? <==> |src.pas| > 0
  {
    AttendedAtMostPast(src.appointments);
    QualityReport(
      ValidNhsCount(src.pas), |src.pas|,
      Completeness(src.pas),
      WithDiagnosisCount(src.ehr), |src.ehr|,
      CompletedCount(src.lims), |src.lims|,
      AttendedCount(src.appointments), PastCount(src.appointments))
  }
}
