/** The three fact tables: each source event row left-joined to `dim_patient`
    on `nhs_number`, with a `date_key` computed from its own timestamp. */
module Facts {
  import opened Common
  import opened Calendar
  import opened SourceRecords
  import opened Dimensions
  import opened SeqUtil

  /** Some `dim_patient` row has this NHS number. */
  predicate HasPatient(nhs: string, dim: seq<DimPatientRow>)
  {
    exists i :: 0 <= i < |dim| && dim[i].nhsNumber == nhs
  }

  /** No NHS number occurs twice in `dim_patient`. */
  predicate NhsUnique(dim: seq<DimPatientRow>)
  {
    forall i, j :: 0 <= i < j < |dim| ==> dim[i].nhsNumber != dim[j].nhsNumber
  }

  /** The `patient_key`s of every `dim_patient` row with this NHS number, in table order. */
  function MatchingKeys(nhs: string, dim: seq<DimPatientRow>): (keys: seq<nat>)
    ensures keys == [] <==> !HasPatient(nhs, dim)
    ensures NhsUnique(dim) ==> |keys| <= 1
  {
    if dim == [] then []
    else
      var n := |dim| - 1;
      var rest := MatchingKeys(nhs, dim[..n]);
      assert forall i :: 0 <= i < n ==> dim[..n][i] == dim[i];
      assert NhsUnique(dim) ==> NhsUnique(dim[..n]);
      assert NhsUnique(dim) && dim[n].nhsNumber == nhs ==> !HasPatient(nhs, dim[..n]);
      if dim[n].nhsNumber == nhs then rest + [dim[n].patientKey] else rest
  }

  /** The matching keys are exactly the keys of the patients with that number. */
  lemma {:induction false} MatchingKeysAreThePatients(nhs: string, dim: seq<DimPatientRow>, k: nat)
    ensures k in MatchingKeys(nhs, dim) <==>
            exists i :: 0 <= i < |dim| && dim[i].nhsNumber == nhs && dim[i].patientKey == k
  {
    if dim != [] {
      var n := |dim| - 1;
      MatchingKeysAreThePatients(nhs, dim[..n], k);
      assert forall i :: 0 <= i < n ==> dim[..n][i] == dim[i];
    }
  }

  lemma {:induction false} MatchingKeysOfTwo(nhs: string, dim: seq<DimPatientRow>, a: nat, b: nat)
    requires a < b < |dim| && dim[a].nhsNumber == nhs == dim[b].nhsNumber
    ensures |MatchingKeys(nhs, dim)| >= 2
  {
    var n := |dim| - 1;
    assert dim[..n][a] == dim[a];
    if b < n {
      assert dim[..n][b] == dim[b];
      MatchingKeysOfTwo(nhs, dim[..n], a, b);
    } else {
      assert HasPatient(nhs, dim[..n]);
    }
  }

  /** The merged `patient_key` is null exactly when no patient has the row's
      NHS number, and otherwise is the key of a patient who has it. */
  predicate ResolvesPatient(key: Option<nat>, nhs: string, dim: seq<DimPatientRow>)
  {
    match key
    case None => !HasPatient(nhs, dim)
    case Some(k) => exists i :: 0 <= i < |dim| && dim[i].nhsNumber == nhs && dim[i].patientKey == k
  }

  /** The keys one left row is merged with: one per match, or a single null. */
  function JoinedKeys(nhs: string, dim: seq<DimPatientRow>): (ks: seq<Option<nat>>)
    ensures 1 <= |ks|
    ensures NhsUnique(dim) ==> |ks| == 1
    ensures |ks| == if HasPatient(nhs, dim) then |MatchingKeys(nhs, dim)| else 1
  {
    var keys := MatchingKeys(nhs, dim);
    if keys == [] then [None]
    else seq(|keys|, j requires 0 <= j < |keys| => Some(keys[j]))
  }

  lemma JoinedKeysResolve(nhs: string, dim: seq<DimPatientRow>)
    ensures forall j :: 0 <= j < |JoinedKeys(nhs, dim)| ==> ResolvesPatient(JoinedKeys(nhs, dim)[j], nhs, dim)
  {
    var keys := MatchingKeys(nhs, dim);
    forall j | 0 <= j < |JoinedKeys(nhs, dim)|
      ensures ResolvesPatient(JoinedKeys(nhs, dim)[j], nhs, dim)
    {
      if keys != [] {
        MatchingKeysAreThePatients(nhs, dim, keys[j]);
      }
    }
  }

  /** The merged rows produced for a single left row. */
  function JoinRow<R>(r: R, nhsOf: R -> string, dim: seq<DimPatientRow>): (out: seq<(R, Option<nat>)>)
    ensures |out| == |JoinedKeys(nhsOf(r), dim)|
    ensures forall j :: 0 <= j < |out| ==> out[j].0 == r
  {
    var ks := JoinedKeys(nhsOf(r), dim);
    seq(|ks|, j requires 0 <= j < |ks| => (r, ks[j]))
  }

  /** `rows.merge(dim_patient[['nhs_number', 'patient_key']], on='nhs_number', how='left')`:
      each left row, in order, once per matching patient or once with a null key. */
  function LeftJoin<R>(rows: seq<R>, nhsOf: R -> string, dim: seq<DimPatientRow>): (out: seq<(R, Option<nat>)>)
    ensures |rows| <= |out|
  {
    FlatMapLength(rows, r => JoinRow(r, nhsOf, dim));
    FlatMap(rows, r => JoinRow(r, nhsOf, dim))
  }

  /** A merged key is null exactly when the row's NHS number matches no
      patient, and otherwise belongs to a patient with that number. */
  lemma {:induction false} LeftJoinResolvesPatients<R>(rows: seq<R>, nhsOf: R -> string, dim: seq<DimPatientRow>)
    ensures forall j :: 0 <= j < |LeftJoin(rows, nhsOf, dim)| ==>
              ResolvesPatient(LeftJoin(rows, nhsOf, dim)[j].1, nhsOf(LeftJoin(rows, nhsOf, dim)[j].0), dim)
  {
    if rows != [] {
      var n := |rows| - 1;
      LeftJoinResolvesPatients(rows[..n], nhsOf, dim);
      var prefix := LeftJoin(rows[..n], nhsOf, dim);
      var tail := JoinRow(rows[n], nhsOf, dim);
      var out := prefix + tail;
      assert LeftJoin(rows, nhsOf, dim) == out;
      forall j | 0 <= j < |out|
        ensures ResolvesPatient(out[j].1, nhsOf(out[j].0), dim)
      {
        if j < |prefix| {
          assert out[j] == prefix[j];
        } else {
          JoinedKeysResolve(nhsOf(rows[n]), dim);
          assert out[j] == tail[j - |prefix|];
        }
      }
    }
  }

  /** The left rows a merge result carries, in order. */
  function LeftRows<R>(out: seq<(R, Option<nat>)>): seq<R>
  {
    seq(|out|, j requires 0 <= j < |out| => out[j].0)
  }

  /** Every merged row is a source row and every source row is merged. */
  lemma {:induction false} LeftJoinKeepsEveryRow<R>(rows: seq<R>, nhsOf: R -> string, dim: seq<DimPatientRow>)
    ensures forall j :: 0 <= j < |LeftJoin(rows, nhsOf, dim)| ==> LeftJoin(rows, nhsOf, dim)[j].0 in rows
    ensures forall i :: 0 <= i < |rows| ==> rows[i] in LeftRows(LeftJoin(rows, nhsOf, dim))
  {
    if rows != [] {
      var n := |rows| - 1;
      var prefix := LeftJoin(rows[..n], nhsOf, dim);
      var tail := JoinRow(rows[n], nhsOf, dim);
      var out := LeftJoin(rows, nhsOf, dim);
      LeftJoinKeepsEveryRow(rows[..n], nhsOf, dim);
      assert out == prefix + tail;
      forall j | 0 <= j < |out|
        ensures out[j].0 in rows
      {
        if j < |prefix| {
          assert out[j] == prefix[j];
          assert prefix[j].0 in rows[..n];
        } else {
          assert out[j] == tail[j - |prefix|];
        }
      }
      forall i | 0 <= i < |rows|
        ensures rows[i] in LeftRows(out)
      {
        if i < n {
          assert rows[..n][i] == rows[i];
          assert rows[i] in LeftRows(prefix);
          var j :| 0 <= j < |prefix| && LeftRows(prefix)[j] == rows[i];
          assert LeftRows(out)[j] == rows[i];
        } else {
          assert LeftRows(out)[|prefix|] == tail[0].0;
        }
      }
    }
  }

  lemma LeftJoinConcat<R>(xs: seq<R>, ys: seq<R>, nhsOf: R -> string, dim: seq<DimPatientRow>)
    ensures LeftJoin(xs + ys, nhsOf, dim) == LeftJoin(xs, nhsOf, dim) + LeftJoin(ys, nhsOf, dim)
  {
    FlatMapConcat(xs, ys, r => JoinRow(r, nhsOf, dim));
  }

  lemma LeftJoinSingle<R>(r: R, nhsOf: R -> string, dim: seq<DimPatientRow>)
    ensures LeftJoin([r], nhsOf, dim) == JoinRow(r, nhsOf, dim)
  {
    assert [r][..0] == [];
    assert LeftJoin([r], nhsOf, dim) == LeftJoin([], nhsOf, dim) + JoinRow(r, nhsOf, dim);
  }

  /** With unique NHS numbers in `dim_patient` the join is one-to-one: the
      fact table has exactly the source rows, in source order. */
  lemma {:induction false} LeftJoinOneToOne<R>(rows: seq<R>, nhsOf: R -> string, dim: seq<DimPatientRow>)
    requires NhsUnique(dim)
    ensures |LeftJoin(rows, nhsOf, dim)| == |rows|
    ensures forall i :: 0 <= i < |rows| ==> LeftJoin(rows, nhsOf, dim)[i].0 == rows[i]
  {
    if rows != [] {
      var n := |rows| - 1;
      LeftJoinOneToOne(rows[..n], nhsOf, dim);
      var prefix := LeftJoin(rows[..n], nhsOf, dim);
      assert forall i :: 0 <= i < n ==> prefix[i].0 == rows[..n][i] == rows[i];
      assert LeftJoin(rows, nhsOf, dim) == prefix + JoinRow(rows[n], nhsOf, dim);
    }
  }

  /** A patient NHS number listed twice fans out every event row that uses it. */
  lemma LeftJoinFansOut<R>(rows: seq<R>, nhsOf: R -> string, dim: seq<DimPatientRow>, i: nat, a: nat, b: nat)
    requires i < |rows| && a < b < |dim|
    requires dim[a].nhsNumber == nhsOf(rows[i]) == dim[b].nhsNumber
    ensures |LeftJoin(rows, nhsOf, dim)| > |rows|
  {
    MatchingKeysOfTwo(nhsOf(rows[i]), dim, a, b);
    assert rows == rows[..i] + [rows[i]] + rows[i + 1..];
    LeftJoinConcat(rows[..i] + [rows[i]], rows[i + 1..], nhsOf, dim);
    LeftJoinConcat(rows[..i], [rows[i]], nhsOf, dim);
    LeftJoinSingle(rows[i], nhsOf, dim);
  }

  /** The null-key rows of a left join are exactly the unmatched source rows:
      unmatched rows appear once with a null key, matched rows never do. */
  lemma {:induction false} LeftJoinNullKeys<R>(rows: seq<R>, nhsOf: R -> string, dim: seq<DimPatientRow>,
                                               isNull: ((R, Option<nat>)) -> bool, unmatched: R -> bool)
    requires forall m :: isNull(m) == m.1.None?
    requires forall r :: unmatched(r) == !HasPatient(nhsOf(r), dim)
    ensures Count(LeftJoin(rows, nhsOf, dim), isNull) == Count(rows, unmatched)
  {
    if rows != [] {
      var n := |rows| - 1;
      LeftJoinNullKeys(rows[..n], nhsOf, dim, isNull, unmatched);
      var tail := JoinRow(rows[n], nhsOf, dim);
      assert LeftJoin(rows, nhsOf, dim) == LeftJoin(rows[..n], nhsOf, dim) + tail;
      CountConcat(LeftJoin(rows[..n], nhsOf, dim), tail, isNull);
      JoinRowNullCount(rows[n], nhsOf, dim, isNull);
    }
  }

  lemma JoinRowNullCount<R>(r: R, nhsOf: R -> string, dim: seq<DimPatientRow>, isNull: ((R, Option<nat>)) -> bool)
    requires forall m :: isNull(m) == m.1.None?
    ensures Count(JoinRow(r, nhsOf, dim), isNull) == if HasPatient(nhsOf(r), dim) then 0 else 1
  {
    var tail := JoinRow(r, nhsOf, dim);
    JoinedKeysResolve(nhsOf(r), dim);
    if HasPatient(nhsOf(r), dim) {
      assert forall j :: 0 <= j < |tail| ==> !isNull(tail[j]);
      CountNone(tail, isNull);
    } else {
      assert tail == [(r, None)];
      assert tail[..0] == [];
    }
  }

  // ---------------------------------------------------------------- fact tables

  /** A `fact_encounters` row. */
  datatype FactEncounterRow = FactEncounterRow(
    encounterId: string,
    nhsNumber: string,
    encounterDate: DateTime,
    encounterType: string,
    department: string,
    patientKey: Option<nat>,
    dateKey: int)

  /** A `fact_lab_tests` row. */
  datatype FactLabTestRow = FactLabTestRow(
    testId: string,
    nhsNumber: string,
    testType: string,
    testComponent: string,
    orderDate: DateTime,
    resultValue: Option<real>,
    isAbnormal: Option<bool>,
    patientKey: Option<nat>,
    dateKey: int)

  /** A `fact_appointments` row. */
  datatype FactAppointmentRow = FactAppointmentRow(
    appointmentId: string,
    nhsNumber: string,
    appointmentDate: DateTime,
    appointmentType: string,
    specialty: string,
    attendanceStatus: string,
    patientKey: Option<nat>,
    dateKey: int)

  /** The fact row carries the encounter's selected columns unchanged. */
  predicate CarriesEncounter(f: FactEncounterRow, e: Encounter)
  {
    f.encounterId == e.encounterId && f.nhsNumber == e.nhsNumber && f.encounterDate == e.encounterDate
    && f.encounterType == e.encounterType && f.department == e.department
  }

  predicate CarriesLabResult(f: FactLabTestRow, l: LabResult)
  {
    f.testId == l.testId && f.nhsNumber == l.nhsNumber && f.testType == l.testType
    && f.testComponent == l.testComponent && f.orderDate == l.orderDate
    && f.resultValue == l.resultValue && f.isAbnormal == l.isAbnormal
  }

  predicate CarriesAppointment(f: FactAppointmentRow, a: Appointment)
  {
    f.appointmentId == a.appointmentId && f.nhsNumber == a.nhsNumber && f.appointmentDate == a.appointmentDate
    && f.appointmentType == a.appointmentType && f.specialty == a.specialty
    && f.attendanceStatus == a.attendanceStatus
  }

  /** Every encounter row is carried by some row of `fact`. */
  predicate EveryEncounterCarried(ehr: seq<Encounter>, fact: seq<FactEncounterRow>)
  {
    forall i :: 0 <= i < |ehr| ==> exists j :: 0 <= j < |fact| && CarriesEncounter(fact[j], ehr[i])
  }

  /** Every lab result row is carried by some row of `fact`. */
  predicate EveryLabResultCarried(lims: seq<LabResult>, fact: seq<FactLabTestRow>)
  {
    forall i :: 0 <= i < |lims| ==> exists j :: 0 <= j < |fact| && CarriesLabResult(fact[j], lims[i])
  }

  /** Every appointment row is carried by some row of `fact`. */
  predicate EveryAppointmentCarried(apts: seq<Appointment>, fact: seq<FactAppointmentRow>)
  {
    forall i :: 0 <= i < |apts| ==> exists j :: 0 <= j < |fact| && CarriesAppointment(fact[j], apts[i])
  }

  /** The encounter fact row `f` carries some row of `ehr`. */
  predicate EncounterFactSourced(f: FactEncounterRow, ehr: seq<Encounter>)
  {
    exists i :: 0 <= i < |ehr| && CarriesEncounter(f, ehr[i])
  }

  /** The lab-test fact row `f` carries some row of `lims`. */
  predicate LabTestFactSourced(f: FactLabTestRow, lims: seq<LabResult>)
  {
    exists i :: 0 <= i < |lims| && CarriesLabResult(f, lims[i])
  }

  /** The appointment fact row `f` carries some row of `apts`. */
  predicate AppointmentFactSourced(f: FactAppointmentRow, apts: seq<Appointment>)
  {
    exists i :: 0 <= i < |apts| && CarriesAppointment(f, apts[i])
  }

  function EncounterNhs(e: Encounter): string { e.nhsNumber }
  function LabNhs(l: LabResult): string { l.nhsNumber }
  function AppointmentNhs(a: Appointment): string { a.nhsNumber }

  /** The fact row for one merged encounter. */
  function EncounterFact(m: (Encounter, Option<nat>)): (f: FactEncounterRow)
    ensures CarriesEncounter(f, m.0) && f.patientKey == m.1 && f.dateKey == YmdKey(f.encounterDate)
  {
    var e := m.0;
    FactEncounterRow(e.encounterId, e.nhsNumber, e.encounterDate, e.encounterType, e.department,
                     m.1, DateKey(e.encounterDate))
  }

  /** The fact row for one merged lab result. */
  function LabTestFact(m: (LabResult, Option<nat>)): (f: FactLabTestRow)
    ensures CarriesLabResult(f, m.0) && f.patientKey == m.1 && f.dateKey == YmdKey(f.orderDate)
  {
    var l := m.0;
    FactLabTestRow(l.testId, l.nhsNumber, l.testType, l.testComponent, l.orderDate,
                   l.resultValue, l.isAbnormal, m.1, DateKey(l.orderDate))
  }

  /** The fact row for one merged appointment. */
  function AppointmentFact(m: (Appointment, Option<nat>)): (f: FactAppointmentRow)
    ensures CarriesAppointment(f, m.0) && f.patientKey == m.1 && f.dateKey == YmdKey(f.appointmentDate)
  {
    var a := m.0;
    FactAppointmentRow(a.appointmentId, a.nhsNumber, a.appointmentDate, a.appointmentType, a.specialty,
                       a.attendanceStatus, m.1, DateKey(a.appointmentDate))
  }

  function MapRows<A, B>(xs: seq<A>, f: A -> B): (ys: seq<B>)
    ensures |ys| == |xs| && forall j :: 0 <= j < |xs| ==> ys[j] == f(xs[j])
  {
    seq(|xs|, j requires 0 <= j < |xs| => f(xs[j]))
  }

  /** Every encounter fact row's key is null exactly when its NHS number
      matches no patient, and its `date_key` is its event day. */
  lemma EncounterFactsResolve(ehr: seq<Encounter>, dim: seq<DimPatientRow>)
    ensures var fact := MapRows(LeftJoin(ehr, EncounterNhs, dim), EncounterFact);
      forall j :: 0 <= j < |fact| ==>
        ResolvesPatient(fact[j].patientKey, fact[j].nhsNumber, dim) && fact[j].dateKey == YmdKey(fact[j].encounterDate)
  {
    LeftJoinResolvesPatients(ehr, EncounterNhs, dim);
  }

  /** With unique NHS numbers fact row `i` carries encounter row `i`. */
  lemma EncounterFactsOneToOne(ehr: seq<Encounter>, dim: seq<DimPatientRow>)
    ensures var fact := MapRows(LeftJoin(ehr, EncounterNhs, dim), EncounterFact);
      NhsUnique(dim) ==> |fact| == |ehr| && forall i :: 0 <= i < |ehr| ==> CarriesEncounter(fact[i], ehr[i])
  {
    if NhsUnique(dim) {
      var merged := LeftJoin(ehr, EncounterNhs, dim);
      var fact := MapRows(merged, EncounterFact);
      LeftJoinOneToOne(ehr, EncounterNhs, dim);
      forall i | 0 <= i < |ehr|
        ensures CarriesEncounter(fact[i], ehr[i])
      {
        assert fact[i] == EncounterFact(merged[i]) && merged[i].0 == ehr[i];
      }
    }
  }

  /** Every encounter fact row carries some source row. */
  lemma EncounterFactsHaveSources(ehr: seq<Encounter>, dim: seq<DimPatientRow>)
    ensures var fact := MapRows(LeftJoin(ehr, EncounterNhs, dim), EncounterFact);
      forall j {:trigger EncounterFactSourced(fact[j], ehr)} :: 0 <= j < |fact| ==> EncounterFactSourced(fact[j], ehr)
  {
    var merged := LeftJoin(ehr, EncounterNhs, dim);
    var fact := MapRows(merged, EncounterFact);
    LeftJoinKeepsEveryRow(ehr, EncounterNhs, dim);
    forall j | 0 <= j < |fact|
      ensures EncounterFactSourced(fact[j], ehr)
    {
      var i :| 0 <= i < |ehr| && ehr[i] == merged[j].0;
      assert CarriesEncounter(fact[j], ehr[i]);
    }
  }

  /** Every encounter source row is carried by some fact row. */
  lemma EncounterSourcesReachFacts(ehr: seq<Encounter>, dim: seq<DimPatientRow>)
    ensures var fact := MapRows(LeftJoin(ehr, EncounterNhs, dim), EncounterFact);
      EveryEncounterCarried(ehr, fact)
  {
    var merged := LeftJoin(ehr, EncounterNhs, dim);
    var fact := MapRows(merged, EncounterFact);
    LeftJoinKeepsEveryRow(ehr, EncounterNhs, dim);
    forall i | 0 <= i < |ehr|
      ensures exists j :: 0 <= j < |fact| && CarriesEncounter(fact[j], ehr[i])
    {
      var j :| 0 <= j < |merged| && LeftRows(merged)[j] == ehr[i];
      assert CarriesEncounter(fact[j], ehr[i]);
    }
  }

  /** Every lab result fact row's key is null exactly when its NHS number
      matches no patient, and its `date_key` is its event day. */
  lemma LabTestFactsResolve(lims: seq<LabResult>, dim: seq<DimPatientRow>)
    ensures var fact := MapRows(LeftJoin(lims, LabNhs, dim), LabTestFact);
      forall j :: 0 <= j < |fact| ==>
        ResolvesPatient(fact[j].patientKey, fact[j].nhsNumber, dim) && fact[j].dateKey == YmdKey(fact[j].orderDate)
  {
    LeftJoinResolvesPatients(lims, LabNhs, dim);
  }

  /** With unique NHS numbers fact row `i` carries lab result row `i`. */
  lemma LabTestFactsOneToOne(lims: seq<LabResult>, dim: seq<DimPatientRow>)
    ensures var fact := MapRows(LeftJoin(lims, LabNhs, dim), LabTestFact);
      NhsUnique(dim) ==> |fact| == |lims| && forall i :: 0 <= i < |lims| ==> CarriesLabResult(fact[i], lims[i])
  {
    if NhsUnique(dim) {
      var merged := LeftJoin(lims, LabNhs, dim);
      var fact := MapRows(merged, LabTestFact);
      LeftJoinOneToOne(lims, LabNhs, dim);
      forall i | 0 <= i < |lims|
        ensures CarriesLabResult(fact[i], lims[i])
      {
        assert fact[i] == LabTestFact(merged[i]) && merged[i].0 == lims[i];
      }
    }
  }

  /** Every lab result fact row carries some source row. */
  lemma LabTestFactsHaveSources(lims: seq<LabResult>, dim: seq<DimPatientRow>)
    ensures var fact := MapRows(LeftJoin(lims, LabNhs, dim), LabTestFact);
      forall j {:trigger LabTestFactSourced(fact[j], lims)} :: 0 <= j < |fact| ==> LabTestFactSourced(fact[j], lims)
  {
    var merged := LeftJoin(lims, LabNhs, dim);
    var fact := MapRows(merged, LabTestFact);
    LeftJoinKeepsEveryRow(lims, LabNhs, dim);
    forall j | 0 <= j < |fact|
      ensures LabTestFactSourced(fact[j], lims)
    {
      var i :| 0 <= i < |lims| && lims[i] == merged[j].0;
      assert CarriesLabResult(fact[j], lims[i]);
    }
  }

  /** Every lab result source row is carried by some fact row. */
  lemma LabTestSourcesReachFacts(lims: seq<LabResult>, dim: seq<DimPatientRow>)
    ensures var fact := MapRows(LeftJoin(lims, LabNhs, dim), LabTestFact);
      EveryLabResultCarried(lims, fact)
  {
    var merged := LeftJoin(lims, LabNhs, dim);
    var fact := MapRows(merged, LabTestFact);
    LeftJoinKeepsEveryRow(lims, LabNhs, dim);
    forall i | 0 <= i < |lims|
      ensures exists j :: 0 <= j < |fact| && CarriesLabResult(fact[j], lims[i])
    {
      var j :| 0 <= j < |merged| && LeftRows(merged)[j] == lims[i];
      assert CarriesLabResult(fact[j], lims[i]);
    }
  }

  /** Every appointment fact row's key is null exactly when its NHS number
      matches no patient, and its `date_key` is its event day. */
  lemma AppointmentFactsResolve(apts: seq<Appointment>, dim: seq<DimPatientRow>)
    ensures var fact := MapRows(LeftJoin(apts, AppointmentNhs, dim), AppointmentFact);
      forall j :: 0 <= j < |fact| ==>
        ResolvesPatient(fact[j].patientKey, fact[j].nhsNumber, dim) && fact[j].dateKey == YmdKey(fact[j].appointmentDate)
  {
    LeftJoinResolvesPatients(apts, AppointmentNhs, dim);
  }

  /** With unique NHS numbers fact row `i` carries appointment row `i`. */
  lemma AppointmentFactsOneToOne(apts: seq<Appointment>, dim: seq<DimPatientRow>)
    ensures var fact := MapRows(LeftJoin(apts, AppointmentNhs, dim), AppointmentFact);
      NhsUnique(dim) ==> |fact| == |apts| && forall i :: 0 <= i < |apts| ==> CarriesAppointment(fact[i], apts[i])
  {
    if NhsUnique(dim) {
      var merged := LeftJoin(apts, AppointmentNhs, dim);
      var fact := MapRows(merged, AppointmentFact);
      LeftJoinOneToOne(apts, AppointmentNhs, dim);
      forall i | 0 <= i < |apts|
        ensures CarriesAppointment(fact[i], apts[i])
      {
        assert fact[i] == AppointmentFact(merged[i]) && merged[i].0 == apts[i];
      }
    }
  }

  /** Every appointment fact row carries some source row. */
  lemma AppointmentFactsHaveSources(apts: seq<Appointment>, dim: seq<DimPatientRow>)
    ensures var fact := MapRows(LeftJoin(apts, AppointmentNhs, dim), AppointmentFact);
      forall j {:trigger AppointmentFactSourced(fact[j], apts)} :: 0 <= j < |fact| ==> AppointmentFactSourced(fact[j], apts)
  {
    var merged := LeftJoin(apts, AppointmentNhs, dim);
    var fact := MapRows(merged, AppointmentFact);
    LeftJoinKeepsEveryRow(apts, AppointmentNhs, dim);
    forall j | 0 <= j < |fact|
      ensures AppointmentFactSourced(fact[j], apts)
    {
      var i :| 0 <= i < |apts| && apts[i] == merged[j].0;
      assert CarriesAppointment(fact[j], apts[i]);
    }
  }

  /** Every appointment source row is carried by some fact row. */
  lemma AppointmentSourcesReachFacts(apts: seq<Appointment>, dim: seq<DimPatientRow>)
    ensures var fact := MapRows(LeftJoin(apts, AppointmentNhs, dim), AppointmentFact);
      EveryAppointmentCarried(apts, fact)
  {
    var merged := LeftJoin(apts, AppointmentNhs, dim);
    var fact := MapRows(merged, AppointmentFact);
    LeftJoinKeepsEveryRow(apts, AppointmentNhs, dim);
    forall i | 0 <= i < |apts|
      ensures exists j :: 0 <= j < |fact| && CarriesAppointment(fact[j], apts[i])
    {
      var j :| 0 <= j < |merged| && LeftRows(merged)[j] == apts[i];
      assert CarriesAppointment(fact[j], apts[i]);
    }
  }

  /** `fact_encounters`: the encounter columns merged with `patient_key`,
      plus `date_key` from `encounter_date`. */
  function BuildFactEncounters(ehr: seq<Encounter>, dim: seq<DimPatientRow>): (fact: seq<FactEncounterRow>)
    ensures |ehr| <= |fact|
    ensures forall j :: 0 <= j < |fact| ==>
              ResolvesPatient(fact[j].patientKey, fact[j].nhsNumber, dim) && fact[j].dateKey == YmdKey(fact[j].encounterDate)
    ensures forall j {:trigger EncounterFactSourced(fact[j], ehr)} :: 0 <= j < |fact| ==> EncounterFactSourced(fact[j], ehr)
    ensures EveryEncounterCarried(ehr, fact)
    ensures NhsUnique(dim) ==> |fact| == |ehr| && forall i :: 0 <= i < |ehr| ==> CarriesEncounter(fact[i], ehr[i])
  {
    EncounterFactsResolve(ehr, dim);
    EncounterFactsHaveSources(ehr, dim);
    EncounterSourcesReachFacts(ehr, dim);
    EncounterFactsOneToOne(ehr, dim);
    MapRows(LeftJoin(ehr, EncounterNhs, dim), EncounterFact)
  }

  /** `fact_lab_tests`: the lab columns merged with `patient_key`, plus
      `date_key` from `order_date`. */
  function BuildFactLabTests(lims: seq<LabResult>, dim: seq<DimPatientRow>): (fact: seq<FactLabTestRow>)
    ensures |lims| <= |fact|
    ensures forall j :: 0 <= j < |fact| ==>
              ResolvesPatient(fact[j].patientKey, fact[j].nhsNumber, dim) && fact[j].dateKey == YmdKey(fact[j].orderDate)
    ensures forall j {:trigger LabTestFactSourced(fact[j], lims)} :: 0 <= j < |fact| ==> LabTestFactSourced(fact[j], lims)
    ensures EveryLabResultCarried(lims, fact)
    ensures NhsUnique(dim) ==> |fact| == |lims| && forall i :: 0 <= i < |lims| ==> CarriesLabResult(fact[i], lims[i])
  {
    LabTestFactsResolve(lims, dim);
    LabTestFactsHaveSources(lims, dim);
    LabTestSourcesReachFacts(lims, dim);
    LabTestFactsOneToOne(lims, dim);
    MapRows(LeftJoin(lims, LabNhs, dim), LabTestFact)
  }

  /** `fact_appointments`: the appointment columns merged with `patient_key`,
      plus `date_key` from `appointment_date`. */
  function BuildFactAppointments(apts: seq<Appointment>, dim: seq<DimPatientRow>): (fact: seq<FactAppointmentRow>)
    ensures |apts| <= |fact|
    ensures forall j :: 0 <= j < |fact| ==>
              ResolvesPatient(fact[j].patientKey, fact[j].nhsNumber, dim) && fact[j].dateKey == YmdKey(fact[j].appointmentDate)
    ensures forall j {:trigger AppointmentFactSourced(fact[j], apts)} :: 0 <= j < |fact| ==> AppointmentFactSourced(fact[j], apts)
    ensures EveryAppointmentCarried(apts, fact)
    ensures NhsUnique(dim) ==> |fact| == |apts| && forall i :: 0 <= i < |apts| ==> CarriesAppointment(fact[i], apts[i])
  {
    AppointmentFactsResolve(apts, dim);
    AppointmentFactsHaveSources(apts, dim);
    AppointmentSourcesReachFacts(apts, dim);
    AppointmentFactsOneToOne(apts, dim);
    MapRows(LeftJoin(apts, AppointmentNhs, dim), AppointmentFact)
  }
  /** Counting after a row-by-row mapping is counting the source rows with
      the corresponding test. */
  lemma {:induction false} CountMapRows<A, B>(xs: seq<A>, f: A -> B, p: B -> bool, q: A -> bool)
    requires forall x :: q(x) == p(f(x))
    ensures Count(MapRows(xs, f), p) == Count(xs, q)
  {
    if xs != [] {
      var n := |xs| - 1;
      CountMapRows(xs[..n], f, p, q);
      assert MapRows(xs, f)[..n] == MapRows(xs[..n], f);
    }
  }

  /** `fact_encounters` has one null `patient_key` per encounter whose NHS
      number no patient has. */
  lemma FactEncountersNullKeys(ehr: seq<Encounter>, dim: seq<DimPatientRow>,
                               isNull: FactEncounterRow -> bool, unmatched: Encounter -> bool)
    requires forall f :: isNull(f) == f.patientKey.None?
    requires forall e :: unmatched(e) == !HasPatient(e.nhsNumber, dim)
    ensures Count(BuildFactEncounters(ehr, dim), isNull) == Count(ehr, unmatched)
  {
    var merged := LeftJoin(ehr, EncounterNhs, dim);
    var mergedNull := (m: (Encounter, Option<nat>)) => m.1.None?;
    LeftJoinNullKeys(ehr, EncounterNhs, dim, mergedNull, unmatched);
    CountMapRows(merged, EncounterFact, isNull, mergedNull);
  }

  /** `fact_lab_tests` has one null `patient_key` per unmatched lab result. */
  lemma FactLabTestsNullKeys(lims: seq<LabResult>, dim: seq<DimPatientRow>,
                             isNull: FactLabTestRow -> bool, unmatched: LabResult -> bool)
    requires forall f :: isNull(f) == f.patientKey.None?
    requires forall l :: unmatched(l) == !HasPatient(l.nhsNumber, dim)
    ensures Count(BuildFactLabTests(lims, dim), isNull) == Count(lims, unmatched)
  {
    var merged := LeftJoin(lims, LabNhs, dim);
    var mergedNull := (m: (LabResult, Option<nat>)) => m.1.None?;
    LeftJoinNullKeys(lims, LabNhs, dim, mergedNull, unmatched);
    CountMapRows(merged, LabTestFact, isNull, mergedNull);
  }

  /** `fact_appointments` has one null `patient_key` per unmatched appointment. */
  lemma FactAppointmentsNullKeys(apts: seq<Appointment>, dim: seq<DimPatientRow>,
                                 isNull: FactAppointmentRow -> bool, unmatched: Appointment -> bool)
    requires forall f :: isNull(f) == f.patientKey.None?
    requires forall a :: unmatched(a) == !HasPatient(a.nhsNumber, dim)
    ensures Count(BuildFactAppointments(apts, dim), isNull) == Count(apts, unmatched)
  {
    var merged := LeftJoin(apts, AppointmentNhs, dim);
    var mergedNull := (m: (Appointment, Option<nat>)) => m.1.None?;
    LeftJoinNullKeys(apts, AppointmentNhs, dim, mergedNull, unmatched);
    CountMapRows(merged, AppointmentFact, isNull, mergedNull);
  }
}
