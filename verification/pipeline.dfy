/** The whole run: validate the extracted sources, transform them into the
    star schema, and load it into the warehouse. */
module Pipeline {
  import opened Common
  import opened Calendar
  import opened SourceRecords
  import opened SeqUtil
  import opened Dimensions
  import opened Facts
  import opened Warehouse
  import opened Quality

  /** The transform phase: three dimensions, then three facts joined to
      `dim_patient`. */
  function Transform(src: Sources): (s: StarSchema)
    ensures |s.dimPatient| == |src.pas|
    ensures |s.dimDiagnosis| <= |src.ehr|
    ensures |src.ehr| <= |s.factEncounters|
    ensures |src.lims| <= |s.factLabTests|
    ensures |src.appointments| <= |s.factAppointments|
    ensures |s.dimDate| <= |src.ehr| + |src.lims| + |src.appointments|
    ensures EveryEncounterCarried(src.ehr, s.factEncounters)
    ensures EveryLabResultCarried(src.lims, s.factLabTests)
    ensures EveryAppointmentCarried(src.appointments, s.factAppointments)
  {
    DimDiagnosisAtMostWithDiagnosis(src.ehr);
    DimDateAtMostEvents(src);
    var dimPatient := BuildDimPatient(src.pas);
    var encounters := BuildFactEncounters(src.ehr, dimPatient);
    var labTests := BuildFactLabTests(src.lims, dimPatient);
    var appointments := BuildFactAppointments(src.appointments, dimPatient);
    StarSchema(dimPatient, BuildDimDate(src), BuildDimDiagnosis(src.ehr), encounters, labTests, appointments)
  }

  /** dim_date has at most one row per event timestamp. */
  lemma DimDateAtMostEvents(src: Sources)
    ensures |BuildDimDate(src)| <= |src.ehr| + |src.lims| + |src.appointments|
  {
    var dim := BuildDimDate(src);
    var ts := seq(|dim|, i requires 0 <= i < |dim| => dim[i].date);
    forall i, j | 0 <= i < j < |ts|
      ensures ts[i] != ts[j]
    {
      BeforeIsStrictTotalOrder(dim[i].date, dim[j].date, dim[j].date);
    }
    DistinctWithinBound(ts, EventTimestamps(src));
  }

  /** No NHS number occurs twice in the PAS extract. */
  predicate PasNhsUnique(pas: seq<PasPatient>)
  {
    forall i, j :: 0 <= i < j < |pas| ==> pas[i].nhsNumber != pas[j].nhsNumber
  }

  /** dim_patient has unique NHS numbers exactly when the PAS extract does. */
  lemma DimPatientNhsUnique(pas: seq<PasPatient>)
    ensures PasNhsUnique(pas) <==> NhsUnique(BuildDimPatient(pas))
  {
    var dim := BuildDimPatient(pas);
    assert forall i :: 0 <= i < |pas| ==> dim[i].nhsNumber == pas[i].nhsNumber;
  }

  /** With unique NHS numbers in PAS, every fact table has exactly one row
      per source row, in source order. */
  lemma NoRowLossWhenNhsUnique(src: Sources)
    requires PasNhsUnique(src.pas)
    ensures var s := Transform(src);
      && |s.factEncounters| == |src.ehr|
      && |s.factLabTests| == |src.lims|
      && |s.factAppointments| == |src.appointments|
      && (forall i :: 0 <= i < |src.ehr| ==> CarriesEncounter(s.factEncounters[i], src.ehr[i]))
      && (forall i :: 0 <= i < |src.lims| ==> CarriesLabResult(s.factLabTests[i], src.lims[i]))
      && (forall i :: 0 <= i < |src.appointments| ==> CarriesAppointment(s.factAppointments[i], src.appointments[i]))
  {
    DimPatientNhsUnique(src.pas);
  }

  /** A patient listed twice in PAS with a matching encounter makes
      `fact_encounters` longer than the encounter extract. */
  lemma DuplicatePatientFansOut(src: Sources, e: nat, a: nat, b: nat)
    requires e < |src.ehr| && a < b < |src.pas|
    requires src.pas[a].nhsNumber == src.ehr[e].nhsNumber == src.pas[b].nhsNumber
    ensures |Transform(src).factEncounters| > |src.ehr|
  {
    var dim := BuildDimPatient(src.pas);
    LeftJoinFansOut(src.ehr, EncounterNhs, dim, e, a, b);
    assert BuildFactEncounters(src.ehr, dim) == MapRows(LeftJoin(src.ehr, EncounterNhs, dim), EncounterFact);
  }

  /** Some `dim_date` row has this key. */
  predicate KeyInDimDate(dim: seq<DimDateRow>, key: int)
  {
    exists i :: 0 <= i < |dim| && dim[i].dateKey == key
  }

  /** The `date_key` a fact carries for a source timestamp is the key of some
      dim_date row. */
  lemma EventDateKeyInDimDate(src: Sources, t: DateTime)
    requires t in EventTimestamps(src)
    ensures KeyInDimDate(BuildDimDate(src), YmdKey(t))
  {
    DimDateKeysAreEventDays(src, YmdKey(t));
  }

  /** A encounter fact row carrying source row `k` has a `date_key` found in dim_date. */
  lemma EncounterFactDateKeyInDimDate(src: Sources, f: FactEncounterRow, k: nat)
    requires k < |src.ehr| && CarriesEncounter(f, src.ehr[k]) && f.dateKey == YmdKey(f.encounterDate)
    ensures KeyInDimDate(BuildDimDate(src), f.dateKey)
  {
    var t := src.ehr[k].encounterDate;
    EventTimestampsContents(src);
    assert EventTimestamps(src)[k] == t;
    EventDateKeyInDimDate(src, t);
  }

  /** Every encounter fact's `date_key` is the key of a dim_date row. */
  lemma EncounterDateKeysInDimDate(src: Sources, dim: seq<DimPatientRow>)
    ensures forall j :: 0 <= j < |BuildFactEncounters(src.ehr, dim)| ==>
              KeyInDimDate(BuildDimDate(src), BuildFactEncounters(src.ehr, dim)[j].dateKey)
  {
    var fact := BuildFactEncounters(src.ehr, dim);
    forall j | 0 <= j < |fact| ensures KeyInDimDate(BuildDimDate(src), fact[j].dateKey) {
      assert EncounterFactSourced(fact[j], src.ehr);
      var k :| 0 <= k < |src.ehr| && CarriesEncounter(fact[j], src.ehr[k]);
      EncounterFactDateKeyInDimDate(src, fact[j], k);
    }
  }

  /** A lab-test fact row carrying source row `k` has a `date_key` found in dim_date. */
  lemma LabTestFactDateKeyInDimDate(src: Sources, f: FactLabTestRow, k: nat)
    requires k < |src.lims| && CarriesLabResult(f, src.lims[k]) && f.dateKey == YmdKey(f.orderDate)
    ensures KeyInDimDate(BuildDimDate(src), f.dateKey)
  {
    var t := src.lims[k].orderDate;
    EventTimestampsContents(src);
    assert EventTimestamps(src)[|src.ehr| + k] == t;
    EventDateKeyInDimDate(src, t);
  }

  /** Every lab-test fact's `date_key` is the key of a dim_date row. */
  lemma LabTestDateKeysInDimDate(src: Sources, dim: seq<DimPatientRow>)
    ensures forall j :: 0 <= j < |BuildFactLabTests(src.lims, dim)| ==>
              KeyInDimDate(BuildDimDate(src), BuildFactLabTests(src.lims, dim)[j].dateKey)
  {
    var fact := BuildFactLabTests(src.lims, dim);
    forall j | 0 <= j < |fact| ensures KeyInDimDate(BuildDimDate(src), fact[j].dateKey) {
      assert LabTestFactSourced(fact[j], src.lims);
      var k :| 0 <= k < |src.lims| && CarriesLabResult(fact[j], src.lims[k]);
      LabTestFactDateKeyInDimDate(src, fact[j], k);
    }
  }

  /** A appointment fact row carrying source row `k` has a `date_key` found in dim_date. */
  lemma AppointmentFactDateKeyInDimDate(src: Sources, f: FactAppointmentRow, k: nat)
    requires k < |src.appointments| && CarriesAppointment(f, src.appointments[k]) && f.dateKey == YmdKey(f.appointmentDate)
    ensures KeyInDimDate(BuildDimDate(src), f.dateKey)
  {
    var t := src.appointments[k].appointmentDate;
    EventTimestampsContents(src);
    assert EventTimestamps(src)[|src.ehr| + |src.lims| + k] == t;
    EventDateKeyInDimDate(src, t);
  }

  /** Every appointment fact's `date_key` is the key of a dim_date row. */
  lemma AppointmentDateKeysInDimDate(src: Sources, dim: seq<DimPatientRow>)
    ensures forall j :: 0 <= j < |BuildFactAppointments(src.appointments, dim)| ==>
              KeyInDimDate(BuildDimDate(src), BuildFactAppointments(src.appointments, dim)[j].dateKey)
  {
    var fact := BuildFactAppointments(src.appointments, dim);
    forall j | 0 <= j < |fact| ensures KeyInDimDate(BuildDimDate(src), fact[j].dateKey) {
      assert AppointmentFactSourced(fact[j], src.appointments);
      var k :| 0 <= k < |src.appointments| && CarriesAppointment(fact[j], src.appointments[k]);
      AppointmentFactDateKeyInDimDate(src, fact[j], k);
    }
  }

  /** Every fact row's `date_key` appears in dim_date, although the facts
      compute it themselves instead of looking it up. */
  lemma FactDateKeysInDimDate(src: Sources)
    ensures var s := Transform(src);
      && (forall j :: 0 <= j < |s.factEncounters| ==> KeyInDimDate(s.dimDate, s.factEncounters[j].dateKey))
      && (forall j :: 0 <= j < |s.factLabTests| ==> KeyInDimDate(s.dimDate, s.factLabTests[j].dateKey))
      && (forall j :: 0 <= j < |s.factAppointments| ==> KeyInDimDate(s.dimDate, s.factAppointments[j].dateKey))
  {
    var dim := BuildDimPatient(src.pas);
    EncounterDateKeysInDimDate(src, dim);
    LabTestDateKeysInDimDate(src, dim);
    AppointmentDateKeysInDimDate(src, dim);
  }

  /** With unique NHS numbers in PAS, an encounter extract with `u` unmatched
      rows yields exactly `|ehr|` encounter facts, `u` of them with a null
      `patient_key`. */
  lemma UnmatchedEncountersKeepNullKeys(src: Sources)
    requires PasNhsUnique(src.pas)
    ensures var s := Transform(src);
      && |s.factEncounters| == |src.ehr|
      && Count(s.factEncounters, (f: FactEncounterRow) => f.patientKey.None?)
         == Count(src.ehr, (e: Encounter) => !HasPatient(e.nhsNumber, s.dimPatient))
  {
    NoRowLossWhenNhsUnique(src);
    var dim := BuildDimPatient(src.pas);
    FactEncountersNullKeys(src.ehr, dim, (f: FactEncounterRow) => f.patientKey.None?,
                           (e: Encounter) => !HasPatient(e.nhsNumber, dim));
  }

  /** The figures, the in-memory tables and the warehouse a run leaves. */
  datatype RunOutcome = RunOutcome(report: QualityReport, schema: StarSchema, warehouse: Db)

  function RunPipeline(src: Sources, db: Db): (r: RunOutcome)
    ensures r.report.validNhs <= r.report.patients == |r.schema.dimPatient|
    ensures r.report.encounters <= |r.schema.factEncounters|
    ensures r.report.labTests <= |r.schema.factLabTests|
    ensures r.report.attended <= r.report.pastAppointments <= |r.schema.factAppointments|
    ensures forall n :: n in db && !IsDimensionName(n) && !IsFactName(n) ==> n in r.warehouse && r.warehouse[n] == db[n]
    ensures FactEncountersName in r.warehouse && r.warehouse[FactEncountersName] == FactEncountersTable(r.schema.factEncounters)
    ensures DimPatientName in r.warehouse && r.warehouse[DimPatientName] == DimPatientTable(r.schema.dimPatient)
  {
    var schema := Transform(src);
    RunOutcome(RunQualityChecks(src), schema, LoadStarSchema(db, schema))
  }

  /** The whole script. A header-only PAS extract makes the valid-NHS figure
      `0 / 0` on plain Python integers, which raises ZeroDivisionError in the
      first quality check. An EHR extract that is an empty JSON array becomes
      a DataFrame with no columns, so the read of `primary_diagnosis` in the
      third check raises KeyError. Either happens before anything is
      transformed or loaded. The other CSV extracts keep their header columns
      when they have no rows, and their figures divide pandas values, which
      gives NaN instead of raising. */
  function RunScript(src: Sources, db: Db): (r: Result<RunOutcome>)
    ensures r.Raised? <==> src.pas == [] || src.ehr == []
    ensures src.pas == [] ==> r == Raised(ZeroDivisionError)
    ensures src.pas != [] && src.ehr == [] ==> r == Raised(KeyError)
    ensures r.Ok? ==> r.value == RunPipeline(src, db)
    ensures r.Ok? ==> r.value.report.encounters == |src.ehr| <= |r.value.schema.factEncounters|
    ensures r.Ok? ==> r.value.report.patients == |src.pas| > 0
  {
    if src.pas == [] then Raised(ZeroDivisionError)
    else if src.ehr == [] then Raised(KeyError)
    else Ok(RunPipeline(src, db))
  }

  /** Re-running the pipeline on the same extracts leaves the warehouse as
      a single run left it. */
  lemma RerunIsIdempotent(src: Sources, db: Db)
    ensures RunPipeline(src, RunPipeline(src, db).warehouse).warehouse == RunPipeline(src, db).warehouse
  {
    LoadIdempotent(db, LoadPlan(Transform(src)));
  }
}
