/** The load phase: each in-memory table replaces the warehouse table of the
    same name (`DROP TABLE IF EXISTS` then `CREATE TABLE … AS SELECT *`),
    dimensions first, then facts. */
module Warehouse {
  import opened Common
  import opened Dimensions
  import opened Facts

  /** The contents of one warehouse table. */
  datatype Table =
    | DimPatientTable(patients: seq<DimPatientRow>)
    | DimDateTable(dates: seq<DimDateRow>)
    | DimDiagnosisTable(diagnoses: seq<DimDiagnosisRow>)
    | FactEncountersTable(encounters: seq<FactEncounterRow>)
    | FactLabTestsTable(labTests: seq<FactLabTestRow>)
    | FactAppointmentsTable(appointments: seq<FactAppointmentRow>)

  /** The warehouse: named tables. */
  type Db = map<string, Table>

  /** `DROP TABLE IF EXISTS name`. */
  function DropTableIfExists(db: Db, name: string): (r: Db)
    ensures name !in r
    ensures r.Keys == db.Keys - {name}
    ensures forall n :: n in r ==> r[n] == db[n]
  {
    db - {name}
  }

  /** `CREATE TABLE name AS SELECT * FROM frame`: refused (`None`) when a
      table of that name already exists. */
  function CreateTableAs(db: Db, name: string, t: Table): (r: Option<Db>)
    ensures r.None? <==> name in db
    ensures r.Some? ==> r.value.Keys == db.Keys + {name} && r.value[name] == t
    ensures r.Some? ==> forall n :: n in db ==> r.value[n] == db[n]
  {
    if name in db then None else Some(db[name := t])
  }

  /** One load step: drop the old table if any, then create it afresh. The
      create never meets an existing table. */
  function LoadTable(db: Db, name: string, t: Table): (r: Db)
    ensures r.Keys == db.Keys + {name}
    ensures r[name] == t
    ensures forall n :: n in db && n != name ==> r[n] == db[n]
  {
    var created := CreateTableAs(DropTableIfExists(db, name), name, t);
    created.value
  }

  /** The six steps of the load phase, in order: the warehouse gains the
      plan's names, the last step's table is in place, and a table the plan
      does not name keeps its contents. */
  function LoadAll(db: Db, plan: seq<(string, Table)>): (r: Db)
    ensures r.Keys == db.Keys + PlanNames(plan)
    ensures plan != [] ==> r[plan[|plan| - 1].0] == plan[|plan| - 1].1
    ensures forall n :: n in db && n !in PlanNames(plan) ==> r[n] == db[n]
  {
    if plan == [] then db
    else
      var n := |plan| - 1;
      assert PlanNames(plan) == PlanNames(plan[..n]) + {plan[n].0} by {
        assert forall i :: 0 <= i < n ==> plan[..n][i] == plan[i];
      }
      LoadTable(LoadAll(db, plan[..n]), plan[n].0, plan[n].1)
  }

  /** The table names a plan mentions. */
  function PlanNames(plan: seq<(string, Table)>): set<string>
  {
    set i | 0 <= i < |plan| :: plan[i].0
  }

  /** The tables a plan leaves behind: for each name, its last table. */
  function PlanTables(plan: seq<(string, Table)>): map<string, Table>
  {
    if plan == [] then map[]
    else
      var n := |plan| - 1;
      PlanTables(plan[..n])[plan[n].0 := plan[n].1]
  }

  /** When the plan names each table once, the table it leaves under a name
      is the one listed for it, and the names it loads are exactly those listed. */
  lemma {:induction false} PlanTablesLookup(plan: seq<(string, Table)>)
    requires forall i, j :: 0 <= i < j < |plan| ==> plan[i].0 != plan[j].0
    ensures forall n :: n in PlanTables(plan) <==> exists i :: 0 <= i < |plan| && plan[i].0 == n
    ensures forall i :: 0 <= i < |plan| ==> plan[i].0 in PlanTables(plan) && PlanTables(plan)[plan[i].0] == plan[i].1
  {
    if plan != [] {
      var n := |plan| - 1;
      var front := plan[..n];
      PlanTablesLookup(front);
      forall i | 0 <= i < |plan|
        ensures plan[i].0 in PlanTables(plan) && PlanTables(plan)[plan[i].0] == plan[i].1
      {
        if i < n {
          assert front[i] == plan[i];
        }
      }
      forall name | name in PlanTables(plan)
        ensures exists i :: 0 <= i < |plan| && plan[i].0 == name
      {
        if name != plan[n].0 {
          assert name in PlanTables(front);
          var i :| 0 <= i < |front| && front[i].0 == name;
          assert plan[i].0 == name;
        } else {
          assert plan[n].0 == name;
        }
      }
    }
  }

  /** Loading overlays the plan's tables on the warehouse: named tables are
      replaced wholesale, all other tables are left as they were. */
  lemma {:induction false} LoadAllOverlays(db: Db, plan: seq<(string, Table)>)
    ensures LoadAll(db, plan) == db + PlanTables(plan)
  {
    if plan != [] {
      var n := |plan| - 1;
      var front, name, t := plan[..n], plan[n].0, plan[n].1;
      LoadAllOverlays(db, front);
      var after := LoadTable(db + PlanTables(front), name, t);
      var want := db + PlanTables(plan);
      assert after == want by {
        assert PlanTables(plan) == PlanTables(front)[name := t];
        assert after.Keys == want.Keys;
        assert forall k :: k in after ==> after[k] == want[k];
      }
      assert LoadAll(db, plan) == after;
    }
  }

  /** Running the load twice leaves the same warehouse as running it once. */
  lemma LoadIdempotent(db: Db, plan: seq<(string, Table)>)
    ensures LoadAll(LoadAll(db, plan), plan) == LoadAll(db, plan)
  {
    LoadAllOverlays(db, plan);
    LoadAllOverlays(LoadAll(db, plan), plan);
    var m := PlanTables(plan);
    assert db + m + m == db + m;
  }

  /** The outcome of the load does not depend on what the warehouse held
      under the plan's table names. */
  lemma LoadReplacesWholesale(db1: Db, db2: Db, plan: seq<(string, Table)>, name: string)
    requires name in PlanTables(plan)
    ensures name in LoadAll(db1, plan) && name in LoadAll(db2, plan)
    ensures LoadAll(db1, plan)[name] == LoadAll(db2, plan)[name] == PlanTables(plan)[name]
  {
    LoadAllOverlays(db1, plan);
    LoadAllOverlays(db2, plan);
  }

  /** The six in-memory tables of one pipeline run. */
  datatype StarSchema = StarSchema(
    dimPatient: seq<DimPatientRow>,
    dimDate: seq<DimDateRow>,
    dimDiagnosis: seq<DimDiagnosisRow>,
    factEncounters: seq<FactEncounterRow>,
    factLabTests: seq<FactLabTestRow>,
    factAppointments: seq<FactAppointmentRow>)

  /** The warehouse table names the pipeline writes. */
  const DimPatientName: string := "dim_patient"
  const DimDateName: string := "dim_date"
  const DimDiagnosisName: string := "dim_diagnosis"
  const FactEncountersName: string := "fact_encounters"
  const FactLabTestsName: string := "fact_lab_tests"
  const FactAppointmentsName: string := "fact_appointments"

  predicate IsDimensionName(name: string)
  {
    name == DimPatientName || name == DimDateName || name == DimDiagnosisName
  }

  predicate IsFactName(name: string)
  {
    name == FactEncountersName || name == FactLabTestsName || name == FactAppointmentsName
  }

  /** The load order: the three dimensions, then the three facts. */
  function LoadPlan(s: StarSchema): (plan: seq<(string, Table)>)
    ensures |plan| == 6
    ensures forall i, j :: 0 <= i < j < |plan| ==> plan[i].0 != plan[j].0
    ensures forall i, j :: 0 <= i < |plan| && 0 <= j < |plan| && IsDimensionName(plan[i].0) && IsFactName(plan[j].0) ==> i < j
    ensures forall i :: 0 <= i < |plan| ==> IsDimensionName(plan[i].0) || IsFactName(plan[i].0)
  {
    [ (DimPatientName, DimPatientTable(s.dimPatient)),
      (DimDateName, DimDateTable(s.dimDate)),
      (DimDiagnosisName, DimDiagnosisTable(s.dimDiagnosis)),
      (FactEncountersName, FactEncountersTable(s.factEncounters)),
      (FactLabTestsName, FactLabTestsTable(s.factLabTests)),
      (FactAppointmentsName, FactAppointmentsTable(s.factAppointments)) ]
  }

  /** The warehouse after the load phase: each of the six names holds exactly
      its in-memory table, the warehouse gains exactly those names, and every
      other table is untouched. */
  function LoadStarSchema(db: Db, s: StarSchema): (r: Db)
    ensures DimPatientName in r && r[DimPatientName] == DimPatientTable(s.dimPatient)
    ensures DimDateName in r && r[DimDateName] == DimDateTable(s.dimDate)
    ensures DimDiagnosisName in r && r[DimDiagnosisName] == DimDiagnosisTable(s.dimDiagnosis)
    ensures FactEncountersName in r && r[FactEncountersName] == FactEncountersTable(s.factEncounters)
    ensures FactLabTestsName in r && r[FactLabTestsName] == FactLabTestsTable(s.factLabTests)
    ensures FactAppointmentsName in r && r[FactAppointmentsName] == FactAppointmentsTable(s.factAppointments)
    ensures r.Keys == db.Keys + {DimPatientName, DimDateName, DimDiagnosisName, FactEncountersName, FactLabTestsName, FactAppointmentsName}
    ensures forall n :: n in db && !IsDimensionName(n) && !IsFactName(n) ==> r[n] == db[n]
  {
    LoadStarSchemaContents(db, s);
    LoadStarSchemaKeepsOthers(db, s);
    LoadAll(db, LoadPlan(s))
  }

  /** After the load each of the six names holds exactly its in-memory table. */
  lemma LoadStarSchemaContents(db: Db, s: StarSchema)
    ensures var r := LoadAll(db, LoadPlan(s));
      && DimPatientName in r && r[DimPatientName] == DimPatientTable(s.dimPatient)
      && DimDateName in r && r[DimDateName] == DimDateTable(s.dimDate)
      && DimDiagnosisName in r && r[DimDiagnosisName] == DimDiagnosisTable(s.dimDiagnosis)
      && FactEncountersName in r && r[FactEncountersName] == FactEncountersTable(s.factEncounters)
      && FactLabTestsName in r && r[FactLabTestsName] == FactLabTestsTable(s.factLabTests)
      && FactAppointmentsName in r && r[FactAppointmentsName] == FactAppointmentsTable(s.factAppointments)
  {
    var plan := LoadPlan(s);
    LoadAllOverlays(db, plan);
    PlanTablesLookup(plan);
    assert plan[0].0 == DimPatientName && plan[1].0 == DimDateName && plan[2].0 == DimDiagnosisName;
    assert plan[3].0 == FactEncountersName && plan[4].0 == FactLabTestsName && plan[5].0 == FactAppointmentsName;
  }

  /** The load adds exactly the six star-schema tables and leaves every other
      table untouched. */
  lemma LoadStarSchemaKeepsOthers(db: Db, s: StarSchema)
    ensures var r := LoadAll(db, LoadPlan(s));
      && r.Keys == db.Keys + {DimPatientName, DimDateName, DimDiagnosisName, FactEncountersName, FactLabTestsName, FactAppointmentsName}
      && forall n :: n in db && !IsDimensionName(n) && !IsFactName(n) ==> r[n] == db[n]
  {
    LoadAllOverlays(db, LoadPlan(s));
    LoadPlanNames(s);
  }

  /** The plan names exactly the six star-schema tables. */
  lemma LoadPlanNames(s: StarSchema)
    ensures PlanTables(LoadPlan(s)).Keys
            == {DimPatientName, DimDateName, DimDiagnosisName, FactEncountersName, FactLabTestsName, FactAppointmentsName}
  {
    var plan := LoadPlan(s);
    PlanTablesLookup(plan);
    var m := PlanTables(plan);
    assert plan[0].0 == DimPatientName && plan[1].0 == DimDateName && plan[2].0 == DimDiagnosisName;
    assert plan[3].0 == FactEncountersName && plan[4].0 == FactLabTestsName && plan[5].0 == FactAppointmentsName;
    var six := {DimPatientName, DimDateName, DimDiagnosisName, FactEncountersName, FactLabTestsName, FactAppointmentsName};
    forall k | k in m
      ensures k in six
    {
      var i :| 0 <= i < |plan| && plan[i].0 == k;
    }
    assert six <= m.Keys;
  }
}
