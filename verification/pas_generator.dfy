/** The PAS generator: one synthetic patient row per iteration, with a valid
    NHS number, a title that fits the drawn gender, an age that agrees with
    the date of birth, and a next of kin whose details hang together.
    Every random and Faker draw is a parameter. */
module PasGenerator {
  import opened Common
  import opened Decimal
  import opened Calendar
  import opened NhsNumber
  import opened SourceRecords
  import opened Quality

  /** `random.choice(options)`: the drawn index is reduced below the length. */
  function Choose(options: seq<string>, pick: nat): (c: string)
    requires |options| > 0
    ensures c in options
  {
    options[pick % |options|]
  }

  const Genders: seq<string> := ["M", "F", "Other"]

  /** The titles the generator may give a patient of the drawn gender. */
  function TitleOptions(gender: string): (opts: seq<string>)
    ensures |opts| >= 1
    ensures "Mr" in opts ==> gender == "M"
    ensures ("Mrs" in opts || "Miss" in opts || "Ms" in opts) ==> gender == "F"
    ensures "Mx" in opts <==> gender != "M" && gender != "F"
    ensures "Dr" in opts <==> gender == "M" || gender == "F"
    ensures gender != "M" && gender != "F" ==> opts == ["Mx"]
    ensures gender == "M" ==> "Mr" in opts && "Rev" in opts
    ensures gender == "M" ==> forall t :: t in opts ==> t == "Mr" || t == "Dr" || t == "Rev"
    ensures gender == "F" ==> "Mrs" in opts && "Miss" in opts && "Ms" in opts && "Rev" in opts
    ensures gender == "F" ==> forall t :: t in opts ==> t == "Mrs" || t == "Miss" || t == "Ms" || t == "Dr" || t == "Rev"
  {
    if gender == "M" then ["Mr", "Dr", "Rev"]
    else if gender == "F" then ["Mrs", "Miss", "Ms", "Dr", "Rev"]
    else ["Mx"]
  }

  function ChooseTitle(gender: string, pick: nat): (title: string)
    ensures title in TitleOptions(gender)
  {
    Choose(TitleOptions(gender), pick)
  }

  /** The titles a gender admits, stated as a rule rather than as lists. */
  predicate TitleFitsGender(gender: string, title: string)
  {
    if gender == "M" then title == "Mr" || title == "Dr" || title == "Rev"
    else if gender == "F" then title == "Mrs" || title == "Miss" || title == "Ms" || title == "Dr" || title == "Rev"
    else title == "Mx"
  }

  /** Some draw gives `title` exactly when the title fits the gender. */
  lemma ChooseTitleIffFits(gender: string, title: string)
    ensures (exists pick: nat :: ChooseTitle(gender, pick) == title) <==> TitleFitsGender(gender, title)
  {
    var opts := TitleOptions(gender);
    if TitleFitsGender(gender, title) {
      var i :| 0 <= i < |opts| && opts[i] == title;
      assert i % |opts| == i;
      assert ChooseTitle(gender, i) == title;
    }
  }

  /** A patient without a binary gender is always titled `Mx`, whatever the
      draw; `Mx` is never given to anyone else. */
  lemma TitleMxExactlyForOther(gender: string, pick: nat)
    ensures ChooseTitle(gender, pick) == "Mx" <==> gender != "M" && gender != "F"
  {
    var opts := TitleOptions(gender);
    if gender == "M" || gender == "F" {
      assert opts[pick % |opts|] != "Mx";
    }
  }

  /** `value if random.random() > threshold else None`. */
  function MaybeField(roll: real, threshold: real, value: string): (r: Option<string>)
    ensures r.Some? <==> roll > threshold
    ensures r.Some? ==> r.value == value
  {
    if roll > threshold then Some(value) else None
  }

  /** Python truthiness of an optional string: present and non-empty. */
  predicate Truthy(s: Option<string>)
  {
    s.Some? && s.value != ""
  }

  const Relationships: seq<string> := ["Spouse", "Child", "Parent", "Sibling", "Friend"]

  /** The draws behind one next-of-kin record. */
  datatype NokDraw = NokDraw(nameRoll: real, name: string, relationshipPick: nat, phoneRoll: real, phone: string)

  datatype NextOfKin = NextOfKin(name: Option<string>, relationship: Option<string>, phone: Option<string>)

  /** The three next-of-kin fields. The relationship and phone draws happen
      only when a (truthy) name was drawn. */
  function DrawNextOfKin(d: NokDraw): (k: NextOfKin)
    ensures k.name.Some? <==> d.nameRoll > 0.10
    ensures k.relationship.Some? <==> Truthy(k.name)
    ensures k.relationship.Some? ==> k.relationship.value in Relationships
    ensures k.phone.Some? <==> Truthy(k.name) && d.phoneRoll > 0.05
  {
    var name := MaybeField(d.nameRoll, 0.10, d.name);
    var relationship := if Truthy(name) then Some(Choose(Relationships, d.relationshipPick)) else None;
    var phone := if Truthy(name) then MaybeField(d.phoneRoll, 0.05, d.phone) else None;
    NextOfKin(name, relationship, phone)
  }

  /** No orphaned next-of-kin details: a phone number or a relationship only
      ever accompanies a name, and a phone only a relationship. */
  lemma NextOfKinHangsTogether(d: NokDraw)
    ensures var k := DrawNextOfKin(d);
      && (k.phone.Some? ==> k.relationship.Some?)
      && (k.relationship.Some? ==> k.name.Some?)
      && (k.name.None? ==> k.relationship.None? && k.phone.None?)
  {
  }

  /** `f'PAS{i+1:06d}'`: the identifier of the row drawn in iteration `i`. */
  function PatientId(i: nat): (id: string)
    ensures |id| >= 9 && id[..3] == "PAS"
    ensures AllDigits(id[3..]) && ParseDecimal(id[3..]) == i + 1
  {
    var digits := ZeroPad(i + 1, 6);
    ParseZeroPad(i + 1, 6);
    assert ("PAS" + digits)[3..] == digits;
    "PAS" + digits
  }

  /** Identifiers are exactly nine characters up to the millionth patient,
      and longer from then on. */
  lemma PatientIdLength(i: nat)
    ensures |PatientId(i)| == 9 <==> i + 1 < Pow10(6)
  {
    DecimalStringFits(i + 1, 6);
  }

  /** Different iterations never share an identifier. */
  lemma PatientIdInjective(i: nat, j: nat)
    requires PatientId(i) == PatientId(j)
    ensures i == j
  {
    assert PatientId(i)[3..] == PatientId(j)[3..];
  }

  /** `random.choices` over the five age bands: each band's candidate is a
      `random.randint` within it, and one band is picked. */
  const BandLow: seq<nat> := [0, 18, 41, 66, 86]
  const BandHigh: seq<nat> := [17, 40, 65, 85, 100]

  function TargetAge(candidateDraws: seq<nat>, bandPick: nat): (age: nat)
    requires |candidateDraws| == 5
    ensures 0 <= age <= 100
    ensures exists b :: 0 <= b < 5 && BandLow[b] <= age <= BandHigh[b]
  {
    var b := bandPick % 5;
    var age := BandLow[b] + candidateDraws[b] % (BandHigh[b] - BandLow[b] + 1);
    assert BandLow[b] <= age <= BandHigh[b];
    age
  }

  /** When the date of birth Faker returns for a target age has its `age`-th
      birthday on or before today and its next one after today, the age
      column equals the target. */
  lemma AgeMatchesTarget(today: Date, dob: Date, target: int)
    requires DateNotAfter(Date(dob.year + target, dob.month, dob.day), today)
    requires !DateNotAfter(Date(dob.year + target + 1, dob.month, dob.day), today)
    ensures Age(today, dob) == target
  {
  }

  const Cities: seq<string> := ["Edinburgh", "Glasgow", "Aberdeen", "Dundee", "Inverness", "Stirling", "Perth", "Paisley"]
  const Ethnicities: seq<string> := ["White British", "White Other", "Asian", "Black", "Mixed", "Other"]

  /** Everything drawn for one patient, in the order the loop body draws it. */
  datatype PatientDraw = PatientDraw(
    genderPick: nat,
    firstName: string,
    titlePick: nat,
    lastName: string,
    dob: CalendarDate,
    nhsDraws: seq<NineDigits>,
    addressLine1: string,
    cityPick: nat,
    postcode: string,
    ethnicityPick: nat,
    gpPracticeCode: string,
    gpPracticeName: string,
    registrationDate: CalendarDate,
    isActive: bool,
    phoneRoll: real, phone: string,
    emailRoll: real, email: string,
    nok: NokDraw)

  /** One generated row, given the NHS number the retry loop settled on. */
  function MakePatient(i: nat, today: CalendarDate, d: PatientDraw, nhs: string): (p: PasPatient)
    ensures p.patientId == PatientId(i) && p.nhsNumber == nhs
    ensures p.gender in Genders && p.title in TitleOptions(p.gender)
    ensures p.age == Age(today, d.dob)
    ensures p.dateOfBirth == IsoDate(d.dob)
    ensures p.nokRelationship.Some? <==> Truthy(p.nokName)
    ensures p.nokPhone.Some? ==> p.nokRelationship.Some?
    ensures p.city in Cities && p.ethnicity in Ethnicities
  {
    var gender := Choose(Genders, d.genderPick);
    var kin := DrawNextOfKin(d.nok);
    PasPatient(
      PatientId(i), nhs, ChooseTitle(gender, d.titlePick), d.firstName, d.lastName,
      IsoDate(d.dob), Age(today, d.dob), gender,
      Choose(Ethnicities, d.ethnicityPick), d.addressLine1, Choose(Cities, d.cityPick), d.postcode,
      MaybeField(d.phoneRoll, 0.05, d.phone), MaybeField(d.emailRoll, 0.15, d.email),
      d.gpPracticeCode, d.gpPracticeName, IsoDate(d.registrationDate), d.isActive,
      kin.name, kin.relationship, kin.phone,
      IsoDate(today), IsoDate(today))
  }

  /** The retry loop found no acceptable prefix among the draws given. */
  predicate NhsDrawsExhausted(draws: seq<NineDigits>)
  {
    forall k :: 0 <= k < |draws| ==> CalculateCheckDigit(draws[k]) == Ok(None)
  }

  /** What iteration `i` promises about the row it appends: every column is
      the one the loop body builds from the draw, so the record rules hold
      (a title offered for the gender, a coherent next of kin, a listed city
      and ethnicity), and the NHS number is ten characters that validate. */
  predicate RowFromDraw(i: nat, today: CalendarDate, d: PatientDraw, row: PasPatient)
  {
    && row == MakePatient(i, today, d, row.nhsNumber)
    && row.patientId == PatientId(i)
    && row.age == Age(today, d.dob)
    && row.gender in Genders && row.title in TitleOptions(row.gender)
    && (row.nokRelationship.Some? <==> Truthy(row.nokName))
    && (row.nokPhone.Some? ==> row.nokRelationship.Some?)
    && row.city in Cities && row.ethnicity in Ethnicities
    && |row.nhsNumber| == 10
    && ValidateNhsNumber(row.nhsNumber)
  }

  /** Rows that all come from their draws pass the NHS-number check in full. */
  lemma RowsFromDrawsAreValid(today: CalendarDate, draws: seq<PatientDraw>, rows: seq<PasPatient>)
    requires |rows| == |draws|
    requires forall j :: 0 <= j < |rows| ==> RowFromDraw(j, today, draws[j], rows[j])
    ensures ValidNhsCount(rows) == |rows|
  {
    forall j | 0 <= j < |rows| ensures ValidateNhsNumber(rows[j].nhsNumber) {
      assert RowFromDraw(j, today, draws[j], rows[j]);
    }
    ValidNhsCountExtremes(rows);
  }

  /** One iteration of the generator loop: `None` when the NHS retry loop
      ran out of draws. */
  method GeneratePatient(i: nat, today: CalendarDate, d: PatientDraw) returns (row: Option<PasPatient>)
    ensures row.None? <==> NhsDrawsExhausted(d.nhsDraws)
    ensures row.Some? ==> RowFromDraw(i, today, d, row.value)
  {
    var nhs := GenerateNhsNumber(d.nhsDraws);
    if nhs.None? {
      return None;
    }
    row := Some(MakePatient(i, today, d, nhs.value));
  }

  /** One iteration of the generation loop: the row for the next draw
      appended to the rows already made, or `None` when its NHS draws run out. */
  method AppendPatient(today: CalendarDate, draws: seq<PatientDraw>, acc: seq<PasPatient>) returns (next: Option<seq<PasPatient>>)
    requires |acc| < |draws|
    requires forall j :: 0 <= j < |acc| ==> RowFromDraw(j, today, draws[j], acc[j])
    ensures next.None? <==> NhsDrawsExhausted(draws[|acc|].nhsDraws)
    ensures next.Some? ==> |next.value| == |acc| + 1
    ensures next.Some? ==> forall j :: 0 <= j < |acc| + 1 ==> RowFromDraw(j, today, draws[j], next.value[j])
  {
    var row := GeneratePatient(|acc|, today, draws[|acc|]);
    if row.None? {
      return None;
    }
    var rows := acc + [row.value];
    forall j | 0 <= j < |rows|
      ensures RowFromDraw(j, today, draws[j], rows[j])
    {
      if j < |acc| {
        assert rows[j] == acc[j];
      } else {
        assert j == |acc| && rows[j] == row.value;
      }
    }
    next := Some(rows);
  }

  /** `generate_pas_data(len(draws))`. The Python retry loop never gives up;
      with finitely many draws per patient the result is `None` when some
      patient's draws are all rejected. */
  method GeneratePasData(today: CalendarDate, draws: seq<PatientDraw>) returns (rows: Option<seq<PasPatient>>)
    ensures rows.None? <==> exists i :: 0 <= i < |draws| && NhsDrawsExhausted(draws[i].nhsDraws)
    ensures rows.Some? ==> |rows.value| == |draws|
    ensures rows.Some? ==> forall i :: 0 <= i < |draws| ==> RowFromDraw(i, today, draws[i], rows.value[i])
  {
    var acc: seq<PasPatient> := [];
    while |acc| < |draws|
      invariant |acc| <= |draws|
      invariant forall j :: 0 <= j < |acc| ==> !NhsDrawsExhausted(draws[j].nhsDraws)
      invariant forall j :: 0 <= j < |acc| ==> RowFromDraw(j, today, draws[j], acc[j])
      decreases |draws| - |acc|
    {
      var next := AppendPatient(today, draws, acc);
      if next.None? {
        return None;
      }
      acc := next.value;
    }
    rows := Some(acc);
  }
}
