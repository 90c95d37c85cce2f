/** The four extracted source datasets, as already-parsed records: CSV rows
    for PAS, LIMS and appointments, and JSON documents for EHR encounters.
    Timestamps arrive already converted by `pd.to_datetime`. */
module SourceRecords {
  import opened Common
  import opened Calendar

  /** One row of the PAS patient file (the generator's output columns). */
  datatype PasPatient = PasPatient(
    patientId: string,
    nhsNumber: string,
    title: string,
    firstName: string,
    lastName: string,
    dateOfBirth: string,
    age: int,
    gender: string,
    ethnicity: string,
    addressLine1: string,
    city: string,
    postcode: string,
    phone: Option<string>,
    email: Option<string>,
    gpPracticeCode: string,
    gpPracticeName: string,
    registrationDate: string,
    isActive: bool,
    nokName: Option<string>,
    nokRelationship: Option<string>,
    nokPhone: Option<string>,
    createdDate: string,
    lastUpdated: string)

  /** The nested `primary_diagnosis` object; `dict.get` yields `None` for a missing key. */
  datatype Diagnosis = Diagnosis(icd10Code: Option<string>, description: Option<string>)

  /** What an encounter's `primary_diagnosis` cell holds: null, a JSON object,
      or some other non-null scalar. */
  datatype DiagnosisCell = NoDiagnosis | DictDiagnosis(diagnosis: Diagnosis) | OtherDiagnosis

  /** One EHR encounter document (only the fields the transform reads). */
  datatype Encounter = Encounter(
    encounterId: string,
    nhsNumber: string,
    encounterDate: DateTime,
    encounterType: string,
    department: string,
    primaryDiagnosis: DiagnosisCell)

  /** One LIMS row: a single component of a lab test. */
  datatype LabResult = LabResult(
    testId: string,
    nhsNumber: string,
    testType: string,
    testComponent: string,
    orderDate: DateTime,
    resultValue: Option<real>,
    isAbnormal: Option<bool>,
    status: string)

  /** One appointments row. */
  datatype Appointment = Appointment(
    appointmentId: string,
    nhsNumber: string,
    appointmentDate: DateTime,
    appointmentType: string,
    specialty: string,
    attendanceStatus: string)

  /** The four extracted datasets. */
  datatype Sources = Sources(
    pas: seq<PasPatient>,
    ehr: seq<Encounter>,
    lims: seq<LabResult>,
    appointments: seq<Appointment>)
}
