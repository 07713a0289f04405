/** Row shapes of the persistent store (src/db/models.rs). */
module Models {
  import opened Wrappers

  /** One row of the `users` table. */
  datatype User = User(
    id: string,
    user_name: string,
    password_hash: string,
    role: string,
    created_at: string,
    last_login: Option<string>)

  /** The fields of a patient record; the f32 fields are only compared, so they are reals here. */
  datatype Patient = Patient(
    patient_id: int,
    first_name: string,
    last_name: string,
    date_of_birth: string,
    basal_rate: real,
    bolus_rate: real,
    max_dosage: real,
    low_glucose_threshold: real,
    high_glucose_threshold: real,
    clinician_id: int,
    caretaker_id: int)
}
