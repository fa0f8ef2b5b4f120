/** Failure-compatible result and option types shared by every service module.
    An `Err` carries no store: an operation that fails leaves the store exactly as it was,
    which is how a rolled-back `$transaction` (or a lookup that throws before any write) is modelled. */
module Wrappers {

  datatype Option<+T> = None | Some(value: T)

  /** The table a failing lookup or constraint refers to. */
  datatype Entity =
    | UserRow | PatientRow | DoctorRow | AdminRow
    | ScheduleRow | DoctorScheduleRow | AppointmentRow | PaymentRow
    | PrescriptionRow | ReviewRow | DoctorSpecialtyRow

  datatype Error =
    /** `findUniqueOrThrow` / `findFirstOrThrow` found no row, or `update` targeted a missing one. */
    | NotFound(entity: Entity)
    /** A unique or primary-key constraint rejected an insert. */
    | UniqueViolation(entity: Entity)
    /** The caller is not the patient or doctor the appointment belongs to. */
    | NotYourAppointment
    /** Some requested specialty ids are not in the specialty catalogue (listed in request order). */
    | InvalidSpecialties(ids: seq<nat>)
    /** Some ids to unlink are not currently linked to the doctor (listed in request order). */
    | NonexistentSpecialties(ids: seq<nat>)

  datatype Result<+T> = Ok(value: T) | Err(error: Error) {
    predicate IsFailure() {
      Err?
    }

    function PropagateFailure<U>(): Result<U>
      requires Err?
    {
      Err(error)
    }

    function Extract(): T
      requires Ok?
    {
      value
    }
  }
}
