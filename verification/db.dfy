/** The clinic's relational store as one immutable value: a table per model, the doctor-slot
    bindings keyed by their composite key `(doctorId, scheduleId)`, and the doctor-specialty links
    as a set (their composite primary key makes a link either present or absent).

    Times are integers: a slot's `startDateTime`/`endDateTime` are minutes since day 0, and a row's
    `createdAt` is milliseconds since the epoch, as `Date.now()` reports it. */
module Db {
  import opened Wrappers
  import opened Tables

  datatype UserRole = AdminRole | DoctorRole | PatientRole
  datatype UserStatus = Active | Blocked | Deleted
  datatype AppointmentStatus = Scheduled | Completed | Canceled
  datatype PaymentStatus = Unpaid | Paid

  datatype User = User(email: string, role: UserRole, status: UserStatus)
  datatype Patient = Patient(email: string, name: string)
  datatype Admin = Admin(email: string, name: string)
  datatype Doctor = Doctor(
    email: string,
    name: string,
    appointmentFee: int,
    experience: int,
    averageRating: real,
    isDeleted: bool)
  datatype Specialty = Specialty(title: string)
  datatype SpecialtyLink = SpecialtyLink(doctorId: nat, specialtyId: nat)

  /** A bookable time slot (the `Schedule` model). */
  datatype Schedule = Schedule(startDateTime: int, endDateTime: int)

  /** The composite key of a doctor-slot binding (the `DoctorSchedules` model). */
  datatype ScheduleKey = ScheduleKey(doctorId: nat, scheduleId: nat)
  datatype DoctorSchedule = DoctorSchedule(isBooked: bool, appointmentId: Option<nat>)

  datatype Appointment = Appointment(
    patientId: nat,
    doctorId: nat,
    scheduleId: nat,
    videoCallingId: string,
    status: AppointmentStatus,
    paymentStatus: PaymentStatus,
    createdAt: int)
  datatype Payment = Payment(appointmentId: nat, amount: int, transactionId: string)
  datatype Prescription = Prescription(
    appointmentId: nat,
    doctorId: nat,
    patientId: nat,
    instructions: string,
    followUpDate: Option<string>)
  datatype Review = Review(
    appointmentId: nat,
    doctorId: nat,
    patientId: nat,
    rating: real,
    comment: string,
    createdAt: int)

  datatype Store = Store(
    users: Table<User>,
    patients: Table<Patient>,
    doctors: Table<Doctor>,
    admins: Table<Admin>,
    specialties: Table<Specialty>,
    doctorSpecialties: set<SpecialtyLink>,
    schedules: Table<Schedule>,
    doctorSchedules: map<ScheduleKey, DoctorSchedule>,
    appointments: Table<Appointment>,
    payments: Table<Payment>,
    prescriptions: Table<Prescription>,
    reviews: Table<Review>)

  /** The authenticated caller, as the JWT payload carries it. */
  datatype Caller = Caller(email: string, role: UserRole)

  /** Column defaults and constraints of the database schema that the services rely on. */
  datatype Schema = Schema(
    appointmentStatus: AppointmentStatus,
    appointmentPaymentStatus: PaymentStatus,
    userRole: UserRole,
    userStatus: UserStatus,
    averageRating: real,
    transactionIdUnique: bool)

  /** The defaults the services expect: a new appointment is SCHEDULED and UNPAID, a new user is an ACTIVE PATIENT. */
  const ExpectedSchema: Schema := Schema(Scheduled, Unpaid, PatientRole, Active, 0.0, true)

  /** Query results with the row count of the same `where` clause; pagination is not modelled. */
  datatype Listing = Listing(ids: set<nat>, total: nat)

  /** Ordered query results with the row count of the same `where` clause. */
  datatype Page = Page(ids: seq<nat>, total: nat)

  function Key(a: Appointment): ScheduleKey {
    ScheduleKey(a.doctorId, a.scheduleId)
  }

  // ---------------------------------------------------------------- lookups by e-mail

  function PatientByEmail(s: Store, email: string): (r: Option<nat>)
    ensures r.Some? ==> r.value in s.patients.rows && s.patients.rows[r.value].email == email
    ensures r.None? <==> forall k :: k in s.patients.rows ==> s.patients.rows[k].email != email
  {
    Find(s.patients, (p: Patient) => p.email == email)
  }

  function UserByEmail(s: Store, email: string): (r: Option<nat>)
    ensures r.Some? ==> r.value in s.users.rows && s.users.rows[r.value].email == email
    ensures r.None? <==> forall k :: k in s.users.rows ==> s.users.rows[k].email != email
  {
    Find(s.users, (u: User) => u.email == email)
  }

  predicate PatientHasEmail(s: Store, id: nat, email: string) {
    id in s.patients.rows && s.patients.rows[id].email == email
  }

  predicate DoctorHasEmail(s: Store, id: nat, email: string) {
    id in s.doctors.rows && s.doctors.rows[id].email == email
  }

  // ---------------------------------------------------------------- store invariants

  /** Every appointment sits on a binding that is booked and names it. */
  ghost predicate AppointmentsHoldTheirSlots(s: Store) {
    forall id :: id in s.appointments.rows ==>
      Key(s.appointments.rows[id]) in s.doctorSchedules
      && s.doctorSchedules[Key(s.appointments.rows[id])].isBooked
      && s.doctorSchedules[Key(s.appointments.rows[id])].appointmentId == Some(id)
  }

  /** Every booked binding names a live appointment on that binding. */
  ghost predicate BookedSlotsAreHeld(s: Store) {
    forall k :: k in s.doctorSchedules && s.doctorSchedules[k].isBooked ==>
      s.doctorSchedules[k].appointmentId.Some?
      && s.doctorSchedules[k].appointmentId.value in s.appointments.rows
      && Key(s.appointments.rows[s.doctorSchedules[k].appointmentId.value]) == k
  }

  /** Payments, prescriptions and reviews belong to live appointments. */
  ghost predicate ChildrenAttached(s: Store) {
    && (forall p :: p in s.payments.rows ==> s.payments.rows[p].appointmentId in s.appointments.rows)
    && (forall p :: p in s.prescriptions.rows ==> s.prescriptions.rows[p].appointmentId in s.appointments.rows)
    && (forall r :: r in s.reviews.rows ==> s.reviews.rows[r].appointmentId in s.appointments.rows)
  }

  /** Each appointment has exactly one payment. */
  ghost predicate OnePaymentEach(s: Store) {
    && (forall a :: a in s.appointments.rows ==>
          exists p :: p in s.payments.rows && s.payments.rows[p].appointmentId == a)
    && (forall p, q :: p in s.payments.rows && q in s.payments.rows && p != q ==>
          s.payments.rows[p].appointmentId != s.payments.rows[q].appointmentId)
  }

  /** Appointments reference existing patients and doctors. */
  ghost predicate ParticipantsExist(s: Store) {
    forall a :: a in s.appointments.rows ==>
      s.appointments.rows[a].patientId in s.patients.rows
      && s.appointments.rows[a].doctorId in s.doctors.rows
  }

  /** The booking-consistency invariant the booking, status and reclaim operations keep. */
  ghost predicate Consistent(s: Store) {
    && AppointmentsHoldTheirSlots(s)
    && BookedSlotsAreHeld(s)
    && ChildrenAttached(s)
    && OnePaymentEach(s)
    && ParticipantsExist(s)
  }

  /** No two appointments occupy the same doctor-slot binding. */
  ghost predicate NoDoubleBooking(s: Store) {
    forall a, b :: a in s.appointments.rows && b in s.appointments.rows && a != b ==>
      Key(s.appointments.rows[a]) != Key(s.appointments.rows[b])
  }

  lemma ConsistentMeansNoDoubleBooking(s: Store)
    requires AppointmentsHoldTheirSlots(s)
    ensures NoDoubleBooking(s)
  {
  }
}
