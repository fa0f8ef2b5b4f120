/** Booking, status changes, the unpaid-reclaim sweep and the caller's appointment list
    (src/app/modules/appointment/appointment.service.ts). */
module AppointmentService {
  import opened Wrappers
  import opened Tables
  import opened Db
  import opened TransactionIds

  // ---------------------------------------------------------------- booking

  /** A successful booking: the new store, the new appointment's id and its payment's id. */
  datatype Booking = Booking(store: Store, appointmentId: nat, paymentId: nat)

  predicate TransactionIdTaken(s: Store, txn: string) {
    exists p :: p in s.payments.rows && s.payments.rows[p].transactionId == txn
  }

  /** The booking guards that run before the transaction, in order. */
  predicate CanReachTransaction(s: Store, email: string, doctorId: nat, scheduleId: nat) {
    && PatientByEmail(s, email).Some?
    && doctorId in s.doctors.rows && !s.doctors.rows[doctorId].isDeleted
    && ScheduleKey(doctorId, scheduleId) in s.doctorSchedules
    && !s.doctorSchedules[ScheduleKey(doctorId, scheduleId)].isBooked
  }

  /** `createAppointment`: the calling patient books the doctor's unbooked binding on the slot.
      One transaction creates the appointment (with the schema's default status and payment
      status), books the binding for it and creates its payment for the doctor's current fee under
      the clock-derived transaction id. `videoCallingId` stands for the fresh `uuidv4()` token,
      `nowMillis` for the row's `createdAt` and `clock` for the local-time reading the transaction
      id is built from. */
  function CreateAppointment(s: Store, schema: Schema, caller: Caller, doctorId: nat, scheduleId: nat,
                             videoCallingId: string, nowMillis: int, clock: DateParts): (r: Result<Booking>)
    // the guards, in the order the source checks them
    ensures PatientByEmail(s, caller.email).None? ==> r == Err(NotFound(PatientRow))
    ensures (PatientByEmail(s, caller.email).Some?
             && (doctorId !in s.doctors.rows || s.doctors.rows[doctorId].isDeleted))
      ==> r == Err(NotFound(DoctorRow))
    ensures (PatientByEmail(s, caller.email).Some? && doctorId in s.doctors.rows && !s.doctors.rows[doctorId].isDeleted
             && (ScheduleKey(doctorId, scheduleId) !in s.doctorSchedules
                 || s.doctorSchedules[ScheduleKey(doctorId, scheduleId)].isBooked))
      ==> r == Err(NotFound(DoctorScheduleRow))
    ensures (CanReachTransaction(s, caller.email, doctorId, scheduleId)
             && schema.transactionIdUnique && TransactionIdTaken(s, TransactionId(clock)))
      ==> r == Err(UniqueViolation(PaymentRow))
    // success happens exactly when every guard passes
    ensures r.Ok? <==> (CanReachTransaction(s, caller.email, doctorId, scheduleId)
                        && !(schema.transactionIdUnique && TransactionIdTaken(s, TransactionId(clock))))
    // and then makes exactly the three writes
    ensures r.Ok? ==>
      var b := r.value;
      var key := ScheduleKey(doctorId, scheduleId);
      && b.appointmentId !in s.appointments.rows
      && b.paymentId !in s.payments.rows
      && b.store.appointments.rows == s.appointments.rows[b.appointmentId :=
           Appointment(PatientByEmail(s, caller.email).value, doctorId, scheduleId, videoCallingId,
                       schema.appointmentStatus, schema.appointmentPaymentStatus, nowMillis)]
      && b.store.doctorSchedules == s.doctorSchedules[key := DoctorSchedule(true, Some(b.appointmentId))]
      && b.store.payments.rows == s.payments.rows[b.paymentId :=
           Payment(b.appointmentId, s.doctors.rows[doctorId].appointmentFee, TransactionId(clock))]
      && b.store == s.(appointments := b.store.appointments, doctorSchedules := b.store.doctorSchedules,
                       payments := b.store.payments)
  {
    match PatientByEmail(s, caller.email)
    case None => Err(NotFound(PatientRow))
    case Some(patientId) =>
      if doctorId !in s.doctors.rows || s.doctors.rows[doctorId].isDeleted then Err(NotFound(DoctorRow))
      else
        var key := ScheduleKey(doctorId, scheduleId);
        if key !in s.doctorSchedules || s.doctorSchedules[key].isBooked then Err(NotFound(DoctorScheduleRow))
        else
          var txn := TransactionId(clock);
          if schema.transactionIdUnique && TransactionIdTaken(s, txn) then Err(UniqueViolation(PaymentRow))
          else
            var (appointments, a) := Insert(s.appointments,
              Appointment(patientId, doctorId, scheduleId, videoCallingId,
                          schema.appointmentStatus, schema.appointmentPaymentStatus, nowMillis));
            var (payments, p) := Insert(s.payments, Payment(a, s.doctors.rows[doctorId].appointmentFee, txn));
            Ok(Booking(s.(appointments := appointments,
                          doctorSchedules := s.doctorSchedules[key := DoctorSchedule(true, Some(a))],
                          payments := payments), a, p))
  }

  /** The writes of a booking: `appt` added under the fresh id `a` on a free binding, the binding
      booked for it, and its payment `pay` added under the fresh id `p`. */
  ghost predicate BookingWrites(s: Store, t: Store, a: nat, appt: Appointment, p: nat, pay: Payment) {
    && a !in s.appointments.rows && p !in s.payments.rows
    && Key(appt) in s.doctorSchedules && !s.doctorSchedules[Key(appt)].isBooked
    && appt.patientId in s.patients.rows && appt.doctorId in s.doctors.rows
    && pay.appointmentId == a
    && t.appointments.rows == s.appointments.rows[a := appt]
    && t.doctorSchedules == s.doctorSchedules[Key(appt) := DoctorSchedule(true, Some(a))]
    && t.payments.rows == s.payments.rows[p := pay]
    && t == s.(appointments := t.appointments, doctorSchedules := t.doctorSchedules, payments := t.payments)
  }

  lemma BookingWritesHoldSlots(s: Store, t: Store, a: nat, appt: Appointment, p: nat, pay: Payment)
    requires AppointmentsHoldTheirSlots(s) && BookingWrites(s, t, a, appt, p, pay)
    ensures AppointmentsHoldTheirSlots(t)
  {
    forall id | id in t.appointments.rows
      ensures Key(t.appointments.rows[id]) in t.doctorSchedules
      ensures t.doctorSchedules[Key(t.appointments.rows[id])].isBooked
      ensures t.doctorSchedules[Key(t.appointments.rows[id])].appointmentId == Some(id)
    {
      if id != a {
        assert t.appointments.rows[id] == s.appointments.rows[id];
        assert s.doctorSchedules[Key(s.appointments.rows[id])].isBooked;
      }
    }
  }

  lemma BookingWritesHeldSlots(s: Store, t: Store, a: nat, appt: Appointment, p: nat, pay: Payment)
    requires BookedSlotsAreHeld(s) && BookingWrites(s, t, a, appt, p, pay)
    ensures BookedSlotsAreHeld(t)
  {
    forall k | k in t.doctorSchedules && t.doctorSchedules[k].isBooked
      ensures t.doctorSchedules[k].appointmentId.Some?
      ensures t.doctorSchedules[k].appointmentId.value in t.appointments.rows
      ensures Key(t.appointments.rows[t.doctorSchedules[k].appointmentId.value]) == k
    {
      if k != Key(appt) {
        var id := s.doctorSchedules[k].appointmentId.value;
        assert id in s.appointments.rows && id != a;
      }
    }
  }

  lemma BookingWritesPayEach(s: Store, t: Store, a: nat, appt: Appointment, p: nat, pay: Payment)
    requires OnePaymentEach(s) && ChildrenAttached(s) && BookingWrites(s, t, a, appt, p, pay)
    ensures OnePaymentEach(t)
  {
    forall id | id in t.appointments.rows
      ensures exists q :: q in t.payments.rows && t.payments.rows[q].appointmentId == id
    {
      if id == a {
        assert t.payments.rows[p].appointmentId == a;
      } else {
        var q :| q in s.payments.rows && s.payments.rows[q].appointmentId == id;
        assert t.payments.rows[q].appointmentId == id;
      }
    }
  }

  /** Adding an appointment on a free binding, booking that binding for it and adding its payment
      keeps the store consistent. */
  lemma BookingWritesPreserveConsistency(s: Store, t: Store, a: nat, appt: Appointment, p: nat, pay: Payment)
    requires Consistent(s) && BookingWrites(s, t, a, appt, p, pay)
    ensures Consistent(t)
  {
    BookingWritesHoldSlots(s, t, a, appt, p, pay);
    BookingWritesHeldSlots(s, t, a, appt, p, pay);
    BookingWritesPayEach(s, t, a, appt, p, pay);
  }

  /** Booking keeps the store consistent: in particular no binding ends up held by two appointments. */
  lemma BookingPreservesConsistency(s: Store, schema: Schema, caller: Caller, doctorId: nat, scheduleId: nat,
                                    videoCallingId: string, nowMillis: int, clock: DateParts)
    requires Consistent(s)
    requires CreateAppointment(s, schema, caller, doctorId, scheduleId, videoCallingId, nowMillis, clock).Ok?
    ensures Consistent(CreateAppointment(s, schema, caller, doctorId, scheduleId, videoCallingId, nowMillis, clock).value.store)
    ensures NoDoubleBooking(CreateAppointment(s, schema, caller, doctorId, scheduleId, videoCallingId, nowMillis, clock).value.store)
  {
    var b := CreateAppointment(s, schema, caller, doctorId, scheduleId, videoCallingId, nowMillis, clock).value;
    var appt := b.store.appointments.rows[b.appointmentId];
    assert BookingWrites(s, b.store, b.appointmentId, appt, b.paymentId, b.store.payments.rows[b.paymentId]);
    BookingWritesPreserveConsistency(s, b.store, b.appointmentId, appt, b.paymentId, b.store.payments.rows[b.paymentId]);
    ConsistentMeansNoDoubleBooking(b.store);
  }

  /** Once a binding is booked, booking it again fails, whoever asks and whenever. */
  lemma NoSecondBooking(s: Store, schema: Schema, caller: Caller, doctorId: nat, scheduleId: nat,
                        videoCallingId: string, nowMillis: int, clock: DateParts,
                        caller2: Caller, videoCallingId2: string, nowMillis2: int, clock2: DateParts)
    requires CreateAppointment(s, schema, caller, doctorId, scheduleId, videoCallingId, nowMillis, clock).Ok?
    ensures CreateAppointment(CreateAppointment(s, schema, caller, doctorId, scheduleId, videoCallingId, nowMillis, clock).value.store,
                              schema, caller2, doctorId, scheduleId, videoCallingId2, nowMillis2, clock2).Err?
  {
  }

  /** With a unique transaction id, a second booking whose clock agrees with the first on year,
      month, weekday, hour and minute fails, whatever slot it asks for. */
  lemma SameMinuteBookingsCollide(s: Store, schema: Schema, caller: Caller, doctorId: nat, scheduleId: nat,
                                  videoCallingId: string, nowMillis: int, clock: DateParts,
                                  caller2: Caller, doctorId2: nat, scheduleId2: nat,
                                  videoCallingId2: string, nowMillis2: int, clock2: DateParts)
    requires schema.transactionIdUnique
    requires CreateAppointment(s, schema, caller, doctorId, scheduleId, videoCallingId, nowMillis, clock).Ok?
    requires clock2.year == clock.year && clock2.month == clock.month && clock2.weekday == clock.weekday
    requires clock2.hour == clock.hour && clock2.minute == clock.minute
    ensures CreateAppointment(CreateAppointment(s, schema, caller, doctorId, scheduleId, videoCallingId, nowMillis, clock).value.store,
                              schema, caller2, doctorId2, scheduleId2, videoCallingId2, nowMillis2, clock2).Err?
  {
    var b := CreateAppointment(s, schema, caller, doctorId, scheduleId, videoCallingId, nowMillis, clock).value;
    TransactionIdCollision(clock, clock2);
    assert b.store.payments.rows[b.paymentId].transactionId == TransactionId(clock2);
  }

  // ---------------------------------------------------------------- status changes

  /** `updateAppointmentStatus`: overwrites the status, from any status to any status. Only a
      DOCTOR caller is checked, and must be the appointment's doctor. */
  function UpdateAppointmentStatus(s: Store, caller: Caller, id: nat, status: AppointmentStatus): (r: Result<Store>)
    ensures id !in s.appointments.rows ==> r == Err(NotFound(AppointmentRow))
    ensures (id in s.appointments.rows && caller.role == DoctorRole
             && !DoctorHasEmail(s, s.appointments.rows[id].doctorId, caller.email))
      ==> r == Err(NotYourAppointment)
    ensures r.Ok? <==> (id in s.appointments.rows
                        && (caller.role == DoctorRole ==> DoctorHasEmail(s, s.appointments.rows[id].doctorId, caller.email)))
    ensures r.Ok? ==>
      && r.value.appointments.rows.Keys == s.appointments.rows.Keys
      && r.value.appointments.rows[id] == s.appointments.rows[id].(status := status)
      && (forall k :: k in s.appointments.rows && k != id ==> r.value.appointments.rows[k] == s.appointments.rows[k])
      && r.value == s.(appointments := r.value.appointments)
  {
    if id !in s.appointments.rows then Err(NotFound(AppointmentRow))
    else
      var a := s.appointments.rows[id];
      if caller.role == DoctorRole && !DoctorHasEmail(s, a.doctorId, caller.email) then Err(NotYourAppointment)
      else Ok(s.(appointments := Put(s.appointments, id, a.(status := status))))
  }

  /** A status change never touches bindings or payments, so it keeps the store consistent. */
  lemma StatusUpdatePreservesConsistency(s: Store, caller: Caller, id: nat, status: AppointmentStatus)
    requires Consistent(s)
    requires UpdateAppointmentStatus(s, caller, id, status).Ok?
    ensures Consistent(UpdateAppointmentStatus(s, caller, id, status).value)
  {
    var t := UpdateAppointmentStatus(s, caller, id, status).value;
    RewriteKeepingKeysPreservesConsistency(s, t);
  }

  /** Rewriting appointments in place without moving them keeps the store consistent. */
  lemma RewriteKeepingKeysPreservesConsistency(s: Store, t: Store)
    requires Consistent(s)
    requires t.appointments.rows.Keys == s.appointments.rows.Keys
    requires forall k :: k in s.appointments.rows ==>
      Key(t.appointments.rows[k]) == Key(s.appointments.rows[k])
      && t.appointments.rows[k].patientId == s.appointments.rows[k].patientId
    requires t == s.(appointments := t.appointments)
    ensures Consistent(t)
  {
  }

  // ---------------------------------------------------------------- reclaiming unpaid bookings

  /** Thirty minutes in milliseconds. */
  const ReclaimAfterMillis: int := 30 * 60 * 1000

  /** Selected by the sweep: unpaid and created at or before the cutoff, whatever the status. */
  predicate IsStale(a: Appointment, nowMillis: int) {
    a.paymentStatus == Unpaid && a.createdAt <= nowMillis - ReclaimAfterMillis
  }

  function StaleIds(s: Store, nowMillis: int): (r: set<nat>)
    ensures forall id :: id in r <==> id in s.appointments.rows && IsStale(s.appointments.rows[id], nowMillis)
  {
    Where(s.appointments, (a: Appointment) => IsStale(a, nowMillis))
  }

  /** The bindings the stale appointments sit on. */
  function StaleKeys(s: Store, stale: set<nat>): (r: set<ScheduleKey>)
    requires stale <= s.appointments.rows.Keys
    ensures forall k :: k in r <==> exists id :: id in stale && Key(s.appointments.rows[id]) == k
  {
    set id | id in stale :: Key(s.appointments.rows[id])
  }

  /** `updateMany({ isBooked: false })` on the given keys; absent keys match no row. */
  function Release(bindings: map<ScheduleKey, DoctorSchedule>, keys: set<ScheduleKey>): (r: map<ScheduleKey, DoctorSchedule>)
    ensures r.Keys == bindings.Keys
    ensures forall k :: k in bindings ==>
      r[k].appointmentId == bindings[k].appointmentId
      && (r[k].isBooked <==> bindings[k].isBooked && k !in keys)
  {
    map k | k in bindings :: if k in keys then bindings[k].(isBooked := false) else bindings[k]
  }

  /** `cancelUnpaidAppointments` at time `nowMillis`: deletes the stale appointments with their
      prescriptions, reviews and payments, and marks their bindings unbooked. The service code does
      not clear a binding's `appointmentId`, so it stays as it was. An empty selection changes nothing. */
  function CancelUnpaid(s: Store, nowMillis: int): (r: Store)
    ensures StaleIds(s, nowMillis) == {} ==> r == s
    ensures forall id :: id in r.appointments.rows <==>
      id in s.appointments.rows && !IsStale(s.appointments.rows[id], nowMillis)
    ensures forall id :: id in r.appointments.rows ==> r.appointments.rows[id] == s.appointments.rows[id]
    ensures forall p :: p in r.payments.rows <==>
      p in s.payments.rows && s.payments.rows[p].appointmentId !in StaleIds(s, nowMillis)
    ensures forall p :: p in r.prescriptions.rows <==>
      p in s.prescriptions.rows && s.prescriptions.rows[p].appointmentId !in StaleIds(s, nowMillis)
    ensures forall p :: p in r.reviews.rows <==>
      p in s.reviews.rows && s.reviews.rows[p].appointmentId !in StaleIds(s, nowMillis)
    ensures forall p :: p in r.payments.rows ==> r.payments.rows[p] == s.payments.rows[p]
    ensures forall p :: p in r.prescriptions.rows ==> r.prescriptions.rows[p] == s.prescriptions.rows[p]
    ensures forall p :: p in r.reviews.rows ==> r.reviews.rows[p] == s.reviews.rows[p]
    // a binding is released exactly when a stale appointment sits on it; its appointmentId stays
    ensures r.doctorSchedules.Keys == s.doctorSchedules.Keys
    ensures forall k :: k in s.doctorSchedules ==>
      r.doctorSchedules[k].appointmentId == s.doctorSchedules[k].appointmentId
      && (r.doctorSchedules[k].isBooked <==>
            s.doctorSchedules[k].isBooked && k !in StaleKeys(s, StaleIds(s, nowMillis)))
    ensures r == s.(appointments := r.appointments, payments := r.payments, prescriptions := r.prescriptions,
                    reviews := r.reviews, doctorSchedules := r.doctorSchedules)
  {
    var stale := StaleIds(s, nowMillis);
    if stale == {} then s
    else
      s.(prescriptions := DeleteWhere(s.prescriptions, (p: Prescription) => p.appointmentId in stale),
         reviews := DeleteWhere(s.reviews, (v: Review) => v.appointmentId in stale),
         payments := DeleteWhere(s.payments, (p: Payment) => p.appointmentId in stale),
         appointments := DeleteWhere(s.appointments, (a: Appointment) => IsStale(a, nowMillis)),
         doctorSchedules := Release(s.doctorSchedules, StaleKeys(s, stale)))
  }

  /** The sweep keeps the store consistent: the surviving appointments keep their booked bindings
      and payments, and every booked binding still names a live appointment. */
  lemma ReclaimPreservesConsistency(s: Store, nowMillis: int)
    requires Consistent(s)
    ensures Consistent(CancelUnpaid(s, nowMillis))
  {
    var t := CancelUnpaid(s, nowMillis);
    ConsistentMeansNoDoubleBooking(s);
    assert AppointmentsHoldTheirSlots(t) by {
      forall id | id in t.appointments.rows
        ensures Key(t.appointments.rows[id]) in t.doctorSchedules
        ensures t.doctorSchedules[Key(t.appointments.rows[id])].isBooked
        ensures t.doctorSchedules[Key(t.appointments.rows[id])].appointmentId == Some(id)
      {
        var k := Key(s.appointments.rows[id]);
        forall j | j in StaleIds(s, nowMillis)
          ensures Key(s.appointments.rows[j]) != k
        {
          assert j != id;
        }
      }
    }
    assert BookedSlotsAreHeld(t) by {
      forall k | k in t.doctorSchedules && t.doctorSchedules[k].isBooked
        ensures t.doctorSchedules[k].appointmentId.Some?
        ensures t.doctorSchedules[k].appointmentId.value in t.appointments.rows
        ensures Key(t.appointments.rows[t.doctorSchedules[k].appointmentId.value]) == k
      {
        var id := s.doctorSchedules[k].appointmentId.value;
        assert id in s.appointments.rows && Key(s.appointments.rows[id]) == k;
      }
    }
    assert OnePaymentEach(t) by {
      forall id | id in t.appointments.rows
        ensures exists p :: p in t.payments.rows && t.payments.rows[p].appointmentId == id
      {
        var p :| p in s.payments.rows && s.payments.rows[p].appointmentId == id;
        assert p in t.payments.rows;
      }
    }
  }

  /** A binding held by a stale appointment is free again after the sweep. */
  lemma ReclaimFreesBinding(s: Store, nowMillis: int, id: nat)
    requires AppointmentsHoldTheirSlots(s)
    requires id in s.appointments.rows && IsStale(s.appointments.rows[id], nowMillis)
    ensures Key(s.appointments.rows[id]) in CancelUnpaid(s, nowMillis).doctorSchedules
    ensures !CancelUnpaid(s, nowMillis).doctorSchedules[Key(s.appointments.rows[id])].isBooked
  {
    assert Key(s.appointments.rows[id]) in StaleKeys(s, StaleIds(s, nowMillis));
  }

  /** The slot of a reclaimed booking can be booked again: the binding guard passes. */
  lemma ReclaimedSlotIsBookable(s: Store, nowMillis: int, id: nat, schema: Schema, caller: Caller,
                                videoCallingId: string, bookedAt: int, clock: DateParts)
    requires AppointmentsHoldTheirSlots(s)
    requires id in s.appointments.rows && IsStale(s.appointments.rows[id], nowMillis)
    ensures var k := Key(s.appointments.rows[id]);
      CreateAppointment(CancelUnpaid(s, nowMillis), schema, caller, k.doctorId, k.scheduleId,
                        videoCallingId, bookedAt, clock) != Err(NotFound(DoctorScheduleRow))
  {
    ReclaimFreesBinding(s, nowMillis, id);
  }

  // ---------------------------------------------------------------- the caller's appointments

  /** The optional equality filters on status and payment status. */
  datatype AppointmentFilter = AppointmentFilter(status: Option<AppointmentStatus>, paymentStatus: Option<PaymentStatus>)

  predicate Matches(f: AppointmentFilter, a: Appointment) {
    && (f.status.Some? ==> a.status == f.status.value)
    && (f.paymentStatus.Some? ==> a.paymentStatus == f.paymentStatus.value)
  }

  /** `getMyAppointment`: a PATIENT sees the appointments of patients with their e-mail, a DOCTOR
      those of doctors with their e-mail, anyone else every appointment; the filters then apply and
      `total` counts the same selection. */
  function MyAppointments(s: Store, caller: Caller, filter: AppointmentFilter): (r: Listing)
    ensures caller.role == PatientRole ==> forall id :: id in r.ids <==>
      id in s.appointments.rows && PatientHasEmail(s, s.appointments.rows[id].patientId, caller.email)
      && Matches(filter, s.appointments.rows[id])
    ensures caller.role == DoctorRole ==> forall id :: id in r.ids <==>
      id in s.appointments.rows && DoctorHasEmail(s, s.appointments.rows[id].doctorId, caller.email)
      && Matches(filter, s.appointments.rows[id])
    ensures caller.role == AdminRole ==> forall id :: id in r.ids <==>
      id in s.appointments.rows && Matches(filter, s.appointments.rows[id])
    ensures r.total == |r.ids|
  {
    var ids := set id | id in s.appointments.rows
      && (match caller.role
          case PatientRole => PatientHasEmail(s, s.appointments.rows[id].patientId, caller.email)
          case DoctorRole => DoctorHasEmail(s, s.appointments.rows[id].doctorId, caller.email)
          case AdminRole => true)
      && Matches(filter, s.appointments.rows[id]);
    Listing(ids, |ids|)
  }

  /** A booking shows up, unfiltered, in the list of the patient who made it and in the list of
      the doctor booked. */
  lemma BookingIsListedForPatientAndDoctor(s: Store, schema: Schema, caller: Caller, doctorId: nat, scheduleId: nat,
                                           videoCallingId: string, nowMillis: int, clock: DateParts)
    requires CreateAppointment(s, schema, caller, doctorId, scheduleId, videoCallingId, nowMillis, clock).Ok?
    ensures var b := CreateAppointment(s, schema, caller, doctorId, scheduleId, videoCallingId, nowMillis, clock).value;
      && b.appointmentId in MyAppointments(b.store, Caller(caller.email, PatientRole), AppointmentFilter(None, None)).ids
      && b.appointmentId in MyAppointments(b.store, Caller(s.doctors.rows[doctorId].email, DoctorRole),
                                           AppointmentFilter(None, None)).ids
  {
    var b := CreateAppointment(s, schema, caller, doctorId, scheduleId, videoCallingId, nowMillis, clock).value;
    var a := b.store.appointments.rows[b.appointmentId];
    assert a.patientId == PatientByEmail(s, caller.email).value && a.doctorId == doctorId;
    assert b.store.patients == s.patients && b.store.doctors == s.doctors;
  }

  /** Patients and doctors never see anyone else's appointments. */
  lemma MyAppointmentsAreMine(s: Store, caller: Caller, filter: AppointmentFilter, id: nat)
    requires id in MyAppointments(s, caller, filter).ids
    ensures id in s.appointments.rows
    ensures caller.role == PatientRole ==>
      s.appointments.rows[id].patientId in s.patients.rows
      && s.patients.rows[s.appointments.rows[id].patientId].email == caller.email
    ensures caller.role == DoctorRole ==>
      s.appointments.rows[id].doctorId in s.doctors.rows
      && s.doctors.rows[s.appointments.rows[id].doctorId].email == caller.email
  {
  }
}
