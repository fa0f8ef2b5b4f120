/** Prescriptions: the assigned doctor writes one for a completed appointment; a patient lists
    their own (src/app/modules/Prescriptions/prescription.service.ts).

    An appointment has at most one prescription: the one-to-one relation puts a unique constraint
    on the prescription's `appointmentId`. */
module PrescriptionService {
  import opened Wrappers
  import opened Tables
  import opened Db

  datatype Prescribed = Prescribed(store: Store, prescriptionId: nat)

  predicate HasPrescription(s: Store, appointmentId: nat) {
    exists p :: p in s.prescriptions.rows && s.prescriptions.rows[p].appointmentId == appointmentId
  }

  /** `payload.followUpDate || null`: a missing or empty date is stored as null. */
  function FollowUp(followUpDate: Option<string>): (r: Option<string>)
    ensures r.None? <==> followUpDate.None? || followUpDate.value == ""
    ensures r.Some? ==> r == followUpDate
  {
    if followUpDate.Some? && followUpDate.value != "" then followUpDate else None
  }

  /** The appointment `findFirstOrThrow` picks: the given id when that appointment is COMPLETED.
      Without an id the `id` condition drops out of the query, and some COMPLETED appointment is
      picked; the query has no ordering, and this model takes the lowest id. */
  function Selected(s: Store, appointmentId: Option<nat>): (r: Option<nat>)
    ensures r.Some? ==> r.value in s.appointments.rows && s.appointments.rows[r.value].status == Completed
    ensures appointmentId.Some? ==>
      (r.Some? <==> appointmentId.value in s.appointments.rows
                    && s.appointments.rows[appointmentId.value].status == Completed)
    ensures appointmentId.Some? && r.Some? ==> r.value == appointmentId.value
    ensures appointmentId.None? ==>
      (r.None? <==> forall k :: k in s.appointments.rows ==> s.appointments.rows[k].status != Completed)
    ensures appointmentId.None? && r.Some? ==>
      forall k :: k in s.appointments.rows && k < r.value ==> s.appointments.rows[k].status != Completed
  {
    match appointmentId
    case Some(id) =>
      if id in s.appointments.rows && s.appointments.rows[id].status == Completed then Some(id) else None
    case None => Find(s.appointments, (a: Appointment) => a.status == Completed)
  }

  /** `createPrescription`: the selected appointment must be COMPLETED (its payment status is not
      looked at), and the caller, whatever their role, must be that appointment's doctor. The
      prescription copies the selected appointment's id, doctor and patient. */
  function CreatePrescription(s: Store, caller: Caller, appointmentId: Option<nat>, instructions: string,
                              followUpDate: Option<string>): (r: Result<Prescribed>)
    ensures Selected(s, appointmentId).None? ==> r == Err(NotFound(AppointmentRow))
    ensures (Selected(s, appointmentId).Some?
             && DoctorHasEmail(s, s.appointments.rows[Selected(s, appointmentId).value].doctorId, caller.email)
             && HasPrescription(s, Selected(s, appointmentId).value))
      ==> r == Err(UniqueViolation(PrescriptionRow))
    ensures (Selected(s, appointmentId).Some?
             && s.appointments.rows[Selected(s, appointmentId).value].doctorId in s.doctors.rows
             && s.doctors.rows[s.appointments.rows[Selected(s, appointmentId).value].doctorId].email != caller.email)
      ==> r == Err(NotYourAppointment)
    ensures r.Ok? <==> (Selected(s, appointmentId).Some?
                        && DoctorHasEmail(s, s.appointments.rows[Selected(s, appointmentId).value].doctorId, caller.email)
                        && !HasPrescription(s, Selected(s, appointmentId).value))
    ensures r.Ok? ==>
      var id := Selected(s, appointmentId).value;
      var a := s.appointments.rows[id];
      var t := r.value.store;
      && r.value.prescriptionId !in s.prescriptions.rows
      && t.prescriptions.rows == s.prescriptions.rows[r.value.prescriptionId :=
           Prescription(id, a.doctorId, a.patientId, instructions, FollowUp(followUpDate))]
      && t == s.(prescriptions := t.prescriptions)
  {
    match Selected(s, appointmentId)
    case None => Err(NotFound(AppointmentRow))
    case Some(id) =>
      var a := s.appointments.rows[id];
      if a.doctorId !in s.doctors.rows then Err(NotFound(DoctorRow))
      else if s.doctors.rows[a.doctorId].email != caller.email then Err(NotYourAppointment)
      else if HasPrescription(s, id) then Err(UniqueViolation(PrescriptionRow))
      else
        var (prescriptions, p) :=
          Insert(s.prescriptions, Prescription(id, a.doctorId, a.patientId, instructions, FollowUp(followUpDate)));
        Ok(Prescribed(s.(prescriptions := prescriptions), p))
  }

  /** Without an id the prescription goes to a COMPLETED appointment, whoever's it is, provided
      the caller is that appointment's doctor; in this model, the lowest-numbered one. */
  lemma NoIdPicksFirstCompleted(s: Store, caller: Caller, instructions: string, followUpDate: Option<string>)
    requires CreatePrescription(s, caller, None, instructions, followUpDate).Ok?
    ensures var b := CreatePrescription(s, caller, None, instructions, followUpDate).value;
      var id := b.store.prescriptions.rows[b.prescriptionId].appointmentId;
      && id in s.appointments.rows && s.appointments.rows[id].status == Completed
      && forall k :: k in s.appointments.rows && k < id ==> s.appointments.rows[k].status != Completed
  {
  }

  /** The appointment's payment status plays no part: setting it to anything gives the same outcome. */
  lemma PaymentStatusIgnored(s: Store, caller: Caller, appointmentId: nat, instructions: string,
                             followUpDate: Option<string>, p: PaymentStatus)
    requires appointmentId in s.appointments.rows
    ensures var s' := s.(appointments := Put(s.appointments, appointmentId,
                                              s.appointments.rows[appointmentId].(paymentStatus := p)));
      && CreatePrescription(s', caller, Some(appointmentId), instructions, followUpDate).Ok?
         == CreatePrescription(s, caller, Some(appointmentId), instructions, followUpDate).Ok?
      && (CreatePrescription(s, caller, Some(appointmentId), instructions, followUpDate).Ok? ==>
            CreatePrescription(s', caller, Some(appointmentId), instructions, followUpDate).value.store.prescriptions
            == CreatePrescription(s, caller, Some(appointmentId), instructions, followUpDate).value.store.prescriptions)
  {
    var s' := s.(appointments := Put(s.appointments, appointmentId,
                                     s.appointments.rows[appointmentId].(paymentStatus := p)));
    assert s'.appointments.rows[appointmentId].status == s.appointments.rows[appointmentId].status;
    assert s'.appointments.rows[appointmentId].doctorId == s.appointments.rows[appointmentId].doctorId;
    assert s'.appointments.rows[appointmentId].patientId == s.appointments.rows[appointmentId].patientId;
  }

  /** A prescription hangs on a live appointment, so writing one keeps the store consistent. */
  lemma PrescriptionPreservesConsistency(s: Store, caller: Caller, appointmentId: Option<nat>, instructions: string,
                                         followUpDate: Option<string>)
    requires Consistent(s)
    requires CreatePrescription(s, caller, appointmentId, instructions, followUpDate).Ok?
    ensures Consistent(CreatePrescription(s, caller, appointmentId, instructions, followUpDate).value.store)
  {
  }

  /** A second prescription request with the same appointment selection is rejected. */
  lemma OnePrescriptionPerAppointment(s: Store, caller: Caller, appointmentId: Option<nat>, instructions: string,
                                      followUpDate: Option<string>, caller2: Caller, instructions2: string,
                                      followUpDate2: Option<string>)
    requires CreatePrescription(s, caller, appointmentId, instructions, followUpDate).Ok?
    ensures CreatePrescription(CreatePrescription(s, caller, appointmentId, instructions, followUpDate).value.store,
                               caller2, appointmentId, instructions2, followUpDate2).Err?
  {
    var b := CreatePrescription(s, caller, appointmentId, instructions, followUpDate).value;
    var id := Selected(s, appointmentId).value;
    assert b.store.appointments == s.appointments;
    assert Selected(b.store, appointmentId) == Some(id);
    assert b.store.prescriptions.rows[b.prescriptionId].appointmentId == id;
  }

  // ---------------------------------------------------------------- a patient's prescriptions

  /** `patientPrescription`: the prescriptions whose patient has the caller's e-mail; `total`
      counts the same selection. */
  function PatientPrescriptions(s: Store, caller: Caller): (r: Listing)
    ensures forall id :: id in r.ids <==>
      id in s.prescriptions.rows && PatientHasEmail(s, s.prescriptions.rows[id].patientId, caller.email)
    ensures r.total == |r.ids|
  {
    var ids := set id | id in s.prescriptions.rows && PatientHasEmail(s, s.prescriptions.rows[id].patientId, caller.email);
    Listing(ids, |ids|)
  }

  /** A new prescription is listed for a caller exactly when the caller has the e-mail of the
      selected appointment's patient. */
  lemma PrescriptionVisibleToItsPatient(s: Store, caller: Caller, appointmentId: Option<nat>, instructions: string,
                                        followUpDate: Option<string>, viewer: Caller)
    requires CreatePrescription(s, caller, appointmentId, instructions, followUpDate).Ok?
    ensures var b := CreatePrescription(s, caller, appointmentId, instructions, followUpDate).value;
      b.prescriptionId in PatientPrescriptions(b.store, viewer).ids
      <==> PatientHasEmail(s, s.appointments.rows[Selected(s, appointmentId).value].patientId, viewer.email)
  {
    var b := CreatePrescription(s, caller, appointmentId, instructions, followUpDate).value;
    assert b.store.prescriptions.rows[b.prescriptionId].patientId
      == s.appointments.rows[Selected(s, appointmentId).value].patientId;
    assert b.store.patients == s.patients;
  }
}
