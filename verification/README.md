# Clinic booking core in Dafny

This project models the slot-booking subsystem of a clinic appointment backend, together with the
guards and set-maintenance rules that hang off it. The backend is an Express/Prisma service. The
parts modelled are:

- slot generation and the slot catalogue query;
- booking a doctor's slot, changing an appointment's status, and the periodic sweep that reclaims
  unpaid bookings;
- the caller-scoped appointment list;
- linking and unlinking a doctor's specialties, soft deletion, lookup by id and the doctor listing;
- reviews, with the recomputed average rating, and the review listing;
- prescriptions and a patient's prescription list;
- registering patients, doctors and admins, changing a user's status, and reading one's own profile.

The relational store is one immutable value, `Db.Store`: a table per model, the doctor-slot
bindings keyed by `(doctorId, scheduleId)`, and the doctor-specialty links as a set. A table
(`Tables.Table`) is a map from row id to row plus a counter, so every insert gets an id no row has.
Every service call is a pure function from a store to `Result<…>`. An `Err` carries no store, so an
operation that fails leaves nothing behind. That is how a rolled-back `$transaction`, or a lookup
that throws before any write, is modelled. Slot times are minutes (`day * 1440 + minute`). A row's
`createdAt` is milliseconds, as `Date.now()` gives it. Ratings are `real`, so averages are exact.

The booking invariant is `Db.Consistent`:

- every appointment sits on a booked binding that names it;
- every booked binding names a live appointment on that binding;
- payments, prescriptions and reviews belong to live appointments;
- each appointment has exactly one payment;
- appointments reference existing patients and doctors.

From it follows `Db.NoDoubleBooking`: no two appointments share a binding. Every modelled write
keeps the invariant: booking, status changes, the reclaim sweep, reviews, prescriptions, slot
generation, doctor updates and soft deletes, registrations and user status changes.

Modules, one per source file of the core:

- `ScheduleService`: src/app/modules/Schedule/schedule.service.ts
- `AppointmentService` and `TransactionIds`: src/app/modules/appointment/appointment.service.ts
- `DoctorService`: src/app/modules/Doctor/doctor.service.ts
- `ReviewService`: src/app/modules/review/review.service.ts
- `PrescriptionService`: src/app/modules/Prescriptions/prescription.service.ts
- `UserService`: src/app/modules/user/user.service.ts
- Shared modules: `Wrappers` (Option, Result, errors), `Tables`, `Seqs` (filtering, sorting, sums
  and means) and `Db` (entities, store, invariants).

## Behaviour worth knowing

The model keeps each of these behaviours of the code.

- **The last slot can overrun the window.** The slot loop tests only the slot's start, so a
  09:00–09:45 window yields 09:00–09:30 and 09:30–10:00 (`ScheduleService.LastSlotOverrunsWindow`).
- **An inverted date range is not an error.** When the end date is before the start date, the day
  loop runs zero times and the result is an empty list.
- **A missing or booked binding gives "record not found".** The booking looks the free binding up
  with `findFirstOrThrow`, so a booked slot fails the same way as a missing one.
- **Only a DOCTOR caller is checked on a status change.** A DOCTOR must be the appointment's
  doctor. Callers with any other role pass. Any status may follow any other.
- **The reclaim sweep does not clear the binding's appointment reference.** The service code only
  sets `isBooked = false`, so in the model the binding keeps its stale `appointmentId`. The schema's
  referential action on deleting the appointment, which could clear it, is not modelled.
- **A cancelled appointment keeps its binding booked.** Setting an appointment's status to
  CANCELED does not release its binding. So `Db.Consistent` speaks of live (undeleted)
  appointments, whatever their status.
- **Transaction ids can collide.** The id is built from the year, month, weekday, hour and minute.
  Two bookings whose clocks agree on those fields get the same id
  (`TransactionIds.TransactionIdCollision`).
- **The doctor listing includes soft-deleted doctors.** Its query does not filter on `isDeleted`.
- **A prescription request without an appointment id is accepted.** The `id` condition then drops
  out of the lookup, and the prescription goes to some COMPLETED appointment. The lookup has no
  ordering, so the database may return any COMPLETED row; the model takes the lowest id
  (`PrescriptionService.NoIdPicksFirstCompleted`).

## Model

| member | source | states |
|---|---|---|
| ScheduleService.WindowSlotsExactly | src/app/modules/Schedule/schedule.service.ts:37-59 | a day's window yields exactly the 30-minute slots whose start lies on the 30-minute grid from the window's start and strictly before its end |
| ScheduleService.EmptyWindow | src/app/modules/Schedule/schedule.service.ts:37 | when endTime ≤ startTime the day yields no slot |
| ScheduleService.LastSlotOverrunsWindow | src/app/modules/Schedule/schedule.service.ts:37-39 | example of WindowSlotsExactly: a 09:00–09:45 window yields 09:00–09:30 and 09:30–10:00, the last ending after the window |
| ScheduleService.RangeSlotsExactly | src/app/modules/Schedule/schedule.service.ts:17-62 | the slots asked for are those of every day from the first to the last inclusive; an inverted range asks for none |
| ScheduleService.SlotsAreThirtyMinutes | src/app/modules/Schedule/schedule.service.ts:39 | every slot asked for ends 30 minutes after it starts |
| ScheduleService.AddIfAbsentSpec | src/app/modules/Schedule/schedule.service.ts:46-56 | one find-or-create step: stored rows are kept, the slot is stored afterwards, a row is added only when no row had those times, and the created list grows by exactly that row |
| ScheduleService.AddAllSpec | src/app/modules/Schedule/schedule.service.ts:46-56 | after processing the requested slots: old rows are unchanged, every requested slot is stored, every new row is requested and was not stored before, the returned ids are exactly the new rows, each once, and a duplicate-free catalogue stays duplicate-free |
| ScheduleService.AddAllStoredIsNoop | src/app/modules/Schedule/schedule.service.ts:46-56 | asking for slots that are all stored changes nothing and creates nothing |
| ScheduleService.AddAllIdempotent | src/app/modules/Schedule/schedule.service.ts:10-65 | running the same generation twice adds nothing the second time |
| ScheduleService.InsertDay | src/app/modules/Schedule/schedule.service.ts:37-59 | the inner loop processes exactly that day's window slots, in order, after the earlier days' slots |
| ScheduleService.InsertIntoDB | src/app/modules/Schedule/schedule.service.ts:10-65 | the nested loop equals processing every day's slots in order; only slots change; the returned ids are exactly the new rows, each 30 minutes wide; no duplicate pair is introduced; an inverted range changes nothing |
| ScheduleService.GeneratedSlots | src/app/modules/Schedule/schedule.service.ts:46-64 | a generation run returns exactly the new rows, each 30 minutes wide, keeps the catalogue duplicate-free, and does nothing for an inverted range |
| ScheduleService.SlotGenerationPreservesConsistency | src/app/modules/Schedule/schedule.service.ts:46-56 | writing only slot rows keeps the booking invariant |
| ScheduleService.BoundTo | src/app/modules/Schedule/schedule.service.ts:98-111 | the slot ids bound to any doctor with the caller's e-mail |
| ScheduleService.SchedulesForDoctor | src/app/modules/Schedule/schedule.service.ts:78-134 | exactly the catalogue slots not bound to the calling doctor and, only when both bounds are given, starting at or after the first and ending at or before the second; total counts the same selection |
| ScheduleService.NewSlotsAreOffered | src/app/modules/Schedule/schedule.service.ts:46-134 | when every binding names a stored slot, a slot the generation run creates is offered to every doctor whenever it lies in the time filter |
| ScheduleService.NeverOffersBoundSlot | src/app/modules/Schedule/schedule.service.ts:98-118 | a slot bound to the calling doctor is never offered |
| Db.PatientByEmail | src/app/modules/appointment/appointment.service.ts:22-26 | finds a patient with the e-mail exactly when one exists |
| Db.ConsistentMeansNoDoubleBooking | src/app/modules/appointment/appointment.service.ts:60-71 | when every appointment holds its booked binding by id, no two appointments share a binding |
| AppointmentService.CreateAppointment | src/app/modules/appointment/appointment.service.ts:18-95 | fails with the first failing guard (no patient, missing or soft-deleted doctor, no free binding, taken transaction id); succeeds exactly when all pass; then adds the appointment with the schema defaults, books the binding for it, and adds a payment for the doctor's current fee, with nothing else changed |
| AppointmentService.BookingPreservesConsistency | src/app/modules/appointment/appointment.service.ts:45-95 | a booking keeps the store consistent, so no binding is held by two appointments |
| AppointmentService.NoSecondBooking | src/app/modules/appointment/appointment.service.ts:35-41 | once a binding is booked, booking it again fails for anyone |
| AppointmentService.SameMinuteBookingsCollide | src/app/modules/appointment/appointment.service.ts:73-93 | with a unique transaction id, a second booking in the same year, month, weekday, hour and minute fails, whatever it books |
| TransactionIds.DecimalRoundTrip | src/app/modules/appointment/appointment.service.ts:75-85 | reading back a number's decimal rendering gives the number |
| TransactionIds.JoinInjective | src/app/modules/appointment/appointment.service.ts:75-85 | equal dash-joined renderings come from equal number lists |
| TransactionIds.TransactionIdCollision | src/app/modules/appointment/appointment.service.ts:73-85 | two clocks give the same transaction id exactly when they agree on year, month, weekday, hour and minute |
| TransactionIds.SameWeekdayOneWeekApartCollides | src/app/modules/appointment/appointment.service.ts:73-85 | example of TransactionIdCollision: two Mondays a week apart in the same month, at the same hour and minute, give the same id |
| AppointmentService.UpdateAppointmentStatus | src/app/modules/appointment/appointment.service.ts:213-243 | a missing appointment fails; a DOCTOR caller who is not the appointment's doctor fails; other roles are not checked; on success only that appointment's status changes, to any value |
| AppointmentService.StatusUpdatePreservesConsistency | src/app/modules/appointment/appointment.service.ts:235-242 | a status change keeps the store consistent |
| AppointmentService.StaleIds | src/app/modules/appointment/appointment.service.ts:246-258 | exactly the UNPAID appointments created at or before now minus 30 minutes, whatever their status |
| AppointmentService.StaleKeys | src/app/modules/appointment/appointment.service.ts:282-290 | exactly the bindings the selected appointments sit on |
| AppointmentService.Release | src/app/modules/appointment/appointment.service.ts:282-290 | a binding becomes unbooked exactly when its key is listed; appointment references and the key set stay |
| AppointmentService.CancelUnpaid | src/app/modules/appointment/appointment.service.ts:245-292 | an empty selection changes nothing; otherwise exactly the selected appointments and their payments, prescriptions and reviews go, their bindings become unbooked with the appointment reference left as it was (the service code does not clear it; referential actions are not modelled), and every other row is unchanged |
| AppointmentService.ReclaimPreservesConsistency | src/app/modules/appointment/appointment.service.ts:262-291 | the sweep keeps the store consistent |
| AppointmentService.ReclaimFreesBinding | src/app/modules/appointment/appointment.service.ts:282-290 | the binding of a reclaimed appointment is free afterwards |
| AppointmentService.ReclaimedSlotIsBookable | src/app/modules/appointment/appointment.service.ts:35-41 | after the sweep, booking a reclaimed slot passes the binding guard |
| AppointmentService.MyAppointments | src/app/modules/appointment/appointment.service.ts:146-201 | a PATIENT gets the appointments of patients with their e-mail, a DOCTOR those of doctors with their e-mail, an ADMIN all; the filters apply on top; total counts the same selection |
| AppointmentService.BookingIsListedForPatientAndDoctor | src/app/modules/appointment/appointment.service.ts:45-158 | a new booking is in the unfiltered list of the patient who made it and of the doctor booked |
| AppointmentService.MyAppointmentsAreMine | src/app/modules/appointment/appointment.service.ts:146-158 | a patient or doctor sees only appointments whose patient or doctor has their e-mail |
| DoctorService.FoundLinked | src/app/modules/Doctor/doctor.service.ts:125-132 | exactly the listed ids linked to the doctor |
| DoctorService.RemovalCountCheck | src/app/modules/Doctor/doctor.service.ts:125-134 | the found count equals the list length exactly when every listed id is linked and none is listed twice |
| DoctorService.RemoveLinks | src/app/modules/Doctor/doctor.service.ts:120-153 | succeeds exactly when every listed id is linked and none repeats, and then removes exactly the doctor's links to those ids; otherwise fails listing the ids not linked |
| DoctorService.DuplicateRemovalFails | src/app/modules/Doctor/doctor.service.ts:125-144 | listing a linked id twice fails |
| DoctorService.AddLinks | src/app/modules/Doctor/doctor.service.ts:156-203 | ids missing from the catalogue fail, listing them; otherwise it succeeds exactly when the ids not yet linked are distinct, and then the links are the old ones plus one per listed id |
| DoctorService.ReAddIsNoop | src/app/modules/Doctor/doctor.service.ts:176-203 | linking ids that are all linked already changes nothing |
| DoctorService.UpdateDoctorInfo | src/app/modules/Doctor/doctor.service.ts:101-205 | a missing or soft-deleted doctor fails; unlinking happens only when some scalar field is given, and a failed unlink fails the whole update; the update succeeds exactly when the doctor is live, the unlink step (if it runs) passes its count check, every id to link is in the catalogue, and the ids still unlinked are distinct; on success the scalar fields are applied, and the links are the old ones minus those unlinked plus those linked |
| DoctorService.UpdatePreservesConsistency | src/app/modules/Doctor/doctor.service.ts:111-205 | a doctor update keeps the booking invariant |
| DoctorService.RemovalNeedsScalarFields | src/app/modules/Doctor/doctor.service.ts:112-124 | without scalar fields the unlink list is ignored, even when it names unlinked ids |
| DoctorService.SoftDelete | src/app/modules/Doctor/doctor.service.ts:263-283 | a missing doctor or user fails; otherwise the doctor is marked deleted and the user with the doctor's e-mail becomes DELETED, together, with nothing else changed |
| DoctorService.SoftDeletePreservesConsistency | src/app/modules/Doctor/doctor.service.ts:263-283 | a soft delete keeps the booking invariant, since the doctor row stays |
| DoctorService.SoftDeleteIdempotent | src/app/modules/Doctor/doctor.service.ts:263-283 | deleting twice gives the same store as deleting once |
| DoctorService.GetById | src/app/modules/Doctor/doctor.service.ts:222-243 | the doctor exactly when it exists and is not soft-deleted |
| DoctorService.SoftDeletedDoctorIsHidden | src/app/modules/Doctor/doctor.service.ts:222-227 | after a soft delete the doctor is not found by id |
| DoctorService.SelectDoctors | src/app/modules/Doctor/doctor.service.ts:32-48 | each doctor once, exactly those with a linked specialty whose title is in the list, case-insensitively; every doctor when the list is empty |
| DoctorService.RatingOrder | src/app/modules/Doctor/doctor.service.ts:65-68 | ids sorted by rating key have non-increasing stored average ratings |
| DoctorService.ListDoctors | src/app/modules/Doctor/doctor.service.ts:32-94 | the selected doctors, each once, best average rating first; total counts the same selection |
| ReviewService.RatingsInAgree | src/app/modules/review/review.service.ts:36-43 | a doctor's ratings depend only on the rows scanned |
| ReviewService.InsertAppendsRating | src/app/modules/review/review.service.ts:26-43 | inserting a review appends its rating to its doctor's ratings and leaves other doctors' ratings alone |
| ReviewService.InsertReview | src/app/modules/review/review.service.ts:9-55 | fails without a patient for the caller, without the appointment, or when the appointment is another patient's; a second review of an appointment fails; on success the review copies the appointment's doctor and patient, and the doctor's average becomes the mean of all their ratings, in one step |
| ReviewService.AverageIncludesNewRating | src/app/modules/review/review.service.ts:36-52 | the new average is the mean of the doctor's earlier ratings followed by the new one |
| Seqs.MeanOfAppended | src/app/modules/review/review.service.ts:36-50 | appending a rating to n ratings summing to S moves the mean to (S + rating) / (n + 1) |
| Seqs.SumBounds | src/app/modules/review/review.service.ts:36-43 | n values within [lo, hi] sum to between n·lo and n·hi |
| Seqs.MeanBounds | src/app/modules/review/review.service.ts:36-50 | the mean of values within [lo, hi] lies within [lo, hi] |
| ReviewService.RatingsInBounded | src/app/modules/review/review.service.ts:36-43 | a doctor's ratings stay within bounds that every review's rating keeps |
| ReviewService.AverageWithinBounds | src/app/modules/review/review.service.ts:36-52 | when every rating lies in [lo, hi], so does the recomputed average |
| ReviewService.ReviewPreservesConsistency | src/app/modules/review/review.service.ts:25-54 | adding a review keeps the store consistent |
| ReviewService.OneReviewPerAppointment | src/app/modules/review/review.service.ts:26-34 | a second review of the same appointment fails |
| ReviewService.SelectReviews | src/app/modules/review/review.service.ts:59-79 | each review once, exactly those matching every given e-mail filter; an empty e-mail counts as absent |
| ReviewService.NewestFirst | src/app/modules/review/review.service.ts:85-90 | ids sorted by creation key have non-increasing createdAt |
| ReviewService.ListReviews | src/app/modules/review/review.service.ts:57-99 | the matching reviews, each once, newest first; total counts the same selection |
| ReviewService.NoFilterListsAll | src/app/modules/review/review.service.ts:78-79 | with no filter every review is listed |
| PrescriptionService.FollowUp | src/app/modules/Prescriptions/prescription.service.ts:39 | a missing or empty follow-up date is stored as null, any other is kept |
| PrescriptionService.Selected | src/app/modules/Prescriptions/prescription.service.ts:18-23 | with an id, that appointment exactly when it is COMPLETED; without one, some COMPLETED appointment (the model takes the lowest id), and none only when no appointment is COMPLETED |
| PrescriptionService.CreatePrescription | src/app/modules/Prescriptions/prescription.service.ts:14-45 | fails unless an appointment is selected, and unless the caller of any role has the selected appointment doctor's e-mail; a second prescription for it fails; on success only the new prescription is added, copying the selected appointment's id, doctor and patient |
| PrescriptionService.NoIdPicksFirstCompleted | src/app/modules/Prescriptions/prescription.service.ts:18-37 | a request without an id attaches the prescription to some COMPLETED appointment, the lowest-numbered one in the model |
| PrescriptionService.PaymentStatusIgnored | src/app/modules/Prescriptions/prescription.service.ts:18-23 | the appointment's payment status does not change the outcome, so an UNPAID completed appointment can be prescribed |
| PrescriptionService.PrescriptionPreservesConsistency | src/app/modules/Prescriptions/prescription.service.ts:33-44 | adding a prescription keeps the store consistent |
| PrescriptionService.OnePrescriptionPerAppointment | src/app/modules/Prescriptions/prescription.service.ts:33-44 | repeating a request with the same appointment selection fails |
| PrescriptionService.PatientPrescriptions | src/app/modules/Prescriptions/prescription.service.ts:51-75 | exactly the prescriptions whose patient has the caller's e-mail; total counts the same selection |
| PrescriptionService.PrescriptionVisibleToItsPatient | src/app/modules/Prescriptions/prescription.service.ts:51-56 | a new prescription is listed for a caller exactly when the caller has its patient's e-mail |
| UserService.CreatePatient | src/app/modules/user/user.service.ts:12-33 | an e-mail already used by a user or a patient fails; otherwise the user with the default role and status and the patient profile are both added, and nothing else changes |
| UserService.CreateAdmin | src/app/modules/user/user.service.ts:108-133 | an e-mail already used by a user or an admin fails; otherwise a user with role ADMIN and the admin profile are both added |
| UserService.CreateLinks | src/app/modules/user/user.service.ts:80-86 | the one-link-per-id insert succeeds exactly when the ids are distinct and none is linked yet, and then adds exactly those links |
| UserService.CreateDoctor | src/app/modules/user/user.service.ts:35-106 | a used e-mail fails; any id missing from the catalogue fails, listing those ids, with nothing written; on success the user has role DOCTOR, and there is exactly one new link per requested id, each to the new doctor, and none when none are requested |
| UserService.CreatePatientPreservesConsistency | src/app/modules/user/user.service.ts:19-30 | registering a patient keeps the booking invariant |
| UserService.CreateDoctorPreservesConsistency | src/app/modules/user/user.service.ts:51-103 | registering a doctor keeps the booking invariant |
| UserService.CreateAdminPreservesConsistency | src/app/modules/user/user.service.ts:122-130 | registering an admin keeps the booking invariant |
| UserService.ChangeProfileStatus | src/app/modules/user/user.service.ts:289-305 | an unknown id fails; otherwise only that user's status changes |
| UserService.StatusChangePreservesConsistency | src/app/modules/user/user.service.ts:293-302 | a status change keeps the booking invariant |
| UserService.GetMyProfile | src/app/modules/user/user.service.ts:191-287 | fails unless the caller's user exists and is ACTIVE; the profile comes from the table the stored role names, or is absent when that table has no row with the e-mail |
| UserService.NewPatientSeesOwnProfile | src/app/modules/user/user.service.ts:19-30 | a patient registered with the default ACTIVE PATIENT user reads back that user and patient profile |
| UserService.NewDoctorSeesOwnProfile | src/app/modules/user/user.service.ts:51-103 | a doctor registered as ACTIVE reads back the DOCTOR user and the new doctor profile |
| UserService.NewAdminSeesOwnProfile | src/app/modules/user/user.service.ts:122-130 | an admin registered as ACTIVE reads back the ADMIN user and the new admin profile |
| UserService.StatusGatesProfile | src/app/modules/user/user.service.ts:192-204 | after a status change the user can read their profile exactly when the new status is ACTIVE |
| UserService.SoftDeletedDoctorLosesProfile | src/app/modules/user/user.service.ts:192-204 | after a doctor's soft delete, reading the doctor's profile fails |

## Left out

- HTTP plumbing is not part of this model: controllers, routes, route role gates, cookies and
  response shaping.
- Pagination, `searchTerm`, client-chosen `sortBy`/`sortOrder`, and the dynamic `[key]: equals`
  filters are not modelled. The appointment filters appear only as optional status and payment
  status. Orderings by arbitrary keys are left out. Only the default orders are modelled: rating
  descending for doctors and newest first for reviews.
- Ties in the default orders are not modelled. The model sorts stably by insertion; the database
  leaves tied rows in no particular order.
- The DoctorSchedule service is not part of this model. Doctor-slot bindings are taken as they
  are in the store.
- The Prisma schema is not part of this model. Its defaults and constraints are a `Db.Schema`
  parameter: appointment status and payment status, user role and status, the initial average
  rating, and whether a payment's transaction id is unique. The uniqueness of e-mails and of an
  appointment's review and prescription are read from the code's `findUnique` lookups and
  one-to-one relations. Referential actions are assumed not to fire: deleting an appointment
  changes no other row than the service code deletes or updates itself, so a binding's
  `appointmentId` is never cleared by a cascade or SetNull.
- Password hashing, photo upload, the AI doctor suggestion, the Stripe block, and `uuidv4()` are
  foreign calls. The fresh video-call token is a parameter.
- Concurrency is left out. The booking guard runs outside the transaction, so two concurrent
  bookings can race. Only sequential calls are modelled.
- Date parsing and time zones are left out. Days are indices and times are minutes. The local
  clock reading behind a transaction id is a separate parameter, not derived from the millisecond
  timestamp.
- Other operations in the same files are not modelled: user listing (`getAllFromDb`),
  `updateMyProfile`, the hard `deleteFromDB` of a doctor, `getAiSuggestions`, and the doctor
  listing's search term.
- Profile rows carry only the columns the modelled rules read: e-mail, name, fee, experience,
  average rating and `isDeleted`.
- The doctor update's patch (`DoctorService.DoctorPatch`): name, fee and experience stand for any non-empty set of doctor
  columns in the update payload. Any such key (address, contact number, qualification, …) also
  switches on the unlink step.
- Integers are unbounded. Fees and experience are never combined arithmetically, so integer
  width does not matter.
- UserService.CreateDoctor: success is promised only when links already refer to existing
  doctors (`UserService.LinksReferenceDoctors`, the link's foreign key). The model does not
  enforce foreign keys, so a stale link on the new doctor's id would make `createMany` fail.
- Seqs.Lower: case-insensitive matching folds ASCII letters only. The database's collation is
  not modelled.
- AppointmentService.UpdateAppointmentStatus: a DOCTOR caller on an appointment whose doctor row
  is missing gets `NotYourAppointment`. The code would fail on the null doctor instead; either
  way nothing is written.
- PrescriptionService.CreatePrescription: an appointment whose doctor row is missing gives
  `NotFound(DoctorRow)`. The code would fail on the null doctor instead; either way nothing is
  written.
- PrescriptionService.Selected: without an appointment id, the model picks the lowest-numbered
  COMPLETED appointment. The database returns an unspecified COMPLETED row, since the lookup has
  no ordering and ids are uuids.
- PrescriptionService.NoIdPicksFirstCompleted: the lowest-id part describes the model's choice,
  not a guarantee of the database, for the reason given for `PrescriptionService.Selected`.
- ReviewService.InsertReview: an appointment whose doctor row is missing gives
  `NotFound(DoctorRow)`. The code would fail on the null doctor inside the transaction instead;
  either way nothing is written.
