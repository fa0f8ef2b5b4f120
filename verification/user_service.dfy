/** Accounts: registering patients, doctors and admins (a user row and a profile row written
    together), changing a user's status, and reading one's own profile
    (src/app/modules/user/user.service.ts).

    A user's e-mail is a unique column, and so is each profile table's: the service looks rows up
    with `findUnique({ where: { email } })`. Profiles are tied to their user by that e-mail. The
    profile row passed to a create is the payload as stored, schema defaults included; password
    hashing and photo upload are not modelled. */
module UserService {
  import opened Wrappers
  import opened Tables
  import opened Seqs
  import opened Db
  import DoctorService

  datatype Registered = Registered(store: Store, userId: nat, profileId: nat)

  function DoctorByEmail(s: Store, email: string): (r: Option<nat>)
    ensures r.Some? ==> DoctorHasEmail(s, r.value, email)
    ensures r.None? <==> forall k :: k in s.doctors.rows ==> s.doctors.rows[k].email != email
  {
    Find(s.doctors, (d: Doctor) => d.email == email)
  }

  function AdminByEmail(s: Store, email: string): (r: Option<nat>)
    ensures r.Some? ==> r.value in s.admins.rows && s.admins.rows[r.value].email == email
    ensures r.None? <==> forall k :: k in s.admins.rows ==> s.admins.rows[k].email != email
  {
    Find(s.admins, (a: Admin) => a.email == email)
  }

  // ---------------------------------------------------------------- registration

  /** `createPatient`: a user with the schema's default role and status, and the patient profile. */
  function CreatePatient(s: Store, schema: Schema, patient: Patient): (r: Result<Registered>)
    ensures UserByEmail(s, patient.email).Some? ==> r == Err(UniqueViolation(UserRow))
    ensures UserByEmail(s, patient.email).None? && PatientByEmail(s, patient.email).Some?
      ==> r == Err(UniqueViolation(PatientRow))
    ensures r.Ok? <==> UserByEmail(s, patient.email).None? && PatientByEmail(s, patient.email).None?
    ensures r.Ok? ==>
      var t := r.value.store;
      && r.value.userId !in s.users.rows
      && t.users.rows == s.users.rows[r.value.userId := User(patient.email, schema.userRole, schema.userStatus)]
      && r.value.profileId !in s.patients.rows
      && t.patients.rows == s.patients.rows[r.value.profileId := patient]
      && t == s.(users := t.users, patients := t.patients)
  {
    if UserByEmail(s, patient.email).Some? then Err(UniqueViolation(UserRow))
    else if PatientByEmail(s, patient.email).Some? then Err(UniqueViolation(PatientRow))
    else
      var (users, userId) := Insert(s.users, User(patient.email, schema.userRole, schema.userStatus));
      var (patients, patientId) := Insert(s.patients, patient);
      Ok(Registered(s.(users := users, patients := patients), userId, patientId))
  }

  /** `createAdmin`: a user with role ADMIN and the admin profile. */
  function CreateAdmin(s: Store, schema: Schema, admin: Admin): (r: Result<Registered>)
    ensures UserByEmail(s, admin.email).Some? ==> r == Err(UniqueViolation(UserRow))
    ensures UserByEmail(s, admin.email).None? && AdminByEmail(s, admin.email).Some?
      ==> r == Err(UniqueViolation(AdminRow))
    ensures r.Ok? <==> UserByEmail(s, admin.email).None? && AdminByEmail(s, admin.email).None?
    ensures r.Ok? ==>
      var t := r.value.store;
      && r.value.userId !in s.users.rows
      && t.users.rows == s.users.rows[r.value.userId := User(admin.email, AdminRole, schema.userStatus)]
      && r.value.profileId !in s.admins.rows
      && t.admins.rows == s.admins.rows[r.value.profileId := admin]
      && t == s.(users := t.users, admins := t.admins)
  {
    if UserByEmail(s, admin.email).Some? then Err(UniqueViolation(UserRow))
    else if AdminByEmail(s, admin.email).Some? then Err(UniqueViolation(AdminRow))
    else
      var (users, userId) := Insert(s.users, User(admin.email, AdminRole, schema.userStatus));
      var (admins, adminId) := Insert(s.admins, admin);
      Ok(Registered(s.(users := users, admins := admins), userId, adminId))
  }

  /** `createMany` of one link per id for doctor `d`: a pair listed twice, or already present,
      breaks the link's primary key and nothing is written. */
  function CreateLinks(links: set<SpecialtyLink>, d: nat, ids: seq<nat>): (r: Result<set<SpecialtyLink>>)
    ensures r.Ok? <==> Distinct(ids) && forall i :: i in ids ==> SpecialtyLink(d, i) !in links
    ensures r.Err? ==> r.error == UniqueViolation(DoctorSpecialtyRow)
    ensures r.Ok? ==> forall l :: l in r.value <==> l in links || (l.doctorId == d && l.specialtyId in ids)
  {
    if Distinct(ids) && forall i :: i in ids ==> SpecialtyLink(d, i) !in links then
      Ok(links + set i | i in ids :: SpecialtyLink(d, i))
    else Err(UniqueViolation(DoctorSpecialtyRow))
  }

  /** Links refer to existing doctors (the link's foreign key). */
  ghost predicate LinksReferenceDoctors(s: Store) {
    forall l :: l in s.doctorSpecialties ==> l.doctorId in s.doctors.rows
  }

  /** `createDoctor`: a user with role DOCTOR, the doctor profile and, when specialty ids are given,
      one link from the new doctor to each, all in one transaction. Ids missing from the catalogue
      abort it with the list of those ids. */
  function CreateDoctor(s: Store, schema: Schema, doctor: Doctor, specialties: seq<nat>): (r: Result<Registered>)
    ensures UserByEmail(s, doctor.email).Some? ==> r == Err(UniqueViolation(UserRow))
    ensures UserByEmail(s, doctor.email).None? && DoctorByEmail(s, doctor.email).Some?
      ==> r == Err(UniqueViolation(DoctorRow))
    ensures (UserByEmail(s, doctor.email).None? && DoctorByEmail(s, doctor.email).None?
             && exists i :: i in specialties && i !in s.specialties.rows)
      ==> r == Err(InvalidSpecialties(Filter(specialties, (i: nat) => i !in s.specialties.rows)))
    ensures (UserByEmail(s, doctor.email).None? && DoctorByEmail(s, doctor.email).None?
             && (forall i :: i in specialties ==> i in s.specialties.rows) && !Distinct(specialties))
      ==> r == Err(UniqueViolation(DoctorSpecialtyRow))
    ensures r.Ok? ==>
      && UserByEmail(s, doctor.email).None? && DoctorByEmail(s, doctor.email).None?
      && (forall i :: i in specialties ==> i in s.specialties.rows)
      && Distinct(specialties)
    ensures (LinksReferenceDoctors(s) && UserByEmail(s, doctor.email).None? && DoctorByEmail(s, doctor.email).None?
             && (forall i :: i in specialties ==> i in s.specialties.rows) && Distinct(specialties))
      ==> r.Ok?
    ensures r.Ok? ==>
      var t := r.value.store;
      var d := r.value.profileId;
      && r.value.userId !in s.users.rows
      && t.users.rows == s.users.rows[r.value.userId := User(doctor.email, DoctorRole, schema.userStatus)]
      && d !in s.doctors.rows
      && t.doctors.rows == s.doctors.rows[d := doctor]
      && (forall l :: l in t.doctorSpecialties <==> l in s.doctorSpecialties || (l.doctorId == d && l.specialtyId in specialties))
      && (forall i :: i in specialties ==> SpecialtyLink(d, i) !in s.doctorSpecialties)
      && (specialties == [] ==> t.doctorSpecialties == s.doctorSpecialties)
      && t == s.(users := t.users, doctors := t.doctors, doctorSpecialties := t.doctorSpecialties)
  {
    if UserByEmail(s, doctor.email).Some? then Err(UniqueViolation(UserRow))
    else if DoctorByEmail(s, doctor.email).Some? then Err(UniqueViolation(DoctorRow))
    else
      var (users, userId) := Insert(s.users, User(doctor.email, DoctorRole, schema.userStatus));
      var (doctors, doctorId) := Insert(s.doctors, doctor);
      if |specialties| == 0 then
        Ok(Registered(s.(users := users, doctors := doctors), userId, doctorId))
      else
        var invalid := Filter(specialties, (i: nat) => i !in s.specialties.rows);
        if |invalid| > 0 then
          assert invalid[0] in invalid;
          Err(InvalidSpecialties(invalid))
        else
          var links :- CreateLinks(s.doctorSpecialties, doctorId, specialties);
          Ok(Registered(s.(users := users, doctors := doctors, doctorSpecialties := links), userId, doctorId))
  }

  // ---------------------------------------------------------------- status and profile

  /** `changedProfileStatus`: an unknown user id fails; otherwise only the user's status changes. */
  function ChangeProfileStatus(s: Store, id: nat, status: UserStatus): (r: Result<Store>)
    ensures id !in s.users.rows ==> r == Err(NotFound(UserRow))
    ensures r.Ok? <==> id in s.users.rows
    ensures r.Ok? ==>
      && r.value.users.rows.Keys == s.users.rows.Keys
      && r.value.users.rows[id].status == status
      && r.value.users.rows[id].email == s.users.rows[id].email
      && r.value.users.rows[id].role == s.users.rows[id].role
      && (forall k :: k in s.users.rows && k != id ==> r.value.users.rows[k] == s.users.rows[k])
      && r.value == s.(users := r.value.users)
  {
    if id !in s.users.rows then Err(NotFound(UserRow))
    else Ok(s.(users := Put(s.users, id, s.users.rows[id].(status := status))))
  }

  /** The profile row `getMyProfile` attaches, chosen by the user's role; `NoProfile` when the
      profile table has no row with the e-mail. */
  datatype ProfileRow =
    | PatientProfile(patientId: nat, patient: Patient)
    | DoctorProfile(doctorId: nat, doctor: Doctor)
    | AdminProfile(adminId: nat, admin: Admin)
    | NoProfile

  datatype MyProfile = MyProfile(userId: nat, user: User, profile: ProfileRow)

  /** `getMyProfile`: the caller's user row, which must be ACTIVE, and the profile of the table the
      stored role names (the token's role plays no part). */
  function GetMyProfile(s: Store, caller: Caller): (r: Result<MyProfile>)
    ensures r.Ok? <==> UserByEmail(s, caller.email).Some? && s.users.rows[UserByEmail(s, caller.email).value].status == Active
    ensures r.Err? ==> r.error == NotFound(UserRow)
    ensures r.Ok? ==>
      && r.value.userId in s.users.rows
      && r.value.user == s.users.rows[r.value.userId]
      && r.value.user.email == caller.email
    ensures r.Ok? && r.value.user.role == PatientRole ==>
      match r.value.profile
      case PatientProfile(p, row) => p in s.patients.rows && row == s.patients.rows[p] && row.email == caller.email
      case NoProfile => PatientByEmail(s, caller.email).None?
      case _ => false
    ensures r.Ok? && r.value.user.role == DoctorRole ==>
      match r.value.profile
      case DoctorProfile(d, row) => d in s.doctors.rows && row == s.doctors.rows[d] && row.email == caller.email
      case NoProfile => DoctorByEmail(s, caller.email).None?
      case _ => false
    ensures r.Ok? && r.value.user.role == AdminRole ==>
      match r.value.profile
      case AdminProfile(a, row) => a in s.admins.rows && row == s.admins.rows[a] && row.email == caller.email
      case NoProfile => AdminByEmail(s, caller.email).None?
      case _ => false
  {
    match UserByEmail(s, caller.email)
    case None => Err(NotFound(UserRow))
    case Some(u) =>
      var user := s.users.rows[u];
      if user.status != Active then Err(NotFound(UserRow))
      else
        var profile :=
          match user.role
          case PatientRole =>
            (match PatientByEmail(s, user.email)
             case Some(p) => PatientProfile(p, s.patients.rows[p])
             case None => NoProfile)
          case DoctorRole =>
            (match DoctorByEmail(s, user.email)
             case Some(d) => DoctorProfile(d, s.doctors.rows[d])
             case None => NoProfile)
          case AdminRole =>
            (match AdminByEmail(s, user.email)
             case Some(a) => AdminProfile(a, s.admins.rows[a])
             case None => NoProfile);
        Ok(MyProfile(u, user, profile))
  }

  // ---------------------------------------------------------------- how the operations meet

  /** A newly registered patient, with the default ACTIVE PATIENT user, reads back their own profile. */
  lemma NewPatientSeesOwnProfile(s: Store, patient: Patient, role: UserRole)
    requires CreatePatient(s, ExpectedSchema, patient).Ok?
    ensures var b := CreatePatient(s, ExpectedSchema, patient).value;
      GetMyProfile(b.store, Caller(patient.email, role))
      == Ok(MyProfile(b.userId, User(patient.email, PatientRole, Active), PatientProfile(b.profileId, patient)))
  {
    var b := CreatePatient(s, ExpectedSchema, patient).value;
    FindOnlyMatch(b.store.users, (u: User) => u.email == patient.email, b.userId);
    FindOnlyMatch(b.store.patients, (p: Patient) => p.email == patient.email, b.profileId);
    assert UserByEmail(b.store, patient.email) == Some(b.userId);
    assert PatientByEmail(b.store, patient.email) == Some(b.profileId);
  }

  /** A newly registered doctor, once ACTIVE by default, reads back their own profile. */
  lemma NewDoctorSeesOwnProfile(s: Store, schema: Schema, doctor: Doctor, specialties: seq<nat>, role: UserRole)
    requires schema.userStatus == Active
    requires CreateDoctor(s, schema, doctor, specialties).Ok?
    ensures var b := CreateDoctor(s, schema, doctor, specialties).value;
      GetMyProfile(b.store, Caller(doctor.email, role))
      == Ok(MyProfile(b.userId, User(doctor.email, DoctorRole, Active), DoctorProfile(b.profileId, doctor)))
  {
    var b := CreateDoctor(s, schema, doctor, specialties).value;
    FindOnlyMatch(b.store.users, (u: User) => u.email == doctor.email, b.userId);
    FindOnlyMatch(b.store.doctors, (d: Doctor) => d.email == doctor.email, b.profileId);
    assert UserByEmail(b.store, doctor.email) == Some(b.userId);
    assert DoctorByEmail(b.store, doctor.email) == Some(b.profileId);
  }

  /** A newly registered admin, once ACTIVE by default, reads back their own profile. */
  lemma NewAdminSeesOwnProfile(s: Store, schema: Schema, admin: Admin, role: UserRole)
    requires schema.userStatus == Active
    requires CreateAdmin(s, schema, admin).Ok?
    ensures var b := CreateAdmin(s, schema, admin).value;
      GetMyProfile(b.store, Caller(admin.email, role))
      == Ok(MyProfile(b.userId, User(admin.email, AdminRole, Active), AdminProfile(b.profileId, admin)))
  {
    var b := CreateAdmin(s, schema, admin).value;
    FindOnlyMatch(b.store.users, (u: User) => u.email == admin.email, b.userId);
    FindOnlyMatch(b.store.admins, (a: Admin) => a.email == admin.email, b.profileId);
    assert UserByEmail(b.store, admin.email) == Some(b.userId);
    assert AdminByEmail(b.store, admin.email) == Some(b.profileId);
  }

  /** After a status change, the user can read their profile exactly when the new status is ACTIVE. */
  lemma StatusGatesProfile(s: Store, id: nat, status: UserStatus, caller: Caller)
    requires id in s.users.rows
    requires UserByEmail(s, caller.email) == Some(id)
    ensures GetMyProfile(ChangeProfileStatus(s, id, status).value, caller).Ok? <==> status == Active
  {
    var t := ChangeProfileStatus(s, id, status).value;
    FindSameKeys(s.users, t.users, (u: User) => u.email == caller.email);
  }

  /** A soft-deleted doctor's user is DELETED, so the doctor can no longer read a profile. */
  lemma SoftDeletedDoctorLosesProfile(s: Store, id: nat, caller: Caller)
    requires DoctorService.SoftDelete(s, id).Ok?
    requires caller.email == s.doctors.rows[id].email
    ensures GetMyProfile(DoctorService.SoftDelete(s, id).value, caller) == Err(NotFound(UserRow))
  {
    var t := DoctorService.SoftDelete(s, id).value;
    FindSameKeys(s.users, t.users, (u: User) => u.email == caller.email);
  }

  // ---------------------------------------------------------------- the booking invariant

  /** Registering a patient only adds rows no appointment refers to. */
  lemma CreatePatientPreservesConsistency(s: Store, schema: Schema, patient: Patient)
    requires Consistent(s)
    requires CreatePatient(s, schema, patient).Ok?
    ensures Consistent(CreatePatient(s, schema, patient).value.store)
  {
  }

  /** Registering a doctor only adds rows and links no appointment refers to. */
  lemma CreateDoctorPreservesConsistency(s: Store, schema: Schema, doctor: Doctor, specialties: seq<nat>)
    requires Consistent(s)
    requires CreateDoctor(s, schema, doctor, specialties).Ok?
    ensures Consistent(CreateDoctor(s, schema, doctor, specialties).value.store)
  {
  }

  /** Registering an admin does not touch the booking tables. */
  lemma CreateAdminPreservesConsistency(s: Store, schema: Schema, admin: Admin)
    requires Consistent(s)
    requires CreateAdmin(s, schema, admin).Ok?
    ensures Consistent(CreateAdmin(s, schema, admin).value.store)
  {
  }

  /** A status change rewrites one user row, which the booking invariant does not mention. */
  lemma StatusChangePreservesConsistency(s: Store, id: nat, status: UserStatus)
    requires Consistent(s)
    requires ChangeProfileStatus(s, id, status).Ok?
    ensures Consistent(ChangeProfileStatus(s, id, status).value)
  {
  }
}
