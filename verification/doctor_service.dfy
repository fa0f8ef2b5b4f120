/** Doctor profile maintenance: the specialty add/remove update, soft deletion, lookup by id and
    the listing's specialty filter and default order (src/app/modules/Doctor/doctor.service.ts).

    For one doctor, link rows and specialty ids correspond one to one, since the pair
    `(doctorId, specialitiesId)` is the link's primary key; a `findMany` over one doctor's links
    therefore returns one row per linked id. */
module DoctorService {
  import opened Wrappers
  import opened Tables
  import opened Seqs
  import opened Db

  // ---------------------------------------------------------------- unlinking specialties

  /** The ids in `ids` that are linked to doctor `d`: the rows the removal's `findMany` returns. */
  function FoundLinked(links: set<SpecialtyLink>, d: nat, ids: seq<nat>): (r: set<nat>)
    ensures forall i :: i in r <==> i in ids && SpecialtyLink(d, i) in links
  {
    set i | i in ids && SpecialtyLink(d, i) in links
  }

  /** The removal's count check passes exactly when every listed id is linked and none is listed twice. */
  lemma RemovalCountCheck(links: set<SpecialtyLink>, d: nat, ids: seq<nat>)
    ensures |FoundLinked(links, d, ids)| == |ids| <==>
      Distinct(ids) && forall i :: i in ids ==> SpecialtyLink(d, i) in links
  {
    var found := FoundLinked(links, d, ids);
    ToSetCardinality(ids);
    assert found <= ToSet(ids);
    assert |found| <= |ToSet(ids)| by {
      assert ToSet(ids) == found + (ToSet(ids) - found);
    }
    if |found| == |ids| {
      SubsetSameSize(found, ToSet(ids));
    }
    if Distinct(ids) && forall i :: i in ids ==> SpecialtyLink(d, i) in links {
      assert found == ToSet(ids);
    }
  }

  /** `removeSpecialties`: fails listing the ids not linked when the found count differs from the
      list's length; otherwise deletes the doctor's links to the listed ids. */
  function RemoveLinks(links: set<SpecialtyLink>, d: nat, ids: seq<nat>): (r: Result<set<SpecialtyLink>>)
    ensures r.Ok? <==> Distinct(ids) && forall i :: i in ids ==> SpecialtyLink(d, i) in links
    ensures r.Err? ==> r.error == NonexistentSpecialties(Filter(ids, (i: nat) => SpecialtyLink(d, i) !in links))
    ensures r.Ok? ==> forall l :: l in r.value <==> l in links && !(l.doctorId == d && l.specialtyId in ids)
  {
    var found := FoundLinked(links, d, ids);
    RemovalCountCheck(links, d, ids);
    FilterCongruent(ids, (i: nat) => i !in found, (i: nat) => SpecialtyLink(d, i) !in links);
    if |found| != |ids| then Err(NonexistentSpecialties(Filter(ids, (i: nat) => i !in found)))
    else Ok(set l | l in links && !(l.doctorId == d && l.specialtyId in ids))
  }

  /** A listed id that is linked twice over still fails: duplicates are rejected. */
  lemma DuplicateRemovalFails(links: set<SpecialtyLink>, d: nat, i: nat)
    requires SpecialtyLink(d, i) in links
    ensures RemoveLinks(links, d, [i, i]).Err?
  {
    assert !Distinct([i, i]) by {
      assert [i, i][0] == [i, i][1];
    }
  }

  // ---------------------------------------------------------------- linking specialties

  /** `specialties`: fails listing the ids missing from the catalogue; otherwise links the ids not
      linked yet with one `createMany`, which the link's primary key rejects when an unlinked id is
      listed twice. */
  function AddLinks(s: Store, links: set<SpecialtyLink>, d: nat, ids: seq<nat>): (r: Result<set<SpecialtyLink>>)
    ensures (exists i :: i in ids && i !in s.specialties.rows) ==>
      r == Err(InvalidSpecialties(Filter(ids, (i: nat) => i !in s.specialties.rows)))
    ensures (forall i :: i in ids ==> i in s.specialties.rows) ==>
      (r.Ok? <==> Distinct(Filter(ids, (i: nat) => SpecialtyLink(d, i) !in links)))
    ensures r.Err? ==> r.error == InvalidSpecialties(Filter(ids, (i: nat) => i !in s.specialties.rows))
                       || r.error == UniqueViolation(DoctorSpecialtyRow)
    ensures r.Ok? ==> forall l :: l in r.value <==> l in links || (l.doctorId == d && l.specialtyId in ids)
  {
    if |ids| == 0 then Ok(links)
    else
      var invalid := Filter(ids, (i: nat) => i !in s.specialties.rows);
      if |invalid| > 0 then
        assert invalid[0] in invalid;
        Err(InvalidSpecialties(invalid))
      else
        var current := FoundLinked(links, d, ids);
        var unlinked := Filter(ids, (i: nat) => i !in current);
        FilterCongruent(ids, (i: nat) => i !in current, (i: nat) => SpecialtyLink(d, i) !in links);
        if |unlinked| == 0 then Ok(links)
        else if !Distinct(unlinked) then Err(UniqueViolation(DoctorSpecialtyRow))
        else Ok(links + set i | i in unlinked :: SpecialtyLink(d, i))
  }

  /** Linking specialties that are all linked already changes nothing: no duplicate link appears. */
  lemma ReAddIsNoop(s: Store, links: set<SpecialtyLink>, d: nat, ids: seq<nat>)
    requires forall i :: i in ids ==> i in s.specialties.rows && SpecialtyLink(d, i) in links
    ensures AddLinks(s, links, d, ids) == Ok(links)
  {
    var r := AddLinks(s, links, d, ids);
    FilterNone(ids, (i: nat) => SpecialtyLink(d, i) !in links);
    assert r.Ok?;
    assert r.value == links;
  }

  // ---------------------------------------------------------------- the update

  /** The doctor columns an update may carry; an absent field is left as it is. */
  datatype DoctorPatch = DoctorPatch(name: Option<string>, appointmentFee: Option<int>, experience: Option<int>)

  /** The request: scalar fields plus the specialty ids to link and to unlink. */
  datatype DoctorUpdate = DoctorUpdate(patch: DoctorPatch, specialties: seq<nat>, removeSpecialties: seq<nat>)

  predicate HasScalarFields(p: DoctorPatch) {
    p.name.Some? || p.appointmentFee.Some? || p.experience.Some?
  }

  function ApplyPatch(doc: Doctor, p: DoctorPatch): (r: Doctor)
    ensures r.email == doc.email && r.averageRating == doc.averageRating && r.isDeleted == doc.isDeleted
    ensures r.name == (if p.name.Some? then p.name.value else doc.name)
    ensures r.appointmentFee == (if p.appointmentFee.Some? then p.appointmentFee.value else doc.appointmentFee)
    ensures r.experience == (if p.experience.Some? then p.experience.value else doc.experience)
  {
    doc.(name := if p.name.Some? then p.name.value else doc.name,
         appointmentFee := if p.appointmentFee.Some? then p.appointmentFee.value else doc.appointmentFee,
         experience := if p.experience.Some? then p.experience.value else doc.experience)
  }

  /** Whether the doctor still has the link to specialty `i` once the unlink step has run: it ran
      only when scalar fields were given. */
  predicate LinkedAfterRemoval(s: Store, id: nat, u: DoctorUpdate, i: nat) {
    SpecialtyLink(id, i) in s.doctorSpecialties && !(HasScalarFields(u.patch) && i in u.removeSpecialties)
  }

  /** `updateDoctorInfoDb`: a live doctor's scalar fields are updated and, only alongside them,
      specialties unlinked; then specialties are linked. The whole update is one transaction. */
  function UpdateDoctorInfo(s: Store, id: nat, u: DoctorUpdate): (r: Result<Store>)
    ensures (id !in s.doctors.rows || s.doctors.rows[id].isDeleted) ==> r == Err(NotFound(DoctorRow))
    // unlinking is attempted only when some scalar field is present
    ensures (id in s.doctors.rows && !s.doctors.rows[id].isDeleted && HasScalarFields(u.patch)
             && |u.removeSpecialties| > 0
             && !(Distinct(u.removeSpecialties)
                  && forall i :: i in u.removeSpecialties ==> SpecialtyLink(id, i) in s.doctorSpecialties))
      ==> r.Err? && r.error.NonexistentSpecialties?
    // success happens exactly when the doctor is live, the unlink step (if it runs) passes its
    // count check, every id to link is in the catalogue, and the ids still unlinked are distinct
    ensures r.Ok? <==>
      && id in s.doctors.rows && !s.doctors.rows[id].isDeleted
      && (HasScalarFields(u.patch) && |u.removeSpecialties| > 0 ==>
            Distinct(u.removeSpecialties)
            && forall i :: i in u.removeSpecialties ==> SpecialtyLink(id, i) in s.doctorSpecialties)
      && (forall i :: i in u.specialties ==> i in s.specialties.rows)
      && Distinct(Filter(u.specialties, (i: nat) => !LinkedAfterRemoval(s, id, u, i)))
    ensures r.Ok? ==>
      && id in s.doctors.rows && !s.doctors.rows[id].isDeleted
      && (forall i :: i in u.specialties ==> i in s.specialties.rows)
      && r.value.doctors.rows == s.doctors.rows[id := if HasScalarFields(u.patch) then ApplyPatch(s.doctors.rows[id], u.patch)
                                                   else s.doctors.rows[id]]
      && (forall l :: l in r.value.doctorSpecialties <==>
            (l in s.doctorSpecialties
             && !(HasScalarFields(u.patch) && l.doctorId == id && l.specialtyId in u.removeSpecialties))
            || (l.doctorId == id && l.specialtyId in u.specialties))
      && r.value == s.(doctors := r.value.doctors, doctorSpecialties := r.value.doctorSpecialties)
  {
    if id !in s.doctors.rows || s.doctors.rows[id].isDeleted then Err(NotFound(DoctorRow))
    else
      var doctors := if HasScalarFields(u.patch) then Put(s.doctors, id, ApplyPatch(s.doctors.rows[id], u.patch)) else s.doctors;
      var afterRemoval :- if HasScalarFields(u.patch) && |u.removeSpecialties| > 0
                          then RemoveLinks(s.doctorSpecialties, id, u.removeSpecialties)
                          else Ok(s.doctorSpecialties);
      FilterCongruent(u.specialties, (i: nat) => SpecialtyLink(id, i) !in afterRemoval,
                      (i: nat) => !LinkedAfterRemoval(s, id, u, i));
      var afterAddition :- AddLinks(s, afterRemoval, id, u.specialties);
      Ok(s.(doctors := doctors, doctorSpecialties := afterAddition))
  }

  /** Without scalar fields the unlink list is ignored, even when it names unlinked ids. */
  lemma RemovalNeedsScalarFields(s: Store, id: nat, ids: seq<nat>)
    requires id in s.doctors.rows && !s.doctors.rows[id].isDeleted
    ensures UpdateDoctorInfo(s, id, DoctorUpdate(DoctorPatch(None, None, None), [], ids)) == Ok(s)
  {
    var r := UpdateDoctorInfo(s, id, DoctorUpdate(DoctorPatch(None, None, None), [], ids));
    assert r.Ok?;
    assert r.value.doctorSpecialties == s.doctorSpecialties;
    assert r.value.doctors.rows == s.doctors.rows;
  }

  // ---------------------------------------------------------------- deletion and lookup

  /** `softDelete`: marks the doctor deleted and the user with the doctor's e-mail DELETED,
      together; either update failing on a missing row rolls both back. */
  function SoftDelete(s: Store, id: nat): (r: Result<Store>)
    ensures id !in s.doctors.rows ==> r == Err(NotFound(DoctorRow))
    ensures id in s.doctors.rows && UserByEmail(s, s.doctors.rows[id].email).None? ==> r == Err(NotFound(UserRow))
    ensures r.Ok? <==> id in s.doctors.rows && UserByEmail(s, s.doctors.rows[id].email).Some?
    ensures r.Ok? ==>
      var u := UserByEmail(s, s.doctors.rows[id].email).value;
      && r.value.doctors.rows == s.doctors.rows[id := s.doctors.rows[id].(isDeleted := true)]
      && r.value.users.rows == s.users.rows[u := s.users.rows[u].(status := Deleted)]
      && r.value == s.(doctors := r.value.doctors, users := r.value.users)
  {
    if id !in s.doctors.rows then Err(NotFound(DoctorRow))
    else
      var doc := s.doctors.rows[id];
      match UserByEmail(s, doc.email)
      case None => Err(NotFound(UserRow))
      case Some(u) =>
        Ok(s.(doctors := Put(s.doctors, id, doc.(isDeleted := true)),
              users := Put(s.users, u, s.users.rows[u].(status := Deleted))))
  }

  /** Soft deletion does not re-check `isDeleted`: deleting twice is the same as deleting once. */
  lemma SoftDeleteIdempotent(s: Store, id: nat)
    requires SoftDelete(s, id).Ok?
    ensures SoftDelete(SoftDelete(s, id).value, id) == SoftDelete(s, id)
  {
    var doc := s.doctors.rows[id];
    var u := UserByEmail(s, doc.email).value;
    var t := SoftDelete(s, id).value;
    assert t == s.(doctors := Put(s.doctors, id, doc.(isDeleted := true)),
                   users := Put(s.users, u, s.users.rows[u].(status := Deleted)));
    assert UserByEmail(t, doc.email) == UserByEmail(s, doc.email) by {
      FindSameKeys(s.users, t.users, (x: User) => x.email == doc.email);
    }
    assert Put(t.doctors, id, t.doctors.rows[id].(isDeleted := true)) == t.doctors;
    assert Put(t.users, u, t.users.rows[u].(status := Deleted)) == t.users;
  }

  /** Doctor updates touch neither appointments nor the doctor keys they reference, so the booking
      invariant survives them. */
  lemma UpdatePreservesConsistency(s: Store, id: nat, u: DoctorUpdate)
    requires Consistent(s)
    requires UpdateDoctorInfo(s, id, u).Ok?
    ensures Consistent(UpdateDoctorInfo(s, id, u).value)
  {
  }

  /** A soft delete keeps the doctor's row, so appointments still reference an existing doctor. */
  lemma SoftDeletePreservesConsistency(s: Store, id: nat)
    requires Consistent(s)
    requires SoftDelete(s, id).Ok?
    ensures Consistent(SoftDelete(s, id).value)
  {
  }

  /** `getByIdFromDB`: the doctor, unless missing or soft-deleted. */
  function GetById(s: Store, id: nat): (r: Option<Doctor>)
    ensures r.Some? <==> id in s.doctors.rows && !s.doctors.rows[id].isDeleted
    ensures r.Some? ==> r.value == s.doctors.rows[id]
  {
    if id in s.doctors.rows && !s.doctors.rows[id].isDeleted then Some(s.doctors.rows[id]) else None
  }

  /** After a soft delete the doctor is no longer found by id. */
  lemma SoftDeletedDoctorIsHidden(s: Store, id: nat)
    requires SoftDelete(s, id).Ok?
    ensures GetById(SoftDelete(s, id).value, id).None?
  {
  }

  // ---------------------------------------------------------------- listing

  /** Some specialty linked to the doctor has a title in `titles`, compared case-insensitively. */
  predicate HasSpecialtyTitled(s: Store, id: nat, titles: seq<string>) {
    exists l :: l in s.doctorSpecialties && l.doctorId == id && l.specialtyId in s.specialties.rows
      && InInsensitive(s.specialties.rows[l.specialtyId].title, titles)
  }

  function Rating(s: Store): nat -> real {
    (id: nat) => if id in s.doctors.rows then s.doctors.rows[id].averageRating else 0.0
  }

  predicate MatchesTitles(s: Store, id: nat, titles: seq<string>) {
    |titles| > 0 ==> HasSpecialtyTitled(s, id, titles)
  }

  /** The rows the listing's `where` clause selects, each once. */
  function SelectDoctors(s: Store, titles: seq<string>): (r: seq<nat>)
    ensures forall id :: id in r <==> id in s.doctors.rows && MatchesTitles(s, id, titles)
    ensures Distinct(r)
  {
    var all := Ids(s.doctors);
    assert Distinct(all);
    FilterDistinct(all, (id: nat) => MatchesTitles(s, id, titles));
    Filter(all, (id: nat) => MatchesTitles(s, id, titles))
  }

  /** In a sequence of doctor ids sorted by `Rating`, the stored average ratings do not increase. */
  lemma RatingOrder(s: Store, ids: seq<nat>)
    requires SortedDesc(ids, Rating(s))
    requires forall id :: id in ids ==> id in s.doctors.rows
    ensures forall i, j :: 0 <= i < j < |ids| ==>
      ids[i] in s.doctors.rows && ids[j] in s.doctors.rows
      && s.doctors.rows[ids[i]].averageRating >= s.doctors.rows[ids[j]].averageRating
  {
    forall i, j | 0 <= i < j < |ids|
      ensures ids[i] in s.doctors.rows && ids[j] in s.doctors.rows
      ensures s.doctors.rows[ids[i]].averageRating >= s.doctors.rows[ids[j]].averageRating
    {
      assert ids[i] in ids && ids[j] in ids;
      assert Rating(s)(ids[i]) >= Rating(s)(ids[j]);
    }
  }

  /** `getAllFromDB` with the specialty filter and the default order: the doctors with a specialty
      titled as one of `titles` (all doctors when `titles` is empty), best average rating first.
      The listing does not exclude soft-deleted doctors. */
  function ListDoctors(s: Store, titles: seq<string>): (r: Page)
    ensures forall id :: id in r.ids <==> id in s.doctors.rows && MatchesTitles(s, id, titles)
    ensures Distinct(r.ids)
    ensures forall i, j :: 0 <= i < j < |r.ids| ==>
      r.ids[i] in s.doctors.rows && r.ids[j] in s.doctors.rows
      && s.doctors.rows[r.ids[i]].averageRating >= s.doctors.rows[r.ids[j]].averageRating
    ensures r.total == |r.ids|
  {
    var selected := SelectDoctors(s, titles);
    SortDescKeepsElements(selected, Rating(s));
    var ordered := SortDesc(selected, Rating(s));
    RatingOrder(s, ordered);
    Page(ordered, |ordered|)
  }
}
