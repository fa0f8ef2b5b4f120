/** Reviews: a patient reviews their own appointment and the doctor's average rating is
    recomputed from all of the doctor's reviews; the review listing's filters and default order
    (src/app/modules/review/review.service.ts).

    An appointment has at most one review: the one-to-one relation puts a unique constraint on the
    review's `appointmentId`. */
module ReviewService {
  import opened Wrappers
  import opened Tables
  import opened Seqs
  import opened Db

  // ---------------------------------------------------------------- a doctor's ratings

  /** The ratings of doctor `d`'s reviews among `ids`, in the order of `ids`. */
  function RatingsIn(rows: map<nat, Review>, ids: seq<nat>, d: nat): seq<real>
    requires forall i :: i in ids ==> i in rows
  {
    if ids == [] then []
    else
      var last := ids[|ids| - 1];
      RatingsIn(rows, ids[..|ids| - 1], d) + (if rows[last].doctorId == d then [rows[last].rating] else [])
  }

  /** Every rating of doctor `d`: the column `review.aggregate({ _avg: { rating } }, where doctorId)` averages. */
  function DoctorRatings(t: Table<Review>, d: nat): seq<real> {
    RatingsIn(t.rows, Ids(t), d)
  }

  lemma {:induction false} RatingsInAgree(a: map<nat, Review>, b: map<nat, Review>, ids: seq<nat>, d: nat)
    requires forall i :: i in ids ==> i in a && i in b && a[i] == b[i]
    ensures RatingsIn(a, ids, d) == RatingsIn(b, ids, d)
  {
    if ids != [] {
      assert forall i :: i in ids[..|ids| - 1] ==> i in ids;
      RatingsInAgree(a, b, ids[..|ids| - 1], d);
    }
  }

  /** Inserting a review appends its rating to its doctor's ratings and leaves other doctors' alone. */
  lemma InsertAppendsRating(t: Table<Review>, v: Review, d: nat)
    ensures DoctorRatings(Insert(t, v).0, d) == DoctorRatings(t, d) + (if v.doctorId == d then [v.rating] else [])
  {
    var (t', id) := Insert(t, v);
    InsertScansLast(t, v);
    var ids := Ids(t);
    assert Ids(t') == ids + [id];
    assert (ids + [id])[..|ids|] == ids;
    RatingsInAgree(t'.rows, t.rows, ids, d);
  }

  // ---------------------------------------------------------------- inserting a review

  datatype Reviewed = Reviewed(store: Store, reviewId: nat)

  predicate HasReview(s: Store, appointmentId: nat) {
    exists r :: r in s.reviews.rows && s.reviews.rows[r].appointmentId == appointmentId
  }

  /** `insertToDb`: the calling patient reviews their appointment. The review copies the
      appointment's doctor and patient; in the same transaction the doctor's `averageRating` becomes
      the mean of all of that doctor's ratings, the new one included. */
  function InsertReview(s: Store, caller: Caller, appointmentId: nat, rating: real, comment: string, nowMillis: int)
    : (r: Result<Reviewed>)
    ensures PatientByEmail(s, caller.email).None? ==> r == Err(NotFound(PatientRow))
    ensures PatientByEmail(s, caller.email).Some? && appointmentId !in s.appointments.rows ==> r == Err(NotFound(AppointmentRow))
    ensures (PatientByEmail(s, caller.email).Some? && appointmentId in s.appointments.rows
             && s.appointments.rows[appointmentId].patientId != PatientByEmail(s, caller.email).value)
      ==> r == Err(NotYourAppointment)
    ensures r.Ok? <==> (PatientByEmail(s, caller.email).Some? && appointmentId in s.appointments.rows
                        && s.appointments.rows[appointmentId].patientId == PatientByEmail(s, caller.email).value
                        && !HasReview(s, appointmentId)
                        && s.appointments.rows[appointmentId].doctorId in s.doctors.rows)
    ensures r.Ok? ==>
      var a := s.appointments.rows[appointmentId];
      var t := r.value.store;
      && r.value.reviewId !in s.reviews.rows
      && t.reviews.rows == s.reviews.rows[r.value.reviewId :=
           Review(appointmentId, a.doctorId, a.patientId, rating, comment, nowMillis)]
      && |DoctorRatings(t.reviews, a.doctorId)| > 0
      && t.doctors.rows == s.doctors.rows[a.doctorId :=
           s.doctors.rows[a.doctorId].(averageRating := Mean(DoctorRatings(t.reviews, a.doctorId)))]
      && t == s.(reviews := t.reviews, doctors := t.doctors)
  {
    match PatientByEmail(s, caller.email)
    case None => Err(NotFound(PatientRow))
    case Some(patientId) =>
      if appointmentId !in s.appointments.rows then Err(NotFound(AppointmentRow))
      else
        var a := s.appointments.rows[appointmentId];
        if patientId != a.patientId then Err(NotYourAppointment)
        else if HasReview(s, appointmentId) then Err(UniqueViolation(ReviewRow))
        else
          var v := Review(appointmentId, a.doctorId, a.patientId, rating, comment, nowMillis);
          var (reviews, id) := Insert(s.reviews, v);
          if a.doctorId !in s.doctors.rows then Err(NotFound(DoctorRow))
          else
            InsertAppendsRating(s.reviews, v, a.doctorId);
            var average := Mean(DoctorRatings(reviews, a.doctorId));
            Ok(Reviewed(s.(reviews := reviews,
                           doctors := Put(s.doctors, a.doctorId, s.doctors.rows[a.doctorId].(averageRating := average))),
                        id))
  }

  function AverageAfter(t: Store, d: nat): real
    requires d in t.doctors.rows
  {
    t.doctors.rows[d].averageRating
  }

  /** The recomputed average is the mean of the doctor's earlier ratings followed by the new one;
      by `Seqs.MeanOfAppended`, with `n` earlier ratings summing to `S` that is `(S + rating) / (n + 1)`. */
  lemma AverageIncludesNewRating(s: Store, caller: Caller, appointmentId: nat, rating: real, comment: string, nowMillis: int,
                                 b: Reviewed)
    requires InsertReview(s, caller, appointmentId, rating, comment, nowMillis) == Ok(b)
    ensures appointmentId in s.appointments.rows
    ensures s.appointments.rows[appointmentId].doctorId in b.store.doctors.rows
    ensures AverageAfter(b.store, s.appointments.rows[appointmentId].doctorId)
      == Mean(DoctorRatings(s.reviews, s.appointments.rows[appointmentId].doctorId) + [rating])
  {
    var a := s.appointments.rows[appointmentId];
    var d := a.doctorId;
    var v := Review(appointmentId, d, a.patientId, rating, comment, nowMillis);
    var t := b.store;
    var earlier := DoctorRatings(s.reviews, d);
    var xs := DoctorRatings(t.reviews, d);
    assert xs == earlier + [rating] by {
      assert t.reviews == Insert(s.reviews, v).0;
      InsertAppendsRating(s.reviews, v, d);
    }
    assert t.doctors.rows[d].averageRating == Mean(xs);
  }

  lemma {:induction false} RatingsInBounded(rows: map<nat, Review>, ids: seq<nat>, d: nat, lo: real, hi: real)
    requires forall i :: i in ids ==> i in rows && lo <= rows[i].rating <= hi
    ensures forall i :: 0 <= i < |RatingsIn(rows, ids, d)| ==> lo <= RatingsIn(rows, ids, d)[i] <= hi
  {
    if ids != [] {
      assert forall i :: i in ids[..|ids| - 1] ==> i in ids;
      RatingsInBounded(rows, ids[..|ids| - 1], d, lo, hi);
    }
  }

  /** When every stored rating and the new one lie in `[lo, hi]` (the 0 to 5 stars of the client,
      say), so does the recomputed average. */
  lemma AverageWithinBounds(s: Store, caller: Caller, appointmentId: nat, rating: real, comment: string, nowMillis: int,
                            lo: real, hi: real)
    requires InsertReview(s, caller, appointmentId, rating, comment, nowMillis).Ok?
    requires lo <= rating <= hi
    requires forall k :: k in s.reviews.rows ==> lo <= s.reviews.rows[k].rating <= hi
    ensures var d := s.appointments.rows[appointmentId].doctorId;
      lo <= InsertReview(s, caller, appointmentId, rating, comment, nowMillis).value.store.doctors.rows[d].averageRating <= hi
  {
    var t := InsertReview(s, caller, appointmentId, rating, comment, nowMillis).value.store;
    var d := s.appointments.rows[appointmentId].doctorId;
    var xs := DoctorRatings(t.reviews, d);
    assert forall k :: k in t.reviews.rows ==> lo <= t.reviews.rows[k].rating <= hi;
    RatingsInBounded(t.reviews.rows, Ids(t.reviews), d, lo, hi);
    MeanBounds(xs, lo, hi);
  }

  /** A review hangs on a live appointment, so inserting one keeps the store consistent. */
  lemma ReviewPreservesConsistency(s: Store, caller: Caller, appointmentId: nat, rating: real, comment: string, nowMillis: int)
    requires Consistent(s)
    requires InsertReview(s, caller, appointmentId, rating, comment, nowMillis).Ok?
    ensures Consistent(InsertReview(s, caller, appointmentId, rating, comment, nowMillis).value.store)
  {
    var t := InsertReview(s, caller, appointmentId, rating, comment, nowMillis).value.store;
    assert t.doctors.rows.Keys == s.doctors.rows.Keys;
  }

  /** A second review of the same appointment is rejected. */
  lemma OneReviewPerAppointment(s: Store, caller: Caller, appointmentId: nat, rating: real, comment: string, nowMillis: int,
                                rating2: real, comment2: string, nowMillis2: int)
    requires InsertReview(s, caller, appointmentId, rating, comment, nowMillis).Ok?
    ensures InsertReview(InsertReview(s, caller, appointmentId, rating, comment, nowMillis).value.store,
                         caller, appointmentId, rating2, comment2, nowMillis2).Err?
  {
    var b := InsertReview(s, caller, appointmentId, rating, comment, nowMillis).value;
    assert b.store.reviews.rows[b.reviewId].appointmentId == appointmentId;
  }

  // ---------------------------------------------------------------- listing reviews

  /** The listing's optional filters; an empty e-mail counts as absent, as a falsy value does. */
  datatype ReviewFilter = ReviewFilter(patientEmail: Option<string>, doctorEmail: Option<string>)

  predicate Given(e: Option<string>) {
    e.Some? && e.value != ""
  }

  predicate ReviewMatches(s: Store, f: ReviewFilter, v: Review) {
    && (Given(f.patientEmail) ==> PatientHasEmail(s, v.patientId, f.patientEmail.value))
    && (Given(f.doctorEmail) ==> DoctorHasEmail(s, v.doctorId, f.doctorEmail.value))
  }

  function CreatedAt(s: Store): nat -> real {
    (id: nat) => if id in s.reviews.rows then s.reviews.rows[id].createdAt as real else 0.0
  }

  function SelectReviews(s: Store, f: ReviewFilter): (r: seq<nat>)
    ensures forall id :: id in r <==> id in s.reviews.rows && ReviewMatches(s, f, s.reviews.rows[id])
    ensures Distinct(r)
  {
    var all := Ids(s.reviews);
    assert Distinct(all);
    var p := (id: nat) => id in s.reviews.rows && ReviewMatches(s, f, s.reviews.rows[id]);
    FilterDistinct(all, p);
    Filter(all, p)
  }

  lemma NewestFirst(s: Store, ids: seq<nat>)
    requires SortedDesc(ids, CreatedAt(s))
    requires forall id :: id in ids ==> id in s.reviews.rows
    ensures forall i, j :: 0 <= i < j < |ids| ==>
      ids[i] in s.reviews.rows && ids[j] in s.reviews.rows
      && s.reviews.rows[ids[i]].createdAt >= s.reviews.rows[ids[j]].createdAt
  {
    forall i, j | 0 <= i < j < |ids|
      ensures ids[i] in s.reviews.rows && ids[j] in s.reviews.rows
      ensures s.reviews.rows[ids[i]].createdAt >= s.reviews.rows[ids[j]].createdAt
    {
      assert ids[i] in ids && ids[j] in ids;
      assert CreatedAt(s)(ids[i]) >= CreatedAt(s)(ids[j]);
    }
  }

  /** `getAllFromDB` for reviews: the given filters combined with AND (no filter: every review),
      newest first; `total` counts the same selection. */
  function ListReviews(s: Store, f: ReviewFilter): (r: Page)
    ensures forall id :: id in r.ids <==> id in s.reviews.rows && ReviewMatches(s, f, s.reviews.rows[id])
    ensures Distinct(r.ids)
    ensures forall i, j :: 0 <= i < j < |r.ids| ==>
      r.ids[i] in s.reviews.rows && r.ids[j] in s.reviews.rows
      && s.reviews.rows[r.ids[i]].createdAt >= s.reviews.rows[r.ids[j]].createdAt
    ensures r.total == |r.ids|
  {
    var selected := SelectReviews(s, f);
    SortDescKeepsElements(selected, CreatedAt(s));
    var ordered := SortDesc(selected, CreatedAt(s));
    NewestFirst(s, ordered);
    Page(ordered, |ordered|)
  }

  /** Without filters every review is listed. */
  lemma NoFilterListsAll(s: Store, id: nat)
    requires id in s.reviews.rows
    ensures id in ListReviews(s, ReviewFilter(None, None)).ids
  {
  }
}
