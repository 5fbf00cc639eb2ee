/** The `reviews` table and the handlers of `reviews_routes.py`. The spot and
    user tables are read, never written, by these handlers. */
module Reviews {
  import opened Api
  import Seqs
  import Users
  import StudySpots

  /** The `ReviewCreate` request body (also the body of an update). */
  datatype ReviewCreate = ReviewCreate(studyspot_id: int, user_id: int, rating: int, comment: Option<string>)

  /** A row of the `reviews` table. */
  datatype Review = Review(
    id: nat, studyspot_id: int, user_id: int, rating: int, comment: Option<string>, created_at: Stamp)

  /** The `ReviewOut` response model. */
  datatype ReviewOut = ReviewOut(
    id: nat, studyspot_id: int, user_id: int, rating: int, comment: Option<string>,
    created_at: Stamp, user_name: Option<string>)

  const MinRating := 1
  const MaxRating := 5
  const MaxLimit := 1000

  const SpotNotFound := Error(404, "Study spot not found")
  const UserNotFound := Error(404, "User not found")
  const AlreadyReviewed := Error(400, "User already reviewed this study spot")
  const ReviewNotFound := Error(404, "Review not found")

  /** `Field(..., ge=1, le=5)` on `rating`. */
  predicate ValidRating(rating: int) { MinRating <= rating <= MaxRating }

  /** `Query(ge=1, le=1000)` on `limit` and `Query(ge=0)` on `offset`. */
  predicate ValidPage(limit: int, offset: int) { 1 <= limit <= MaxLimit && 0 <= offset }

  function Id(r: Review): int { r.id }

  /** The response for stored review `r`, with the reviewer's name looked up. */
  function Out(r: Review, users: seq<Users.User>): (o: ReviewOut)
    ensures o.id == r.id && o.studyspot_id == r.studyspot_id && o.user_id == r.user_id
    ensures o.rating == r.rating && o.comment == r.comment && o.created_at == r.created_at
    ensures o.user_name.None? <==> !Users.HasId(users, r.user_id)
    ensures o.user_name.Some? ==>
      exists i :: 0 <= i < |users| && users[i].id == r.user_id && users[i].name == o.user_name.value
  {
    ReviewOut(r.id, r.studyspot_id, r.user_id, r.rating, r.comment, r.created_at,
              Users.NameOf(users, r.user_id))
  }

  /** The row `db.add` inserts; `created_at` is the insertion time. */
  function NewReview(id: nat, p: ReviewCreate, now: Stamp): Review
  {
    Review(id, p.studyspot_id, p.user_id, p.rating, p.comment, now)
  }

  /** The `setattr` loop of `update_review`: the four payload fields replace
      the stored ones; `id` and `created_at` stay. */
  function Replace(r: Review, p: ReviewCreate): (u: Review)
    ensures u.id == r.id && u.created_at == r.created_at
    ensures u.studyspot_id == p.studyspot_id && u.user_id == p.user_id
    ensures u.rating == p.rating && u.comment == p.comment
  {
    r.(studyspot_id := p.studyspot_id, user_id := p.user_id, rating := p.rating, comment := p.comment)
  }

  ghost predicate HasReview(rows: seq<Review>, id: int)
  {
    exists i :: 0 <= i < |rows| && rows[i].id == id
  }

  ghost predicate Reviewed(rows: seq<Review>, studyspot_id: int, user_id: int)
  {
    exists i :: 0 <= i < |rows| && rows[i].studyspot_id == studyspot_id && rows[i].user_id == user_id
  }

  /** At most one review per (spot, user). */
  ghost predicate OnePerSpotAndUser(rows: seq<Review>)
  {
    forall i, j :: 0 <= i < j < |rows| ==>
      rows[i].studyspot_id != rows[j].studyspot_id || rows[i].user_id != rows[j].user_id
  }

  ghost predicate RatingsValid(rows: seq<Review>)
  {
    forall i :: 0 <= i < |rows| ==> ValidRating(rows[i].rating)
  }

  function AtSpot(studyspot_id: int): Review -> bool
  {
    (r: Review) => r.studyspot_id == studyspot_id
  }

  function ByUser(user_id: int): Review -> bool
  {
    (r: Review) => r.user_id == user_id
  }

  function WithId(id: int): Review -> bool
  {
    (r: Review) => r.id == id
  }

  /** `ORDER BY id DESC`, for rows stored in increasing id order. */
  function Newest(rows: seq<Review>): seq<Review>
  {
    Seqs.Reverse(rows)
  }

  /** The `out.append` loop of the list handlers: one response per row. */
  method Render(page: seq<Review>, users: seq<Users.User>) returns (out: seq<ReviewOut>)
    ensures |out| == |page|
    ensures forall i :: 0 <= i < |page| ==> out[i] == Out(page[i], users)
  {
    out := [];
    for i := 0 to |page|
      invariant |out| == i
      invariant forall k :: 0 <= k < i ==> out[k] == Out(page[k], users)
    {
      out := out + [Out(page[i], users)];
    }
  }

  /** The rows `list_reviews` and its two filtered variants return, newest
      first: strictly decreasing ids, at most `limit` of them. */
  lemma PageIsNewestFirst(rows: seq<Review>, offset: nat, limit: nat)
    requires Seqs.StrictlyIncreasing(rows, Id)
    ensures Seqs.StrictlyDecreasing(Seqs.Page(Newest(rows), offset, limit), Id)
  {
    Seqs.ReverseOfIncreasing(rows, Id);
    Seqs.PageOfDecreasing(Newest(rows), offset, limit, Id);
  }

  /** Update does not re-check that a (spot, user) pair is reviewed once: moving
      review 2 onto user 1's pair leaves two reviews of spot 7 by user 1. */
  lemma UpdateCanDuplicatePair()
    ensures var rows := [Review(1, 7, 1, 5, None, 0), Review(2, 7, 2, 4, None, 0)];
            OnePerSpotAndUser(rows) &&
            !OnePerSpotAndUser(rows[1 := Replace(rows[1], ReviewCreate(7, 1, 3, None))])
  {
    var rows := [Review(1, 7, 1, 5, None, 0), Review(2, 7, 2, 4, None, 0)];
    var updated := rows[1 := Replace(rows[1], ReviewCreate(7, 1, 3, None))];
    assert updated[0].studyspot_id == updated[1].studyspot_id && updated[0].user_id == updated[1].user_id;
  }

  /** The spot of an update payload is acceptable: unchanged, or stored. */
  ghost predicate SpotKeyOk(spots: seq<StudySpots.StudySpot>, stored: Review, p: ReviewCreate)
  {
    p.studyspot_id == stored.studyspot_id || StudySpots.HasId(spots, p.studyspot_id)
  }

  /** The user of an update payload is acceptable: unchanged, or stored. */
  ghost predicate UserKeyOk(users: seq<Users.User>, stored: Review, p: ReviewCreate)
  {
    p.user_id == stored.user_id || Users.HasId(users, p.user_id)
  }

  /** A response is ordered newest first when its ids strictly decrease. */
  ghost predicate NewestFirst(out: seq<ReviewOut>)
  {
    forall i, j :: 0 <= i < j < |out| ==> out[i].id > out[j].id
  }

  class ReviewTable {
    var rows: seq<Review>
    /** The next value of the auto-increment primary key. */
    var nextId: nat

    ghost predicate Valid()
      reads this
    {
      && 1 <= nextId
      && Seqs.KeysWithin(rows, Id, 1, nextId)
      && Seqs.StrictlyIncreasing(rows, Id)
      && RatingsValid(rows)
    }

    constructor ()
      ensures Valid() && rows == [] && nextId == 1
    {
      rows := [];
      nextId := 1;
    }

    /** `create_review`: the body is validated first (422), then the spot must
        exist (404), then the user (404), then the pair must not be reviewed
        yet (400); only then is the review inserted under a fresh id. */
    method Create(spots: StudySpots.StudySpotTable, users: Users.UserTable, p: ReviewCreate, now: Stamp)
      returns (r: Result<ReviewOut>)
      requires Valid()
      modifies this
      ensures Valid()
      ensures r.Err? ==> rows == old(rows) && nextId == old(nextId)
      ensures !ValidRating(p.rating) ==> r == Err(UnprocessableEntity)
      ensures ValidRating(p.rating) && !StudySpots.HasId(spots.rows, p.studyspot_id) ==>
        r == Err(SpotNotFound)
      ensures (ValidRating(p.rating) && StudySpots.HasId(spots.rows, p.studyspot_id) &&
               !Users.HasId(users.rows, p.user_id)) ==> r == Err(UserNotFound)
      ensures (ValidRating(p.rating) && StudySpots.HasId(spots.rows, p.studyspot_id) &&
               Users.HasId(users.rows, p.user_id) && Reviewed(old(rows), p.studyspot_id, p.user_id)) ==>
        r == Err(AlreadyReviewed)
      ensures r.Ok? <==>
        ValidRating(p.rating) && StudySpots.HasId(spots.rows, p.studyspot_id) &&
        Users.HasId(users.rows, p.user_id) && !Reviewed(old(rows), p.studyspot_id, p.user_id)
      ensures r.Ok? ==>
        && rows == old(rows) + [NewReview(old(nextId), p, now)]
        && nextId == old(nextId) + 1
        && r.value == Out(NewReview(old(nextId), p, now), users.rows)
        && r.value.user_name.Some?
      ensures OnePerSpotAndUser(old(rows)) ==> OnePerSpotAndUser(rows)
    {
      if !ValidRating(p.rating) {
        return Err(UnprocessableEntity);
      }
      var spot := Seqs.FirstIndex(spots.rows, (s: StudySpots.StudySpot) => s.id == p.studyspot_id);
      if spot.None? {
        return Err(SpotNotFound);
      }
      var user := Seqs.FirstIndex(users.rows, (u: Users.User) => u.id == p.user_id);
      if user.None? {
        return Err(UserNotFound);
      }
      var existing := Seqs.FirstIndex(rows, (x: Review) => x.studyspot_id == p.studyspot_id && x.user_id == p.user_id);
      if existing.Some? {
        return Err(AlreadyReviewed);
      }
      var row := NewReview(nextId, p, now);
      rows := rows + [row];
      nextId := nextId + 1;
      r := Ok(Out(row, users.rows));
    }

    /** `list_reviews`: all reviews, newest first, skipping `offset` and
        keeping at most `limit`. */
    method List(users: Users.UserTable, limit: int, offset: int) returns (r: Result<seq<ReviewOut>>)
      requires Valid()
      ensures r.Err? <==> !ValidPage(limit, offset)
      ensures r.Err? ==> r.error == UnprocessableEntity
      ensures r.Ok? ==> |r.value| <= limit && NewestFirst(r.value)
      ensures r.Ok? ==> |r.value| == if offset >= |rows| then 0 else Seqs.Min(limit, |rows| - offset)
      ensures r.Ok? ==> forall i :: 0 <= i < |r.value| ==> r.value[i] == Out(Newest(rows)[offset + i], users.rows)
    {
      if !ValidPage(limit, offset) {
        return Err(UnprocessableEntity);
      }
      var page := Seqs.Page(Newest(rows), offset, limit);
      PageIsNewestFirst(rows, offset, limit);
      var out := Render(page, users.rows);
      r := Ok(out);
    }

    /** `list_reviews_for_spot`: the spot's reviews, newest first, paged;
        404 when the spot does not exist. */
    method ListForSpot(spots: StudySpots.StudySpotTable, users: Users.UserTable, spot_id: int, limit: int, offset: int)
      returns (r: Result<seq<ReviewOut>>)
      requires Valid()
      ensures !(1 <= spot_id && ValidPage(limit, offset)) ==> r == Err(UnprocessableEntity)
      ensures 1 <= spot_id && ValidPage(limit, offset) && !StudySpots.HasId(spots.rows, spot_id) ==>
        r == Err(SpotNotFound)
      ensures r.Ok? <==> 1 <= spot_id && ValidPage(limit, offset) && StudySpots.HasId(spots.rows, spot_id)
      ensures r.Ok? ==> |r.value| <= limit && NewestFirst(r.value)
      ensures r.Ok? ==> forall i :: 0 <= i < |r.value| ==> r.value[i].studyspot_id == spot_id
      ensures r.Ok? ==> var m := Seqs.Filter(rows, AtSpot(spot_id));
        |r.value| == if offset >= |m| then 0 else Seqs.Min(limit, |m| - offset)
      ensures r.Ok? ==> forall i :: 0 <= i < |r.value| ==>
        r.value[i] == Out(Newest(Seqs.Filter(rows, AtSpot(spot_id)))[offset + i], users.rows)
    {
      if !(1 <= spot_id && ValidPage(limit, offset)) {
        return Err(UnprocessableEntity);
      }
      var spot := Seqs.FirstIndex(spots.rows, (s: StudySpots.StudySpot) => s.id == spot_id);
      if spot.None? {
        return Err(SpotNotFound);
      }
      var matching := Seqs.Filter(rows, AtSpot(spot_id));
      Seqs.FilterKeepsIncreasing(rows, AtSpot(spot_id), Id);
      PageIsNewestFirst(matching, offset, limit);
      var out := Render(Seqs.Page(Newest(matching), offset, limit), users.rows);
      r := Ok(out);
    }

    /** `list_reviews_by_user`: the user's reviews, newest first, paged;
        404 when the user does not exist. */
    method ListByUser(users: Users.UserTable, user_id: int, limit: int, offset: int)
      returns (r: Result<seq<ReviewOut>>)
      requires Valid()
      ensures !(1 <= user_id && ValidPage(limit, offset)) ==> r == Err(UnprocessableEntity)
      ensures 1 <= user_id && ValidPage(limit, offset) && !Users.HasId(users.rows, user_id) ==>
        r == Err(UserNotFound)
      ensures r.Ok? <==> 1 <= user_id && ValidPage(limit, offset) && Users.HasId(users.rows, user_id)
      ensures r.Ok? ==> |r.value| <= limit && NewestFirst(r.value)
      ensures r.Ok? ==> forall i :: 0 <= i < |r.value| ==> r.value[i].user_id == user_id
      ensures r.Ok? ==> var m := Seqs.Filter(rows, ByUser(user_id));
        |r.value| == if offset >= |m| then 0 else Seqs.Min(limit, |m| - offset)
      ensures r.Ok? ==> forall i :: 0 <= i < |r.value| ==>
        r.value[i] == Out(Newest(Seqs.Filter(rows, ByUser(user_id)))[offset + i], users.rows)
    {
      if !(1 <= user_id && ValidPage(limit, offset)) {
        return Err(UnprocessableEntity);
      }
      var user := Seqs.FirstIndex(users.rows, (u: Users.User) => u.id == user_id);
      if user.None? {
        return Err(UserNotFound);
      }
      var matching := Seqs.Filter(rows, ByUser(user_id));
      Seqs.FilterKeepsIncreasing(rows, ByUser(user_id), Id);
      PageIsNewestFirst(matching, offset, limit);
      var out := Render(Seqs.Page(Newest(matching), offset, limit), users.rows);
      r := Ok(out);
    }

    /** `update_review`: 404 for an unknown id; a missing body fails on its
        first use; a changed spot or user must exist; then the four payload
        fields replace the stored ones. Pair uniqueness is not re-checked. */
    method Update(spots: StudySpots.StudySpotTable, users: Users.UserTable, review_id: int, payload: Option<ReviewCreate>)
      returns (r: Result<ReviewOut>)
      requires Valid()
      modifies this
      ensures Valid()
      ensures nextId == old(nextId)
      ensures r.Err? ==> rows == old(rows)
      ensures review_id < 1 || (payload.Some? && !ValidRating(payload.value.rating)) ==>
        r == Err(UnprocessableEntity)
      ensures (1 <= review_id && (payload.Some? ==> ValidRating(payload.value.rating)) &&
               !HasReview(old(rows), review_id)) ==> r == Err(ReviewNotFound)
      ensures 1 <= review_id && payload.None? && HasReview(old(rows), review_id) ==>
        r == Err(InternalServerError)
      ensures |rows| == |old(rows)|
      ensures r.Ok? ==> payload.Some? && HasReview(old(rows), review_id)
      ensures r.Ok? ==> forall i :: 0 <= i < |rows| ==>
        rows[i] == if old(rows)[i].id == review_id then Replace(old(rows)[i], payload.value) else old(rows)[i]
      ensures r.Ok? ==> exists i :: 0 <= i < |rows| && rows[i].id == review_id && r.value == Out(rows[i], users.rows)
      ensures 1 <= review_id && payload.Some? && ValidRating(payload.value.rating) ==>
        forall i :: 0 <= i < |old(rows)| && old(rows)[i].id == review_id ==>
          && (!SpotKeyOk(spots.rows, old(rows)[i], payload.value) ==> r == Err(SpotNotFound))
          && ((SpotKeyOk(spots.rows, old(rows)[i], payload.value) &&
               !UserKeyOk(users.rows, old(rows)[i], payload.value)) ==> r == Err(UserNotFound))
          && ((SpotKeyOk(spots.rows, old(rows)[i], payload.value) &&
               UserKeyOk(users.rows, old(rows)[i], payload.value)) ==> r.Ok?)
    {
      if review_id < 1 || (payload.Some? && !ValidRating(payload.value.rating)) {
        return Err(UnprocessableEntity);
      }
      var found := Seqs.FirstIndex(rows, WithId(review_id));
      if found.None? {
        return Err(ReviewNotFound);
      }
      var i := found.value;
      if payload.None? {
        return Err(InternalServerError);
      }
      var p := payload.value;
      if p.studyspot_id != rows[i].studyspot_id {
        var spot := Seqs.FirstIndex(spots.rows, (s: StudySpots.StudySpot) => s.id == p.studyspot_id);
        if spot.None? {
          return Err(SpotNotFound);
        }
      }
      if p.user_id != rows[i].user_id {
        var user := Seqs.FirstIndex(users.rows, (u: Users.User) => u.id == p.user_id);
        if user.None? {
          return Err(UserNotFound);
        }
      }
      ghost var before := rows;
      var row := Replace(rows[i], p);
      rows := rows[i := row];
      assert forall k :: 0 <= k < |rows| && k != i ==> before[k].id != review_id;
      r := Ok(Out(row, users.rows));
    }

    /** `delete_review`: removes exactly the review with that id; 404 when
        there is none. */
    method Delete(review_id: int) returns (r: Result<()>)
      requires Valid()
      modifies this
      ensures Valid()
      ensures nextId == old(nextId)
      ensures review_id < 1 ==> r == Err(UnprocessableEntity) && rows == old(rows)
      ensures 1 <= review_id && !HasReview(old(rows), review_id) ==> r == Err(ReviewNotFound) && rows == old(rows)
      ensures r.Ok? <==> 1 <= review_id && HasReview(old(rows), review_id)
      ensures r.Ok? ==> rows == Seqs.Filter(old(rows), (x: Review) => x.id != review_id)
      ensures r.Ok? ==> |rows| == |old(rows)| - 1
      ensures forall x :: x in rows <==> x in old(rows) && (r.Ok? ==> x.id != review_id)
    {
      if review_id < 1 {
        return Err(UnprocessableEntity);
      }
      var found := Seqs.FirstIndex(rows, WithId(review_id));
      if found.None? {
        return Err(ReviewNotFound);
      }
      var i := found.value;
      ghost var before := rows;
      Seqs.FilterRemovesOne(before, (x: Review) => x.id != review_id, i);
      rows := rows[..i] + rows[i + 1..];
      r := Ok(());
    }
  }
}
