/**
 * The review ledger: the `reviews` table, the checks a review post must pass, and the
 * per-museum listing `get_museum_reviews`.
 */
module Reviews {
  import opened Wrappers
  import opened Text
  import opened Forms
  import opened Sorting
  import opened Accounts

  /** A row of `reviews`; `timestamp` is the insertion time in seconds. */
  datatype Review = Review(
    id: nat, userId: nat, museumKey: string, rating: int, text: string, timestamp: nat)

  /** A row of the listing: the review joined with its author's username. */
  datatype ReviewView = ReviewView(rating: int, text: string, timestamp: nat, username: string)

  // ---------------------------------------------------------------- posting

  /** `int(form.get('rating') or 0)`, with a `ValueError` read as 0. */
  function SubmittedRating(form: Form): (r: int)
    ensures FieldOrEmpty(form, "rating") == "" ==> r == 0
    ensures ParseInt(FieldOrEmpty(form, "rating")).Some? ==>
              r == ParseInt(FieldOrEmpty(form, "rating")).value
    ensures ParseInt(FieldOrEmpty(form, "rating")).None? ==> r == 0
  {
    var field := FieldOrEmpty(form, "rating");
    if field == "" then 0 else ParseInt(field).GetOr(0)
  }

  /** A review is accepted with a non-empty text and a rating from 1 to 5. */
  predicate Acceptable(text: string, rating: int) {
    text != [] && 1 <= rating <= 5
  }

  /** The boundaries of the rating check, for a form with a non-empty text. */
  lemma RatingBoundaries(form: Form)
    requires FieldOrEmpty(form, "review_text") != ""
    ensures FieldOrEmpty(form, "rating") == "0" ==>
              !Acceptable(FieldOrEmpty(form, "review_text"), SubmittedRating(form))
    ensures FieldOrEmpty(form, "rating") == "6" ==>
              !Acceptable(FieldOrEmpty(form, "review_text"), SubmittedRating(form))
    ensures FieldOrEmpty(form, "rating") == "1" ==>
              Acceptable(FieldOrEmpty(form, "review_text"), SubmittedRating(form))
    ensures FieldOrEmpty(form, "rating") == "5" ==>
              Acceptable(FieldOrEmpty(form, "review_text"), SubmittedRating(form))
    ensures "rating" !in form ==>
              !Acceptable(FieldOrEmpty(form, "review_text"), SubmittedRating(form))
    ensures FieldOrEmpty(form, "rating") == "-1" ==>
              !Acceptable(FieldOrEmpty(form, "review_text"), SubmittedRating(form))
  {
    ParseIntNegativeDigits("1", 1);
    assert "-" + "1" == "-1";
    ParseIntOfNatToString(0);
    ParseIntOfNatToString(1);
    ParseIntOfNatToString(5);
    ParseIntOfNatToString(6);
  }

  /** A rating of more digits than `int()` converts raises `ValueError`, which reads as 0, so
      the review is rejected, whatever the digits' value. */
  lemma OverlongRatingRejected(form: Form)
    requires AllDigits(FieldOrEmpty(form, "rating")) && |FieldOrEmpty(form, "rating")| > MaxStrDigits
    ensures SubmittedRating(form) == 0
    ensures !Acceptable(FieldOrEmpty(form, "review_text"), SubmittedRating(form))
  {
    ParseIntOfDigits(FieldOrEmpty(form, "rating"));
  }

  /** The rating `"1"` padded with `MaxStrDigits` leading zeros is rejected. */
  lemma PaddedRatingRejected(form: Form)
    requires FieldOrEmpty(form, "rating") == seq(MaxStrDigits, _ => '0') + "1"
    ensures !Acceptable(FieldOrEmpty(form, "review_text"), SubmittedRating(form))
  {
    var field := FieldOrEmpty(form, "rating");
    assert forall i :: 0 <= i < |field| ==> IsDigit(field[i]);
    OverlongRatingRejected(form);
  }

  // ---------------------------------------------------------------- listing

  /** Review row `r` appears in the listing for `museumKey` as `v`. */
  predicate Shows(users: UserTable, museumKey: string, r: Review, v: ReviewView)
    requires IdsUnique(users)
  {
    && r.museumKey == museumKey
    && UsernameById(users, r.userId) == Some(v.username)
    && v == ReviewView(r.rating, r.text, r.timestamp, v.username)
  }

  /** The rows of `museumKey` whose author exists, joined with the username, in table order. */
  function Joined(reviews: seq<Review>, users: UserTable, museumKey: string): (r: seq<ReviewView>)
    requires IdsUnique(users)
    ensures |r| <= |reviews|
    ensures forall v :: v in r <==> exists i :: 0 <= i < |reviews| && Shows(users, museumKey, reviews[i], v)
  {
    if reviews == [] then []
    else
      var last := reviews[|reviews| - 1];
      var front := Joined(reviews[..|reviews| - 1], users, museumKey);
      assert forall i :: 0 <= i < |reviews| - 1 ==> reviews[..|reviews| - 1][i] == reviews[i];
      var name := UsernameById(users, last.userId);
      if last.museumKey == museumKey && name.Some? then
        var v := ReviewView(last.rating, last.text, last.timestamp, name.value);
        assert Shows(users, museumKey, last, v);
        front + [v]
      else front
  }

  /** The indices of the review rows that `v` stands for. */
  ghost function RowsShowing(reviews: seq<Review>, users: UserTable, museumKey: string, v: ReviewView): set<int>
    requires IdsUnique(users)
  {
    set i | 0 <= i < |reviews| && Shows(users, museumKey, reviews[i], v)
  }

  /** The join yields one row per matching review: a view occurs as often as there are review
      rows of the museum, by an existing author, that it stands for. */
  lemma {:induction false} JoinedMultiplicity(reviews: seq<Review>, users: UserTable, museumKey: string, v: ReviewView)
    requires IdsUnique(users)
    ensures multiset(Joined(reviews, users, museumKey))[v] == |RowsShowing(reviews, users, museumKey, v)|
  {
    if reviews == [] {
      assert RowsShowing(reviews, users, museumKey, v) == {};
    } else {
      var n := |reviews| - 1;
      JoinedMultiplicity(reviews[..n], users, museumKey, v);
      RowsShowingStep(reviews, users, museumKey, v);
      ShowsAppended(reviews[..n], users, museumKey, reviews[n], v);
      assert reviews[..n] + [reviews[n]] == reviews;
    }
  }

  /** The rows `v` stands for in a table are those of its prefix, and the last row if it stands for `v`. */
  lemma RowsShowingStep(reviews: seq<Review>, users: UserTable, museumKey: string, v: ReviewView)
    requires IdsUnique(users) && reviews != []
    ensures var n := |reviews| - 1;
            var rows := RowsShowing(reviews[..n], users, museumKey, v);
            && n !in rows
            && RowsShowing(reviews, users, museumKey, v) ==
                 if Shows(users, museumKey, reviews[n], v) then rows + {n} else rows
  {
    var n := |reviews| - 1;
    forall i | 0 <= i < n ensures reviews[..n][i] == reviews[i] { }
  }

  /** One step of the join: the last row adds one occurrence of `v` exactly when it stands for `v`. */
  lemma ShowsAppended(front: seq<Review>, users: UserTable, museumKey: string, last: Review, v: ReviewView)
    requires IdsUnique(users)
    ensures multiset(Joined(front + [last], users, museumKey))[v] ==
              multiset(Joined(front, users, museumKey))[v] + (if Shows(users, museumKey, last, v) then 1 else 0)
  {
    JoinedAppend(front, users, museumKey, last);
  }

  /** `ORDER BY r.timestamp DESC`: a row may stay before another no older than it. */
  function NewestFirst(a: ReviewView, b: ReviewView): bool {
    a.timestamp >= b.timestamp
  }

  /** `get_museum_reviews(museum_key)`. The order among rows of equal timestamp is not
      specified by the query; this one keeps table order. */
  function MuseumReviews(reviews: seq<Review>, users: UserTable, museumKey: string): seq<ReviewView>
    requires IdsUnique(users)
  {
    SortBy(Joined(reviews, users, museumKey), NewestFirst)
  }

  /** The listing holds exactly the museum's reviews whose author exists, newest first. */
  lemma MuseumReviewsSpec(reviews: seq<Review>, users: UserTable, museumKey: string)
    requires IdsUnique(users)
    ensures SortedBy(MuseumReviews(reviews, users, museumKey), NewestFirst)
    ensures multiset(MuseumReviews(reviews, users, museumKey)) == multiset(Joined(reviews, users, museumKey))
    ensures forall v :: v in MuseumReviews(reviews, users, museumKey) <==>
              exists i :: 0 <= i < |reviews| && Shows(users, museumKey, reviews[i], v)
  {
    assert TotalPreorder(NewestFirst);
    SortBySorted(Joined(reviews, users, museumKey), NewestFirst);
    forall v ensures v in MuseumReviews(reviews, users, museumKey) <==> v in Joined(reviews, users, museumKey) {
      SortByMembers(Joined(reviews, users, museumKey), NewestFirst, v);
    }
  }

  /** Appending a row adds its view at the end of the table-order join when it belongs to the
      museum and its author exists, and changes nothing otherwise. */
  lemma JoinedAppend(reviews: seq<Review>, users: UserTable, museumKey: string, r: Review)
    requires IdsUnique(users)
    ensures var name := UsernameById(users, r.userId);
            Joined(reviews + [r], users, museumKey) ==
              if r.museumKey == museumKey && name.Some? then
                Joined(reviews, users, museumKey) + [ReviewView(r.rating, r.text, r.timestamp, name.value)]
              else Joined(reviews, users, museumKey)
  {
    assert (reviews + [r])[..|reviews|] == reviews;
  }
}
