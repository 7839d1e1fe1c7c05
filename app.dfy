/**
 * The application state behind the routes: the three tables and the session, and the
 * decision each route makes over them. Rendering, flash messages and redirects are reduced
 * to the outcome a route reports.
 */
module App {
  import opened Wrappers
  import opened Text
  import opened Forms
  import opened Passwords
  import opened Accounts
  import opened Reviews
  import opened Wishlist
  import opened Catalog
  import opened Quiz

  /** The two session keys the application uses: `'user'` and `'current_quiz'`. */
  datatype SessionKey = UserKey | QuizKey

  /** What the session holds under them: the logged-in username, the current quiz. */
  datatype SessionValue = SessionUser(username: string) | SessionQuiz(stored: StoredQuiz)

  type Session = map<SessionKey, SessionValue>

  predicate SessionShaped(session: Session) {
    && (UserKey in session ==> session[UserKey].SessionUser?)
    && (QuizKey in session ==> session[QuizKey].SessionQuiz?)
  }

  datatype SignupOutcome = SignupRejected(error: SignupError) | SignupCreated

  /** What `/museum/<key>` did with a POST. */
  datatype ProfileOutcome =
    | ProfileNeedsLogin
    | ProfileNotFound
    | StatusUpdated(status: int)
    | ReviewPosted
    | ReviewRejected
    | NoAction
    | ProfileServerError   // the insert failed: the session's user has no row, so `user_id` is NULL

  /** What `/museum/<key>` shows on a GET, apart from the rendered details and the summary. */
  datatype ProfilePage = PageNeedsLogin | PageNotFound | Page(status: int, reviews: seq<ReviewView>)

  /** What `/quiz/<key>` did. */
  datatype QuizOutcome =
    | QuizNeedsLogin
    | QuizMuseumNotFound
    | GenerationFailed
    | QuizMismatch
    | QuizShown(quiz: QuizData)
    | QuizScored(title: string, score: nat, total: nat, results: seq<QuestionResult>)

  class DigiMuseum {
    var users: UserTable
    var nextUserId: nat
    var reviews: seq<Review>
    var nextReviewId: nat
    var wishlist: WishlistTable
    var session: Session
    /** The digest of the password-hashing library. */
    const digestOf: (string, string) -> string

    ghost predicate Valid()
      reads this
    {
      && nextUserId >= 1 && nextReviewId >= 1
      && KeyedByUsername(users)
      && IdsUnique(users)
      && (forall u :: u in users ==> 1 <= users[u].id < nextUserId)
      && (forall i :: 0 <= i < |reviews| ==> 1 <= reviews[i].id < nextReviewId)
      && FlagsAreBits(wishlist)
      && SessionShaped(session)
    }

    /** Every stored review passed the posting checks. */
    ghost predicate ReviewsAcceptable()
      reads this
    {
      forall i :: 0 <= i < |reviews| ==> Acceptable(reviews[i].text, reviews[i].rating)
    }

    /** The username the session is logged in as. */
    function SessionUsername(): (r: Option<string>)
      reads this
      requires SessionShaped(session)
      ensures r.Some? <==> UserKey in session
    {
      if UserKey in session then Some(session[UserKey].username) else None
    }

    /** Empty tables and an empty session; AUTOINCREMENT ids start at 1. */
    constructor (digestOf: (string, string) -> string)
      ensures Valid() && ReviewsAcceptable()
      ensures users == map[] && reviews == [] && wishlist == map[] && session == map[]
      ensures nextUserId == 1 && nextReviewId == 1 && this.digestOf == digestOf
    {
      users, nextUserId := map[], 1;
      reviews, nextReviewId := [], 1;
      wishlist := map[];
      session := map[];
      this.digestOf := digestOf;
    }

    // ------------------------------------------------------------ users

    /** `get_user(username)`. */
    method GetUser(username: string) returns (user: Option<UserRecord>)
      requires Valid()
      ensures user.Some? <==> username in users
      ensures user.Some? ==> user.value == users[username] && user.value.username == username
    {
      user := if username in users then Some(users[username]) else None;
    }

    /** `user_exists(username)`. */
    method UserExists(username: string) returns (found: bool)
      ensures found <==> username in users
    {
      found := username in users;
    }

    /** `get_user_id(username)`. */
    method GetUserId(username: string) returns (id: Option<nat>)
      requires Valid()
      ensures id.Some? <==> username in users
      ensures id.Some? ==> id.value == users[username].id && UsernameById(users, id.value) == Some(username)
    {
      var user := GetUser(username);
      id := if user.Some? then Some(user.value.id) else None;
    }

    /** `create_user`: inserts a row; the UNIQUE constraint refuses a username already taken
        (the `IntegrityError`, reported as `false`). */
    method CreateUser(username: string, email: string, passwordHash: PasswordHash, now: nat)
      returns (created: bool)
      requires Valid()
      modifies this
      ensures Valid()
      ensures created <==> username !in old(users)
      ensures users == if created
                       then old(users)[username := UserRecord(old(nextUserId), username, email, passwordHash, now)]
                       else old(users)
      ensures nextUserId == if created then old(nextUserId) + 1 else old(nextUserId)
      ensures reviews == old(reviews) && nextReviewId == old(nextReviewId)
      ensures wishlist == old(wishlist) && session == old(session)
    {
      if username in users {
        created := false;
      } else {
        users := users[username := UserRecord(nextUserId, username, email, passwordHash, now)];
        nextUserId := nextUserId + 1;
        created := true;
      }
    }

    // ------------------------------------------------------------ reviews

    /** `get_museum_reviews(museum_key)`. */
    method GetMuseumReviews(museumKey: string) returns (rows: seq<ReviewView>)
      requires Valid()
      ensures rows == MuseumReviews(reviews, users, museumKey)
      ensures Sorting.SortedBy(rows, NewestFirst)
      ensures forall v :: v in rows <==> exists i :: 0 <= i < |reviews| && Shows(users, museumKey, reviews[i], v)
      ensures forall v :: multiset(rows)[v] == |RowsShowing(reviews, users, museumKey, v)|
    {
      rows := MuseumReviews(reviews, users, museumKey);
      MuseumReviewsSpec(reviews, users, museumKey);
      forall v ensures multiset(rows)[v] == |RowsShowing(reviews, users, museumKey, v)| {
        JoinedMultiplicity(reviews, users, museumKey, v);
      }
    }

    /** `add_museum_review`: appends one row, stamped `now`; it checks nothing itself. */
    method AddMuseumReview(userId: nat, museumKey: string, rating: int, text: string, now: nat)
      requires Valid()
      modifies this
      ensures Valid()
      ensures reviews == old(reviews) + [Review(old(nextReviewId), userId, museumKey, rating, text, now)]
      ensures nextReviewId == old(nextReviewId) + 1
      ensures users == old(users) && nextUserId == old(nextUserId)
      ensures wishlist == old(wishlist) && session == old(session)
    {
      reviews := reviews + [Review(nextReviewId, userId, museumKey, rating, text, now)];
      nextReviewId := nextReviewId + 1;
    }

    // ------------------------------------------------------------ wishlist

    /** `get_wishlist_status(user_id, museum_key)`. */
    method GetWishlistStatus(userId: nat, museumKey: string) returns (status: int)
      requires Valid()
      ensures status == Status(wishlist, userId, museumKey)
      ensures status == 0 || status == 1
    {
      status := Status(wishlist, userId, museumKey);
    }

    /** `toggle_wishlist_status`: reads the flag, writes back its flip, returns the new flag. */
    method ToggleWishlistStatus(userId: nat, museumKey: string) returns (newStatus: int)
      requires Valid()
      modifies this
      ensures Valid()
      ensures newStatus == Flip(Status(old(wishlist), userId, museumKey))
      ensures wishlist == old(wishlist)[(userId, museumKey) := newStatus]
      ensures wishlist == Toggled(old(wishlist), userId, museumKey)
      ensures users == old(users) && nextUserId == old(nextUserId)
      ensures reviews == old(reviews) && nextReviewId == old(nextReviewId) && session == old(session)
    {
      var current := GetWishlistStatus(userId, museumKey);
      newStatus := Flip(current);
      wishlist := wishlist[(userId, museumKey) := newStatus];
    }

    // ------------------------------------------------------------ authentication

    /** `login_required`: the wrapped handler runs only with a logged-in session. */
    method LoginRequired() returns (allowed: bool)
      ensures allowed <==> UserKey in session
    {
      allowed := UserKey in session;
    }

    /** POST `/login`. */
    method Login(form: Form) returns (result: LoginResult)
      requires Valid()
      modifies this
      ensures Valid()
      ensures result == Authenticate(old(users), digestOf, Strip(FieldOrEmpty(form, "username")),
                                     FieldOrEmpty(form, "password"))
      ensures result.LoggedIn? ==> result.username == Strip(FieldOrEmpty(form, "username"))
      ensures result.LoggedIn? ==> session == old(session)[UserKey := SessionUser(result.username)]
      ensures !result.LoggedIn? ==> session == old(session)
      ensures users == old(users) && nextUserId == old(nextUserId)
      ensures reviews == old(reviews) && nextReviewId == old(nextReviewId) && wishlist == old(wishlist)
    {
      var username := Strip(FieldOrEmpty(form, "username"));
      var password := FieldOrEmpty(form, "password");
      result := Authenticate(users, digestOf, username, password);
      if result.LoggedIn? {
        session := session[UserKey := SessionUser(result.username)];
      }
    }

    /** POST `/signup`; `salt` stands for the hashing library's random salt. */
    method Signup(form: Form, salt: string, now: nat) returns (outcome: SignupOutcome)
      requires Valid()
      modifies this
      ensures Valid()
      ensures var username := Strip(FieldOrEmpty(form, "username"));
              var email := Strip(FieldOrEmpty(form, "email"));
              var password := FieldOrEmpty(form, "password");
              var check := SignupCheck(username, email, password, FieldOrEmpty(form, "confirm_password"),
                                       username in old(users));
              && (outcome == if check.None? then SignupCreated else SignupRejected(check.value))
              && (users == if outcome.SignupCreated?
                           then old(users)[username := UserRecord(old(nextUserId), username, email,
                                                       GeneratePasswordHash(digestOf, password, salt), now)]
                           else old(users))
      ensures nextUserId == if outcome.SignupCreated? then old(nextUserId) + 1 else old(nextUserId)
      ensures reviews == old(reviews) && nextReviewId == old(nextReviewId)
      ensures wishlist == old(wishlist) && session == old(session)
    {
      var username := Strip(FieldOrEmpty(form, "username"));
      var email := Strip(FieldOrEmpty(form, "email"));
      var password := FieldOrEmpty(form, "password");
      var confirmPassword := FieldOrEmpty(form, "confirm_password");
      var taken := UserExists(username);
      var check := SignupCheck(username, email, password, confirmPassword, taken);
      if check.Some? {
        return SignupRejected(check.value);
      }
      var passwordHash := GeneratePasswordHash(digestOf, password, salt);
      var created := CreateUser(username, email, passwordHash, now);
      outcome := if created then SignupCreated else SignupRejected(UsernameTaken);
    }

    /** `/logout`: removes the `'user'` key and nothing else. */
    method Logout()
      requires Valid()
      modifies this
      ensures Valid()
      ensures session == old(session) - {UserKey}
      ensures users == old(users) && nextUserId == old(nextUserId)
      ensures reviews == old(reviews) && nextReviewId == old(nextReviewId) && wishlist == old(wishlist)
    {
      session := session - {UserKey};
    }

    // ------------------------------------------------------------ listings

    /** `/dashboard`, behind `login_required`. */
    method DashboardPage(catalog: Directory, search: string) returns (page: Option<seq<Listing>>)
      ensures page.None? <==> UserKey !in session
      ensures page.Some? ==> Sorting.SortedBy(page.value, ByName)
      ensures page.Some? ==> (forall m :: multiset(page.value)[m] ==
                                if Matches(m, Lower(search)) then multiset(Listings(catalog))[m] else 0)
    {
      var allowed := LoginRequired();
      if !allowed {
        return None;
      }
      var shown := Dashboard(catalog, search);
      page := Some(shown);
    }

    /** `/quiz_selection`, behind `login_required`. */
    method QuizSelectionPage(catalog: Directory) returns (page: Option<seq<Listing>>)
      ensures page.None? <==> UserKey !in session
      ensures page.Some? ==> Sorting.SortedBy(page.value, ByName)
      ensures page.Some? ==> multiset(page.value) == multiset(Listings(catalog))
    {
      var allowed := LoginRequired();
      if !allowed {
        return None;
      }
      var shown := QuizSelection(catalog);
      page := Some(shown);
    }

    // ------------------------------------------------------------ museum profile

    /** GET `/museum/<key>`: the wishlist flag of the logged-in user (0 when that user has no
        row, as `user_id = NULL` matches nothing) and the museum's reviews. */
    method MuseumProfileView(catalog: Directory, museumKey: string) returns (page: ProfilePage)
      requires Valid()
      ensures UserKey !in session ==> page == PageNeedsLogin
      ensures UserKey in session && Lookup(catalog, museumKey).None? ==> page == PageNotFound
      ensures UserKey in session && Lookup(catalog, museumKey).Some? ==> page.Page?
      ensures page.Page? ==>
                && page.reviews == MuseumReviews(reviews, users, museumKey)
                && page.status == (if SessionUsername().value in users
                                   then Status(wishlist, users[SessionUsername().value].id, museumKey)
                                   else 0)
    {
      var allowed := LoginRequired();
      if !allowed {
        return PageNeedsLogin;
      }
      var details := Lookup(catalog, museumKey);
      if details.None? {
        return PageNotFound;
      }
      var userId := GetUserId(session[UserKey].username);
      var status := 0;
      if userId.Some? {
        status := GetWishlistStatus(userId.value, museumKey);
      }
      var rows := GetMuseumReviews(museumKey);
      page := Page(status, rows);
    }

    /**
     * POST `/museum/<key>`: a form with `toggle_visited` flips the wishlist flag; otherwise a
     * form with `review_text` posts a review, accepted only with a non-empty text and a rating
     * from 1 to 5; any other form changes nothing.
     */
    method MuseumProfilePost(catalog: Directory, museumKey: string, form: Form, now: nat)
      returns (outcome: ProfileOutcome)
      requires Valid()
      modifies this
      ensures Valid()
      ensures old(ReviewsAcceptable()) ==> ReviewsAcceptable()
      ensures UserKey !in old(session) ==> outcome == ProfileNeedsLogin
      ensures UserKey in old(session) && Lookup(catalog, museumKey).None? ==> outcome == ProfileNotFound
      ensures var reviewing := UserKey in old(session) && Lookup(catalog, museumKey).Some?
                               && "toggle_visited" !in form && "review_text" in form;
              var text := FieldOrEmpty(form, "review_text");
              var rating := SubmittedRating(form);
              && (outcome == ReviewRejected <==> reviewing && !Acceptable(text, rating))
              && (outcome == ReviewPosted <==>
                    reviewing && Acceptable(text, rating) && old(SessionUsername()).value in old(users))
              && (reviews == if outcome == ReviewPosted
                             then old(reviews) + [Review(old(nextReviewId), old(users)[old(SessionUsername()).value].id,
                                                         museumKey, rating, text, now)]
                             else old(reviews))
              && (nextReviewId == if outcome == ReviewPosted then old(nextReviewId) + 1 else old(nextReviewId))
              && (outcome == ProfileServerError <==>
                    && UserKey in old(session) && Lookup(catalog, museumKey).Some?
                    && old(SessionUsername()).value !in old(users)
                    && ("toggle_visited" in form || ("review_text" in form && Acceptable(text, rating))))
      ensures outcome == NoAction <==>
                UserKey in old(session) && Lookup(catalog, museumKey).Some?
                && "toggle_visited" !in form && "review_text" !in form
      ensures outcome.StatusUpdated? <==>
                UserKey in old(session) && Lookup(catalog, museumKey).Some? && "toggle_visited" in form
                && old(SessionUsername()).value in old(users)
      ensures wishlist == if outcome.StatusUpdated?
                          then Toggled(old(wishlist), old(users)[old(SessionUsername()).value].id, museumKey)
                          else old(wishlist)
      ensures outcome.StatusUpdated? ==>
                outcome.status == Flip(Status(old(wishlist), old(users)[old(SessionUsername()).value].id, museumKey))
      ensures users == old(users) && nextUserId == old(nextUserId) && session == old(session)
    {
      var allowed := LoginRequired();
      if !allowed {
        return ProfileNeedsLogin;
      }
      var details := Lookup(catalog, museumKey);
      if details.None? {
        return ProfileNotFound;
      }
      var userId := GetUserId(session[UserKey].username);
      if "toggle_visited" in form {
        if userId.None? {
          return ProfileServerError;
        }
        var newStatus := ToggleWishlistStatus(userId.value, museumKey);
        outcome := StatusUpdated(newStatus);
      } else if "review_text" in form {
        var reviewText := FieldOrEmpty(form, "review_text");
        var rating := SubmittedRating(form);
        if Acceptable(reviewText, rating) {
          if userId.None? {
            return ProfileServerError;
          }
          AddMuseumReview(userId.value, museumKey, rating, reviewText, now);
          outcome := ReviewPosted;
        } else {
          outcome := ReviewRejected;
        }
      } else {
        outcome := NoAction;
      }
    }

    // ------------------------------------------------------------ quiz

    /** GET `/quiz/<key>`: generates a quiz (`g` is what the generator did) and stores it in the
        session tagged with the key, replacing any earlier one; a quiz without questions is not stored. */
    method QuizStart(catalog: Directory, museumKey: string, g: GeneratorResult) returns (outcome: QuizOutcome)
      requires Valid()
      modifies this
      ensures Valid()
      ensures UserKey !in old(session) ==> outcome == QuizNeedsLogin
      ensures UserKey in old(session) && Lookup(catalog, museumKey).None? ==> outcome == QuizMuseumNotFound
      ensures outcome.QuizShown? <==>
                UserKey in old(session) && Lookup(catalog, museumKey).Some? && !g.ClientUnavailable?
      ensures outcome == GenerationFailed <==>
                UserKey in old(session) && Lookup(catalog, museumKey).Some? && g.ClientUnavailable?
      ensures outcome.QuizShown? ==>
                && Lookup(catalog, museumKey).Some?
                && Some(outcome.quiz) == GenerateQuiz(Lookup(catalog, museumKey).value.name,
                                                      Lookup(catalog, museumKey).value.city, g)
                && outcome.quiz.questions != []
      ensures session == if outcome.QuizShown?
                         then old(session)[QuizKey := SessionQuiz(StoredQuiz(outcome.quiz, museumKey))]
                         else old(session)
      ensures users == old(users) && nextUserId == old(nextUserId)
      ensures reviews == old(reviews) && nextReviewId == old(nextReviewId) && wishlist == old(wishlist)
    {
      var allowed := LoginRequired();
      if !allowed {
        return QuizNeedsLogin;
      }
      var details := Lookup(catalog, museumKey);
      if details.None? {
        return QuizMuseumNotFound;
      }
      var quizData := GenerateQuiz(details.value.name, details.value.city, g);
      if quizData.None? || quizData.value.questions == [] {
        return GenerationFailed;
      }
      session := session[QuizKey := SessionQuiz(StoredQuiz(quizData.value, museumKey))];
      outcome := QuizShown(quizData.value);
    }

    /** POST `/quiz/<key>`: scores the stored quiz against the form and removes it; without a
        stored quiz for this key nothing is scored and the session is left as it was. */
    method QuizSubmit(catalog: Directory, museumKey: string, form: Form) returns (outcome: QuizOutcome)
      requires Valid()
      modifies this
      ensures Valid()
      ensures UserKey !in old(session) ==> outcome == QuizNeedsLogin
      ensures UserKey in old(session) && Lookup(catalog, museumKey).None? ==> outcome == QuizMuseumNotFound
      ensures UserKey in old(session) && Lookup(catalog, museumKey).Some? ==>
                if QuizKey in old(session) && old(session)[QuizKey].stored.museumKey == museumKey
                then outcome.QuizScored? else outcome == QuizMismatch
      ensures outcome.QuizScored? ==>
                var quiz := old(session)[QuizKey].stored.quiz;
                && outcome.title == quiz.title
                && outcome.total == |quiz.questions|
                && outcome.score == CountRight(quiz.questions, form, |quiz.questions|)
                && outcome.score <= outcome.total
                && |outcome.results| == outcome.total
                && forall i :: 0 <= i < outcome.total ==>
                     && outcome.results[i].question == quiz.questions[i].question
                     && outcome.results[i].options == quiz.questions[i].options
                     && outcome.results[i].userAnswer == AnswerFor(form, i)
                     && outcome.results[i].correctAnswer == quiz.questions[i].answer
                     && (outcome.results[i].isCorrect <==> AnswerFor(form, i) == Some(quiz.questions[i].answer))
      ensures session == if outcome.QuizScored? then old(session) - {QuizKey} else old(session)
      ensures users == old(users) && nextUserId == old(nextUserId)
      ensures reviews == old(reviews) && nextReviewId == old(nextReviewId) && wishlist == old(wishlist)
    {
      var allowed := LoginRequired();
      if !allowed {
        return QuizNeedsLogin;
      }
      var details := Lookup(catalog, museumKey);
      if details.None? {
        return QuizMuseumNotFound;
      }
      if QuizKey !in session || session[QuizKey].stored.museumKey != museumKey {
        return QuizMismatch;
      }
      var quizData := session[QuizKey].stored.quiz;
      var score, results := ScoreSubmission(quizData, form);
      session := session - {QuizKey};
      outcome := QuizScored(quizData.title, score, |quizData.questions|, results);
    }
  }

  /** The quiz lifecycle end to end: a generated quiz is scored by one submission for its key,
      and a second submission finds nothing to score. */
  method QuizLifecycle(app: DigiMuseum, catalog: Directory, museumKey: string, g: GeneratorResult, form: Form)
    returns (shown: QuizOutcome, scored: QuizOutcome, again: QuizOutcome)
    requires app.Valid() && UserKey in app.session
    requires Lookup(catalog, museumKey).Some? && !g.ClientUnavailable?
    modifies app
    ensures app.Valid() && app.session == old(app.session) - {QuizKey}
    ensures shown.QuizShown? && |shown.quiz.questions| == 5
    ensures scored.QuizScored? && scored.total == 5 && scored.title == shown.quiz.title
    ensures again == QuizMismatch
  {
    shown := app.QuizStart(catalog, museumKey, g);
    GeneratedQuizShape(Lookup(catalog, museumKey).value.name, Lookup(catalog, museumKey).value.city, g);
    scored := app.QuizSubmit(catalog, museumKey, form);
    again := app.QuizSubmit(catalog, museumKey, form);
  }
}
