# Digi-Museum core, modelled in Dafny

Digi-Museum is a small Flask web application over a fixed catalogue of Indian
museums. Signed-up users can log in and search the catalogue. They can mark a museum as
visited or wishlisted, post a rated review, and take a multiple-choice quiz about a museum.
The quiz is generated by a language model, and a fixed fallback quiz stands in when the
model call fails.

This project models the decision logic of `app.py` over three tables: users, reviews and
wishlist flags. It also models the signed session with its `'user'` and `'current_quiz'`
keys.

- `App.DigiMuseum` is a class whose fields are the three tables, their AUTOINCREMENT
  counters and the session. Each route and each database helper is a method that updates
  those fields. The method's contract states the new value of every field it may change, and
  which outcome the route reports (rendered page, rejection, redirect or server error) under
  which conditions.
- The pure parts are functions with lemmas about them:
  - the signup and login checks (`Accounts`);
  - the wishlist flip (`Wishlist`);
  - the review join and its ordering (`Reviews`);
  - catalogue filtering and sorting (`Catalog`, `Sorting`);
  - quiz generation and scoring (`Quiz`).
- `Text` models the Python string built-ins the routes use: `str.strip`, `str.lower`, `in` on
  strings, `int()` on a string, and the `f'q_{i}'` formatting.
- Parameters stand in for these external inputs:
  - The museum catalogue (`MUSEUM_DATA`) is a `Directory`: the application's entries in
    dictionary order. A dictionary holds each key once; `Catalog.DistinctKeys` states this,
    and `Catalog.LookupListed` shows that under it a listed key looks up its own entry.
  - The password-hashing digest is the `digestOf` function of the application object. The
    random salt is a parameter of `Signup`.
  - A timestamp is `now`.
  - What the quiz generator did is a `GeneratorResult`: the client could not be built, the
    call failed, or it returned a quiz.

## Model

| member | source | states |
|---|---|---|
| Accounts.UsernameById | app.py:479 | the inner join of a review with its author: the username whose row has that id, or none when no user has it (ids are unique) |
| Accounts.SignupCheck | app.py:570-577 | the signup checks in the code's order: incomplete fields, then a taken username, then mismatched passwords, then a password shorter than 6. Each error is reported exactly when the earlier checks pass and its own condition holds, and none is reported exactly when all pass |
| Accounts.Authenticate | app.py:546-556 | a blank stripped username or blank password is refused first. Otherwise login succeeds exactly when the username has a row whose hash accepts the password, and it then yields that row's username |
| Accounts.SignupThenLogin | app.py:565-583 | after a signup that passes every check and stores the hash of the password, logging in with the same credentials succeeds. With a collision-free digest, every other non-empty password is refused |
| Passwords.GeneratePasswordHash | app.py:579 | the stored hash keeps the salt and the digest of salt and password |
| Passwords.CheckPasswordHash | app.py:553 | `check_password_hash`: the password is re-digested with the stored salt and compared with the stored digest |
| Passwords.CheckGenerated | app.py:553 | a hash made from a password accepts that password. Under a collision-free digest it rejects any other password |
| Forms.Get | app.py:546 | `request.form.get`: present exactly when the field was submitted, and then its value |
| Forms.FieldOrEmpty | app.py:546-569 | `form.get(name) or ''`: the submitted value, or the empty string when the field is absent |
| Wishlist.Status | app.py:499-509 | the stored flag for (user, museum), 0 when no row exists. It is always 0 or 1 while the table holds only bits |
| Wishlist.Flip | app.py:515 | the new flag is 1 exactly when the current one is 0 |
| Wishlist.Toggled | app.py:511-522 | INSERT OR REPLACE adds the (user, museum) key and flips its status. Every other row is unchanged and the table still holds only bits |
| Wishlist.ToggleOthersUnchanged | app.py:517-520 | toggling one (user, museum) pair leaves the status of every other pair unchanged |
| Wishlist.ToggleTwice | app.py:511-522 | toggling twice restores the original status |
| Reviews.SubmittedRating | app.py:669-673 | the rating is `int()` of the field. It is 0 when the field is missing or empty, and 0 when it is not an integer literal |
| Reviews.Acceptable | app.py:675 | the posting condition: non-empty text and a rating from 1 to 5 (a predicate; the lemmas around it state its consequences) |
| Reviews.RatingBoundaries | app.py:669-675 | with non-empty text, ratings "1" and "5" are accepted, while "0", "6", "-1" and a missing rating are rejected |
| Reviews.OverlongRatingRejected | app.py:669-675 | a rating of more than 4300 digits raises ValueError, reads as 0 and is rejected, whatever its value |
| Reviews.PaddedRatingRejected | app.py:669-675 | the rating "1" with 4300 leading zeros is rejected |
| Reviews.Joined | app.py:476-481 | the joined rows are exactly the museum's reviews whose author exists, each carrying rating, text, timestamp and username |
| Reviews.JoinedMultiplicity | app.py:476-481 | the join yields one row per matching review: each view occurs exactly as often as there are rows of the museum, by an existing author, that it stands for |
| Reviews.MuseumReviews | app.py:473-486 | the joined rows sorted newest first (its properties are stated by MuseumReviewsSpec) |
| Reviews.MuseumReviewsSpec | app.py:473-486 | the museum's reviews are sorted newest first by timestamp and are a permutation of the joined rows |
| Reviews.JoinedAppend | app.py:488-497 | appending a review adds exactly its view to the museum's joined rows when the review is for that museum and its author exists. Otherwise the joined rows stay the same |
| Catalog.Lookup | app.py:654 | `MUSEUM_DATA.get(key)`: none exactly when no entry has the key, otherwise an entry with that key |
| Catalog.DistinctKeys | app.py:603-607 | the catalogue, a dictionary, holds each key once |
| Catalog.LookupListed | app.py:654 | with distinct keys, looking up the key of any entry finds that entry |
| Catalog.StrLess | app.py:618 | Python's `<` on strings: code-point lexicographic order, a proper prefix first |
| Catalog.StrLessTrichotomy | app.py:618 | Python's `<` on strings is a strict total order: two strings are equal or exactly one precedes the other |
| Catalog.StrLessTransitive | app.py:618 | Python's `<` on strings is transitive |
| Catalog.ByNameTotalPreorder | app.py:618 | ordering by name is total and transitive, so sorting by it is well defined |
| Catalog.MuseumList | app.py:603-607 | one listing per catalogue entry, in order, carrying its key, name and city |
| Catalog.Matches | app.py:612 | the search test: the query occurs in the lower-cased name or the lower-cased city |
| Catalog.Filter | app.py:609-614 | each listing is kept, with its multiplicity, exactly when the query occurs in its lower-cased name or city. Nothing else is kept |
| Catalog.FilterEmptyQuery | app.py:609-616 | an empty query keeps the whole list, so skipping the filter for an empty search agrees with filtering |
| Catalog.Dashboard | app.py:601-618 | the dashboard is sorted by name and holds exactly the matching listings of the catalogue, with multiplicity |
| Catalog.QuizSelection | app.py:632-638 | the quiz selection is every listing of the catalogue, sorted by name |
| Sorting.SortBy | app.py:618 | a sort by key is a permutation of its input |
| Sorting.SortBySorted | app.py:618 | under a total preorder, the sorted result is ordered |
| Sorting.InsertSorted | app.py:618 | inserting into an ordered sequence keeps it ordered |
| Sorting.SortByMembers | app.py:618 | sorting neither adds nor drops an element |
| Quiz.FixedQuestionsShape | app.py:126-145 | the four constant fallback questions each have 4 options, and their answer is one of them |
| Quiz.FallbackQuiz | app.py:118-147 | the fallback quiz is titled after the museum and has 5 questions of 4 options each. Each answer is among its options, and the first question asks for the museum's city |
| Quiz.GenerateQuiz | app.py:89-147 | none exactly when the client cannot be built. A generated quiz with 5 questions is returned unchanged, any other generated quiz or a failed call gives the fallback, and the result always has 5 questions |
| Quiz.GeneratedQuizShape | app.py:110-147 | a quiz that was produced has questions, and a fallback quiz is well formed |
| Quiz.AnswerKey | app.py:731 | the form field of question i, `q_{i}` |
| Quiz.AnswerFor | app.py:731-732 | `submitted_answers.get(f'q_{i}')`: the submitted answer to question i, none when absent |
| Quiz.CountRight | app.py:730-738 | the number of the first n questions whose submitted answer equals the stored answer |
| Quiz.AnswerKeyInjective | app.py:731 | the field names `q_0`, `q_1`, ... are distinct for distinct questions |
| Quiz.ScoreSubmission | app.py:726-746 | the score counts the questions whose submitted answer equals the stored answer, and it is at most the total. It returns one result per question, holding the submitted answer, the correct answer, the options, and whether they match |
| Quiz.FullMarks | app.py:730-738 | the score never exceeds the number of questions scored, and it equals that number exactly when every answer is right |
| Quiz.NoMarks | app.py:730-738 | the score is 0 exactly when no answer is right |
| Quiz.OmittedAnswer | app.py:731-733 | an omitted field reads as no answer for its question, and the other questions' answers are unchanged |
| Text.Strip | app.py:546 | the stripped string is no longer than the input, and it neither starts nor ends with whitespace |
| Text.StripTrims | app.py:546 | the stripped string is the slice of the input that starts after its leading whitespace, and only whitespace lies outside it |
| Text.Lower | app.py:601-612 | `str.lower()`: same length, each upper-case ASCII letter replaced by its lower-case form, no upper-case ASCII letter left |
| Text.StripUnchanged | app.py:546 | a string with no whitespace at either end is left as it is |
| Text.Contains | app.py:612 | `needle in haystack` on strings (its meaning is stated by ContainsAt) |
| Text.ContainsAt | app.py:612 | `a in b` holds exactly when `a` occurs at some position of `b` |
| Text.ContainsEmpty | app.py:612 | the empty string is in every string |
| Text.NatToString | app.py:731 | `str(i)` of a number is a non-empty string of digits with no leading zero |
| Text.NatToStringValue | app.py:731 | the digits of the decimal rendering spell the number |
| Text.NatToStringInjective | app.py:731 | distinct numbers render differently |
| Text.ParseInt | app.py:671 | `int()` of a string: a result only when the stripped string is non-empty; its meaning is given by the lemmas below |
| Text.ParseNumeral | app.py:671 | an unsigned numeral (digits, single underscores between digits) of at most 4300 digits, or none |
| Text.ParseIntOfDigits | app.py:671 | a string of digits, leading zeros included, reads as its value when it has at most 4300 digits, and raises ValueError (none) beyond |
| Text.ParseIntOfNatToString | app.py:671 | `int()` reads back a rendered number, within the 4300-digit limit |
| Text.ParseIntOfNegative | app.py:671 | `int()` reads a minus sign followed by a rendered number as its negation, within the 4300-digit limit |
| Text.ParseIntUnpadded | app.py:671 | on a string with no whitespace at either end, `int()` reads the numeral directly, as stripping changes nothing |
| App.DigiMuseum.SessionUsername | app.py:660 | the session's username, present exactly when the `'user'` key is set |
| App.DigiMuseum.constructor | app.py:405-438 | empty tables, an empty session, and ids starting at 1 |
| App.DigiMuseum.GetUser | app.py:446-453 | the row for the username, present exactly when one exists |
| App.DigiMuseum.UserExists | app.py:466-467 | true exactly when the username has a row |
| App.DigiMuseum.GetUserId | app.py:469-471 | the id of the username's row, present exactly when one exists. The join maps that id back to the username |
| App.DigiMuseum.CreateUser | app.py:455-464 | inserts a row with the next id exactly when the username is free, because UNIQUE refuses a taken one. Nothing else changes |
| App.DigiMuseum.GetMuseumReviews | app.py:473-486 | the museum's joined reviews, newest first, each coming from a stored review by an existing user, one row per such review |
| App.DigiMuseum.AddMuseumReview | app.py:488-497 | appends exactly one review with the next id and the current timestamp. Nothing else changes |
| App.DigiMuseum.GetWishlistStatus | app.py:499-509 | the stored flag, or 0 without a row. It is always 0 or 1 |
| App.DigiMuseum.ToggleWishlistStatus | app.py:511-524 | writes and returns the flipped flag for that pair only. Nothing else changes |
| App.DigiMuseum.LoginRequired | app.py:527-534 | the wrapped handler runs exactly when the session has `'user'` |
| App.DigiMuseum.Login | app.py:543-560 | the outcome is Authenticate on the stripped username. On success, `'user'` is set to the username; on failure, the session is unchanged. No table changes |
| App.DigiMuseum.Signup | app.py:562-587 | the outcome is SignupCheck on the stripped fields. Only a passing signup inserts the user, with the salted hash and the next id, and advances the user id counter. The session and the other tables are unchanged |
| App.DigiMuseum.Logout | app.py:589-593 | removes `'user'` from the session and nothing else |
| App.DigiMuseum.DashboardPage | app.py:598-625 | refused without login. Otherwise the matching listings, sorted by name |
| App.DigiMuseum.QuizSelectionPage | app.py:628-646 | refused without login. Otherwise all listings, sorted by name |
| App.DigiMuseum.MuseumProfileView | app.py:652-692 | refused without login, and not found for an unknown key. Otherwise the user's wishlist flag (0 when the session user has no row) and the museum's reviews |
| App.DigiMuseum.MuseumProfilePost | app.py:652-681 | refused without login, and not found for an unknown key. `toggle_visited` flips exactly that user's flag for the museum. With `review_text`, the review is posted exactly when the text is non-empty and the rating is 1..5, and it appends exactly one row. A rejected review changes nothing, and the review id counter advances only for a posted review. A session user without a row gets a server error (the NULL `user_id` insert) for a toggle or an acceptable review. A form with neither field does nothing. Valid reviews stay valid |
| App.DigiMuseum.QuizStart | app.py:709-781 | refused without login, and not found for an unknown key. Otherwise generation fails exactly when the client is unavailable; any other quiz is shown and stored under `'current_quiz'` with the museum key, replacing any earlier quiz |
| App.DigiMuseum.QuizSubmit | app.py:709-758 | scores only when the stored quiz carries this key. Scoring returns the title, the score, the total and, for each question, its text, options, submitted answer, correct answer and whether they match, and it removes the stored quiz. Otherwise it reports a mismatch and leaves the session as it was |
| App.QuizLifecycle | app.py:717-773 | after a quiz is generated, one submission scores its 5 questions and a second submission for the same key finds nothing to score |

## Left out

- Rendering, flash messages and redirects have no model. A route reports its outcome as a
  datatype value. Flask keeps flash messages in the session; the model's session holds only
  `'user'` and `'current_quiz'`.
- SQLite connections and the file path have no model, nor does `init_db` beyond the empty
  tables with ids from 1 and the constraints that change results: UNIQUE usernames and the
  (user, museum) primary key of the wishlist.
- The foreign keys are not enforced. A review or wishlist row whose user does not exist is
  hidden by the join (reviews) or simply kept (wishlist).
- The language-model calls are parameters:
  - `get_museum_summary` is left out entirely; it only feeds the rendered GET page;
  - the prompt, the JSON schema and `json.loads` of the response are left out. A failure that
    raises before the count check returns (a decoding error, a missing `questions` key,
    a count other than 5) is the `CallFailed` or short-quiz case. A reply that passes the
    count check but does not fit `QuizData` (questions without `answer`, or a `questions`
    value that is a 5-character string) is not modelled; in the source it is stored and
    fails at scoring with a 500;
  - an AI quiz is checked only for its question count, as the code does. Its options and
    answers are not checked.
- Client construction failure makes `generate_quiz` return None, not the fallback, as the
  code does. `QuizStart` then reports `GenerationFailed`.
- A stored quiz without `quiz_title` would crash the render. Every quiz in the model has a
  title.
- werkzeug's `generate_password_hash` and `check_password_hash` are an abstract digest
  `digestOf(salt, password)` with a salt parameter. The hashing algorithm and its encoding
  have no model.
- The contents of `MUSEUM_DATA` are a parameter. Only key, name and city are modelled;
  hours, charges, exhibits and gallery images are rendering data.
- The index route `/` is a redirect only and has no model.
- The GET forms of `/login` and `/signup` only render a template and have no model.
- Requests run one at a time. Concurrent requests and the race the `IntegrityError` branch of
  signup guards against are not modelled. In the sequential model, `CreateUser` reports that
  branch as `false` and `Signup` maps it to `UsernameTaken`.
- Text.Strip: only ASCII and the C0 separators count as whitespace. Python's other Unicode
  whitespace is not modelled.
- Text.Lower: only ASCII letters are lower-cased. Python's full Unicode case mapping is not
  modelled.
- Text.ParseInt: only ASCII digits are read. Python's `int()` also accepts other Unicode
  decimal digits. The 4300-digit limit is CPython's default since the releases that
  introduced `sys.set_int_max_str_digits`; an interpreter without it, or with another
  setting, reads longer numerals.
- Text.NatToString: `str(n)` has the same digit limit. It is used only for question
  indices, far below it, so the limit is not modelled there.
- Reviews.MuseumReviews: `ORDER BY timestamp DESC` leaves the order of equal timestamps
  unspecified. The model keeps insertion order for ties, and its contract states only the
  ordering and the permutation. Timestamps are natural numbers, not SQLite's
  second-resolution text.
- Sorting.SortBy: Python's `list.sort` is stable and sorts in place. The model sorts a value,
  and stability is not stated.
- A session user without a row has a NULL `user_id`. The insert into a NOT NULL column then
  fails, which the model reports as `ProfileServerError`. The source's 500 error page is not
  modelled further.
