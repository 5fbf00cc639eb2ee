# Where2Mug table rules, modelled in Dafny

Where2Mug is a study-spot discovery app: users add study spots, review them
and check in to them, and a web client lists and searches the spots. This
project models the rules of its REST backend: each route handler checks a
condition against a table, then inserts, updates, deletes or counts rows. It
also models the client's search filter. Every table is an in-memory class
over a sequence of rows, and every handler is a method returning either the
response body or an HTTP error (status and detail).

- `Api.dfy`: `Option`, `Result`, the HTTP `Error`, and the framework's 422 and 500 answers.
- `Seqs.dfy`: the query shapes the handlers use. `FirstIndex` is `.filter(...).first()`,
  `Filter` is `WHERE`, `Count` is `COUNT`, `Reverse` is `ORDER BY id DESC` and `Page` is `OFFSET`/`LIMIT`.
  It also holds the lemmas about them.
- `Users.dfy`, `StudySpots.dfy`: check-then-insert tables with a unique `email` / `place_id`.
- `Reviews.dfy`: reviews with foreign-key checks, one review per (spot, user) at creation,
  paged newest-first listings, update and delete.
- `Checkins.dfy`: check-in rows that stay open while `checkout_timestamp` is null,
  at most one open row per (user, spot), and the active count per spot.
- `SpotSearch.dfy`: the client's case-insensitive name/description filter and its empty-list message.

Every table keeps its rows in insertion order, and `Valid()` records:
- ids are auto-increment keys in `[1, nextId)`;
- ids strictly increase along the rows, so newest first is the reverse order;
- users, spots and check-ins only: the table's uniqueness rule (distinct emails, distinct
  `place_id`s, at most one open check-in per (user, spot));
- reviews only: every rating is in 1..5.

Reviews are unique per (spot, user) only at creation (reviews_routes.py:31-38). `Valid()` of
the review table does not include that rule, because update never re-checks it;
`Reviews.ReviewTable.Create` promises in its own contract that it keeps the rule, and
`Reviews.UpdateCanDuplicatePair` shows an update that breaks it.

Framework validation runs before a handler. It covers the rating bounds, `ge=1` on path ids, and
`1 <= limit <= 1000` and `offset >= 0` on queries. A request that fails it gets
`Error(422, "Unprocessable Entity")`.

The check-in handlers map to the methods of `Checkins.CheckinTable`: `POST /` (`checkin_user`,
checkin_routes.py:10) is `CheckIn`, `POST /checkout` (`checkout_user`, line 29) is `CheckOut`, and
`POST /active/{studyspot_id}` (`get_active_checkins`, line 49) is `GetActiveCheckins`.

Some functions are the specifications that the rows below use, and have rows of their own:
`Checkins.ActiveCount` (the count query), `Checkins.CloseOpen` (the in-place checkout update),
`Reviews.Out` (the response dictionaries) and `SpotSearch.View` (what the list area renders).

## Model

| member | source | states |
|---|---|---|
| `Users.UserTable.Create` | app/routes/v1/users_routes.py:9-18 | A registered email gives 400 "Email already registered" and the table is unchanged. Otherwise exactly one row is appended with the payload's fields and a fresh id, and emails stay pairwise distinct. The answer is a `UserOut`, which has no password field |
| `Users.UserTable.List` | app/routes/v1/users_routes.py:20-22 | Returns every stored user as `UserOut` (id, name, email, role, no password) and changes nothing |
| `Users.NameOf` | app/routes/v1/reviews_routes.py:79 | The reviewer name is `None` exactly when no user has that id. Otherwise it is the name of a stored user with that id |
| `StudySpots.ParseSpotCreate` | app/schemas/studyspot.py:10-16 | An omitted status becomes `pending`. A given status, name, place id, latitude, longitude and description are kept |
| `StudySpots.StudySpotTable.Create` | app/routes/v1/studyspots_routes.py:9-18 | A stored `place_id` gives 400 "Study spot already exists" and the table is unchanged. Otherwise exactly one spot is appended with the payload's fields and a fresh id, and `place_id`s stay pairwise distinct |
| `StudySpots.StudySpotTable.List` | app/routes/v1/studyspots_routes.py:20-22 | Returns every stored spot and changes nothing |
| `Checkins.Admit` | app/routes/v1/checkin_routes.py:12-23 | Check-in is refused with 400 "User already checked in at this studyspot" exactly when the (user, spot) pair has a row with a null checkout time. Otherwise the new row carries the payload under the next id |
| `Checkins.CheckInAsWritten` | app/routes/v1/checkin_routes.py:14-15 | As written, every check-in request that passes body validation ends in a 500 error |
| `Checkins.CheckInNameError` | app/routes/v1/checkin_routes.py:15-23 | On an empty table the as-written handler fails while the intended one admits the check-in |
| `Checkins.CheckinTable.CheckIn` | app/routes/v1/checkin_routes.py:10-27 | With an open row for the pair: 400 and nothing changes. Otherwise exactly one row is appended with the payload's ids and a fresh `checkin_id`, and existing rows are untouched. Keeps at most one open row per (user, spot) |
| `Checkins.CheckinTable.CheckOut` | app/routes/v1/checkin_routes.py:29-47 | Without an open row for the pair: 404 "No active check-in found for user at this study spot" and nothing changes. Otherwise exactly the matching open row gets a non-null checkout time and is returned, and every other row is unchanged. Keeps at most one open row per pair |
| `Checkins.ActiveCount` | app/routes/v1/checkin_routes.py:51-58 | The count is at most the number of rows, and it is 0 exactly when no row at the spot has a null checkout time |
| `Checkins.CloseOpen` | app/routes/v1/checkin_routes.py:44 | Afterwards the pair has no open row. Each row that was open for the pair now has the checkout time, and nothing else about it changes. Every other row is unchanged, and at most one open row per pair is kept |
| `Checkins.CheckinTable.GetActiveCheckins` | app/routes/v1/checkin_routes.py:49-59 | Answers the spot id and the number of rows at that spot with a null checkout time, and reads only |
| `Checkins.CheckInCount` | app/routes/v1/checkin_routes.py:22-27 | An insert raises a spot's active count by 1 exactly when the row is at that spot and its payload has no checkout time. Any other spot's count is unchanged |
| `Checkins.CheckOutCount` | app/routes/v1/checkin_routes.py:43-46 | A check-out lowers its own spot's count by 1 when an open row existed and leaves every other spot's count unchanged |
| `Checkins.CheckInThenOut` | app/routes/v1/checkin_routes.py:10-47 | A client that checks a pair in (with no checkout time) and then out again: if the check-in succeeds, the check-out succeeds and every spot's active count is back where it was |
| `Checkins.CheckInThenOutRestoresCount` | app/routes/v1/checkin_routes.py:22-46 | A successful check-in with a null checkout time, then the check-out of the same pair, leaves every spot's active count as it was |
| `Seqs.Page` | app/routes/v1/reviews_routes.py:72-73 | Skips `offset` rows and returns at most `limit` consecutive ones (exactly `min(limit, n - offset)` when `offset < n`) |
| `Reviews.Replace` | app/routes/v1/reviews_routes.py:181-182 | An update sets the four payload fields and keeps `id` and `created_at` |
| `Reviews.Out` | app/routes/v1/reviews_routes.py:53-61 | The response carries the stored id, spot, user, rating, comment and `created_at`. Its `user_name` is `None` exactly when no user has the review's `user_id`, otherwise that user's name |
| `Reviews.Render` | app/routes/v1/reviews_routes.py:77-91 | One response per row, in order, with the reviewer's name |
| `Reviews.PageIsNewestFirst` | app/routes/v1/reviews_routes.py:69-75 | A page of the id-descending rows has strictly decreasing ids |
| `Reviews.UpdateCanDuplicatePair` | app/routes/v1/reviews_routes.py:173-184 | An update can leave two reviews with the same (spot, user), because update does not re-check uniqueness |
| `Reviews.ReviewTable.Create` | app/routes/v1/reviews_routes.py:18-61 | Checks run in order: a rating outside 1..5 gives 422, a missing spot 404, a missing user 404, an existing (spot, user) review 400. Every failure leaves the table unchanged. Otherwise exactly one review holding the payload is appended under a fresh id, uniqueness per (spot, user) and ratings 1..5 are kept, and the answer names the reviewer |
| `Reviews.ReviewTable.List` | app/routes/v1/reviews_routes.py:63-91 | Bad `limit`/`offset` gives 422. Otherwise the result holds the newest-first reviews from position `offset` on, at most `limit` of them, with strictly decreasing ids |
| `Reviews.ReviewTable.ListForSpot` | app/routes/v1/reviews_routes.py:93-126 | 422 on bad parameters, then 404 "Study spot not found" for an unknown spot. Otherwise a newest-first page of exactly that spot's reviews |
| `Reviews.ReviewTable.ListByUser` | app/routes/v1/reviews_routes.py:128-161 | 422 on bad parameters, then 404 "User not found" for an unknown user. Otherwise a newest-first page of exactly that user's reviews |
| `Reviews.ReviewTable.Update` | app/routes/v1/reviews_routes.py:163-195 | Unknown id gives 404 "Review not found". A missing body then fails with 500. A changed spot or user is checked only when it differs, and a missing one gives 404. On success only that review changes: its four fields equal the payload and its id and `created_at` are kept. Ratings stay in 1..5 |
| `Reviews.ReviewTable.Delete` | app/routes/v1/reviews_routes.py:197-204 | Unknown id gives 404 and nothing changes. Otherwise exactly that review is removed and all others remain in order |
| `SpotSearch.FilterSpots` | frontend/src/components/StudySpotList.tsx:34-37 | A spot is kept iff its lowercased name contains the lowercased term or it has a description that does. The result is a subsequence of the spots: order is preserved and nothing is added. Each matching spot occurs as often as in the input, and no other spot occurs |
| `SpotSearch.View` | frontend/src/components/StudySpotList.tsx:103-125 | The empty state appears exactly when no spot matches. It says "No study spots found matching your search." exactly when a term is typed. With no term it says "No study spots available yet." with the invitation to add a spot, and then the list is empty. Otherwise the map (in map mode) or the cards show exactly the filtered spots |
| `SpotSearch.EmptyTermKeepsAll` | frontend/src/components/StudySpotList.tsx:34-37 | An empty term keeps every spot |
| `SpotSearch.SameLowerSameResult` | frontend/src/components/StudySpotList.tsx:35-36 | Terms with the same lower-case form select the same spots |
| `SpotSearch.CaseInsensitive` | frontend/src/components/StudySpotList.tsx:35-36 | The term in capitals or in lower case selects the same spots as the term itself |
| `SpotSearch.NoDescriptionNameOnly` | frontend/src/components/StudySpotList.tsx:36 | A spot without a description is kept exactly when its name matches |
| `SpotSearch.FilterTwiceIsOnce` | frontend/src/components/StudySpotList.tsx:34-37 | Filtering twice with the same term equals filtering once |
| `SpotSearch.NoSpotsMessageMeansNoSpots` | frontend/src/components/StudySpotList.tsx:103-112 | "No study spots available yet." with the invitation to add one is shown exactly when no term is typed and there are no spots |
| `SpotSearch.NoMatchMessageMeansNoMatch` | frontend/src/components/StudySpotList.tsx:103-107 | "No study spots found matching your search." is shown exactly when a term is typed and no spot matches it |
| `SpotSearch.ViewShowsFiltered` | frontend/src/components/StudySpotList.tsx:114-125 | When some spot matches, the list or the map shows exactly the filtered spots |

## Findings

| source | as written | input that shows it | evidently intended | confidence | as-written member | corrected member |
|---|---|---|---|---|---|---|
| app/routes/v1/checkin_routes.py:15 | The query (line 15) and the insert (line 23) read `data.studyspot_id` and `data.model_dump()`. The module never defines `data`, so every request that passes body validation raises `NameError` and the framework answers 500 | any valid check-in request, e.g. the first one on an empty table | read the `checkin` payload the handler receives | high; not executed | `Checkins.CheckInAsWritten` (discrepancy: `Checkins.CheckInNameError`) | `Checkins.CheckinTable.CheckIn` |

## Left out

- Framework and database plumbing is not modelled: sessions, `commit`/`refresh`, dependency injection and HTTP transport. Concurrent requests are out too, including the race between an existence check and the insert that follows it.
- Router mounting: `app/main.py` mounts only the users and study-spots routers, so the review and check-in handlers are not reachable in the app as shipped. The model treats every handler as reachable.
- Validation errors are one `Error(422, "Unprocessable Entity")`. The framework's list of error details is not modelled.
- Users.UserTable.Create: accepts any email string, because email-format validation is not modelled. The model's `email` stands for the address after `EmailStr` (app/schemas/user.py:5) has normalised it: that normalisation (surrounding whitespace, a `Name <addr>` wrapper, the case of the domain) is not modelled, so two raw addresses that differ only there count as distinct here, while the duplicate check at users_routes.py:11 compares them after normalisation. Roles are the two-value enum: the request schema types `role` as a plain string and leaves other values to the database enum, which is not modelled.
- Database-level constraints that no handler checks are not modelled. This covers the foreign keys of check-in rows and unique indexes acting on their own.
- `.first()` and `.all()` without `ORDER BY` use storage order: `.first()` picks the first matching row, and `list_users` and `list_study_spots` return the rows in the order they were inserted. The database does not promise that order. `ORDER BY id DESC` is the reverse of the id-ascending storage order.
- Timestamps are opaque values the caller supplies. This covers `created_at` and the checkout time written by `func.extract("epoch", func.now())`. Latitude and longitude are carried as `real` and never computed with. Float rounding is not modelled.
- Client lower-casing is ASCII-only. Full Unicode case mapping is not modelled.
- The client's fetching, loading and error display (`fetchSpots`, lines 17-32 and 45-65 of `StudySpotList.tsx`) is left out. So are the other components (cards, map, details page, add form, header) and the HTTP client wrapper.
- The client gets no average rating: the card shows a fixed text. No rating derivation is modelled.
- Photos are left out: there are no photo routes.
- The route files define no login, search, get-by-id or per-user check-in-status handler, so none is modelled.
- An omitted `limit` or `offset` becomes 100 or 0 before a list handler runs (reviews_routes.py:66-67). The list methods take the resolved values.
