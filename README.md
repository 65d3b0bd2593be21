# Self-destructing secret notes: a Dafny model of the note lifecycle

This project models the core of a small Django application. A logged-in user
creates a text note with a limit on how many times it may be viewed and,
optionally, a number of hours after which it expires. The note gets a random
`url_key`. Anyone holding the key can view the note until it expires by time or
by view count. A note found expired when it is looked up is deleted.

Modules, one per source file or concern:

- `Wrappers` (wrappers.dfy): `Option` and `Result`.
- `Models` (models.dfy): notes/models.py. `Uuid` is a 128-bit number. `Time` is
  an integer count of seconds. `NoteRecord` holds the field values of a note.
  The class `SecretNote` holds the same fields as a mutable row, with
  `IsExpired` and `IncrementView`.
- `Forms` (forms.dfy): notes/form.py. `SecretNoteForm` becomes a pure cleaning
  function. It includes the field behaviour Django supplies: text fields are
  stripped of whitespace and must not contain NUL characters, required fields
  must be non-empty, and the hours field is bounded by `min_value`/`max_value`.
- `Lifecycle` (lifecycle.dfy): the pure specification of the note table
  (`Store`, a map from `url_key` to `NoteRecord`). It holds `View` (one access
  to `view_note`) and `Create` (saving a new note), the invariant they keep,
  and lemmas about runs of views.
- `Views` (views.dfy): notes/views.py. `NoteStore` is a class whose field `notes`
  maps each `url_key` to its `SecretNote` object. Its methods are proved
  against `Lifecycle.View` and `Lifecycle.Create`. The module also holds the
  `index` decision and the key fallback of `view_note`.

Time, the freshly generated UUID, the rate limiter's verdict and the login
check are inputs of the operations. They are not computed by the model.

## Boundary behaviour

The model follows the code. notes/models.py:19 expires a note when
`views > max_views`. The comparison is strict. The view counter is incremented
before the second check (notes/views.py:56-57). So a note with `max_views = N`
shows its content N + 1 times. The first N answers have `deleted = false`, the
(N+1)-th has `deleted = true`, and the note is removed. `Lifecycle.ServedUntilBudgetSpent`,
`Lifecycle.CreatedNoteLifecycle` and `Lifecycle.TwoViewNoteShownThreeTimes`
prove this.

Several tests expect the note to expire one view earlier (`views >= max_views`):

- notes/tests.py:18-21 expects a note with `views = 1`, `max_views = 1` to be
  expired. `SecretNote.IsExpired` proves it is not.
- notes/tests.py:36 expects the same after two increments with `max_views = 2`.
- notes/tests.py:86-89 and notes/integration_tests.py:33-38 expect the second
  view of a two-view note to be the deleting one. The code deletes on the third.

`max_views` has no lower bound (notes/models.py:11, notes/form.py:16).
`max_views = 0` shows the note once, with `deleted = true`. A negative value
means the note is never shown: its first view answers Expired
(`Lifecycle.NegativeBudgetNeverShown`).

## Model

| member | source | states |
|---|---|---|
| `Models.SecretNote.constructor` | notes/models.py:7-13 | a new note has the given key, content and expiry; `max_views` defaults to 1 and `views` to 0 |
| `Models.SecretNote.IsExpired` | notes/models.py:15-22 | agrees with `Models.NoteRecord.ExpiredAt`, the expiry predicate every `Lifecycle` function and lemma uses, on the row's field values; expired exactly when the expiry time is set and strictly passed, or `views > max_views`; at `now == expiration_time` with `views == max_views` the note is not expired; without an expiry time only the view count decides |
| `Models.SecretNote.IncrementView` | notes/models.py:24-26 | `views` goes up by exactly one and every other field is unchanged |
| `Forms.LeadingSpaces` | notes/models.py:8 | the whitespace prefix that stripping `content` removes: all of it is whitespace and the next character is not |
| `Forms.TrailingSpaces` | notes/models.py:8 | the whitespace suffix that stripping `content` removes: all of it is whitespace and the character before it is not |
| `Forms.Strip` | notes/models.py:8 | the stripped text is empty exactly when the input is all whitespace; otherwise it is the input minus its whitespace ends, starting and ending with a non-space |
| `Forms.CleanContent` | notes/models.py:8 | content is required (`blank` is not allowed): all-whitespace input fails with Required; content is accepted exactly when it is not all whitespace and its stripped text has no NUL, otherwise it fails with NullCharacters; accepted content is the stripped text, non-empty |
| `Forms.CleanMaxViews` | notes/models.py:11 | `max_views` is required (blank fails with Required), other text fails with NotAWholeNumber, and every whole number is accepted as is, 0 and negatives included |
| `Forms.CleanExpirationHours` | notes/form.py:7-12 | `expiration_hours` is optional: blank gives no value; a whole number in [1, 72] is accepted as that number; below 1 fails with BelowMinimum(1) and above 72 with AboveMaximum(72); other text is not a whole number |
| `Forms.Clean` | notes/form.py:6-17 | the form is valid exactly when no field fails; the error dictionary has one entry per failing field, holding that field's own error; valid data is exactly each field's cleaned value (the stripped content, the whole `max_views`, the hours or none) and meets the field constraints |
| `Forms.AcceptsExample` | notes/tests.py:40-43 | content "Test note", 5 views, 24 hours is accepted unchanged |
| `Forms.RejectsExampleWithTwoErrors` | notes/tests.py:45-49 | empty content, 0 views, 100 hours gives exactly two errors (content required, hours above 72) |
| `Lifecycle.View` | notes/views.py:50-64 | NotFound exactly for a missing key, store untouched; Expired exactly when the note is expired at the first clock reading, and it is removed; content is returned only for a note not expired then and equals its stored content; `deleted` holds exactly when the counted view expires it at the second clock reading; the note stays, with one more view and not expired, exactly when `deleted` is false; every other key is untouched |
| `Lifecycle.NewNote` | notes/views.py:27-34 | the saved note has the form's content and `max_views`, no views yet and the given key; expiry is unset without hours and `now + hours` otherwise, so between 1 and 72 hours ahead and not yet passed |
| `Lifecycle.Create` | notes/views.py:27-34 | a key already taken (`url_key` is unique, notes/models.py:9) gives KeyCollision with the store unchanged; otherwise the answer is `Created` with that key and exactly the new note is added |
| `Lifecycle.ExpiryBetweenReadings` | notes/views.py:52-60 | a note whose expiry time falls between the two clock readings of one view, with views to spare, is shown once more flagged deleted and removed |
| `Lifecycle.ServedUntilBudgetSpent` | notes/views.py:52-64 | with no clock reading past its expiry time, a note with `views <= max_views` answers the next `max_views - views + 1` views with its content, only the last flagged deleted, and is then gone, the rest of the store unchanged |
| `Lifecycle.ShownAtMostRemaining` | notes/views.py:52-64 | at whatever clock readings, a note is shown at most `max_views - views + 1` times, and a missing key never |
| `Lifecycle.GoneStaysGone` | notes/views.py:50 | views of a missing key are all NotFound and change nothing |
| `Lifecycle.CreatedNoteLifecycle` | notes/views.py:30-64 | a note created without expiry and with `max_views = N >= 0` is shown N + 1 times, the last flagged deleted; afterwards the store is as before creation and every view is NotFound |
| `Lifecycle.TwoViewNoteShownThreeTimes` | notes/views.py:30-64 | a note saved like the one of notes/integration_tests.py:15-38 (two views, 24 hours) and viewed within the day is shown three times, the third flagged deleted, and the fourth view is NotFound |
| `Lifecycle.NegativeBudgetNeverShown` | notes/models.py:19-20 | a note created with negative `max_views` is removed on its first view, which answers Expired |
| `Views.Index` | notes/views.py:12-18 | a rate-limited GET is refused; otherwise `index` redirects to `view_note` exactly when a non-empty `url_key` query value is given, carrying that value |
| `Views.QueryFallback` | notes/views.py:46-48 | a present, non-empty query value is used as the key; otherwise there is no key and the request goes back to the index |
| `Views.ResolveKeyAsWritten` | notes/views.py:44-48 | as written: any route key is used as given, and only a missing one falls back to the query value |
| `Views.ResolveKey` | notes/views.py:44-48 | as intended: a route key is used exactly when present and not nil; a missing or nil key falls back to a non-empty query value; without one there is no key, so the client is sent to the index as lines 47-48 do (notes/e2e_tests.py:108-113 expects a 404 for the nil key, which only the code as written gives); agrees with the code on every non-nil key |
| `Views.NilRouteKeyIgnoredAsWritten` | notes/views.py:45 | for the nil route key and a query value, the code looks up the nil UUID and answers NotFound; the intended test uses the query value |
| `Views.NilRouteKeyWithoutQuery` | notes/e2e_tests.py:108-113 | for the nil route key and no query value, the code looks up the nil UUID and answers NotFound, the 404 the test expects; the corrected key test finds no key |
| `Views.IndexAgreesWithFallback` | notes/views.py:14-16 | for an admitted GET, `index` redirects exactly when `view_note` would fall back to the query value, and to the same value |
| `Views.TargetKey` | notes/views.py:46-50 | a route key names its own note; a query value names the note Django's text-to-UUID conversion gives, or none when it is rejected; a missing key names none |
| `Views.NoteStore.DistinctRows` | notes/models.py:9 | `url_key` is unique: distinct keys hold distinct note objects |
| `Views.NoteStore.ViewByKey` | notes/views.py:50-64 | the new table and the answer are those of `Lifecycle.View`; the invariant is kept; only the viewed note's row is touched |
| `Views.NoteStore.SaveNote` | notes/views.py:27-34 | the new table and the answer are those of `Lifecycle.Create`; the invariant is kept |
| `Views.NoteStore.CreateNote` | notes/views.py:21-40 | a client that is not logged in is redirected to log in; a refused GET or POST gets the rate-limit page; a valid POST saves the note as `Lifecycle.Create` says; an invalid POST re-shows the form with its errors; a GET shows an empty form; nothing else changes the table |
| `Views.NoteStore.ViewNote` | notes/views.py:43-64 | a refused GET gets the rate-limit page; the key is chosen as the code does (`Views.ResolveKeyAsWritten`, so a nil route key is looked up as it is); with no key the client is sent to the index; a query value Django cannot read as a UUID is a server error; otherwise the table and the answer are those of `Lifecycle.View` with the view's two clock readings |

`Lifecycle.ViewKeepsConsistent` and `Lifecycle.CreateKeepsConsistent` show that
both operations keep the table invariant `Lifecycle.Consistent`. The invariant
says every note sits under its own `url_key`. It also says a note that has
been shown has not used more than `max_views` views. `NoteStore.Valid` is that
invariant.

## Findings

| source | as written | input that shows it | evidently intended | confidence | as-written member | corrected member |
|---|---|---|---|---|---|---|
| notes/views.py:45 | `url_key` arrives from the `uuid` path converter as a `uuid.UUID`. `not url_key` is false for every UUID. A UUID never compares equal to the string `"00000000-0000-0000-0000-000000000000"`. So the fallback to the query value never runs for a routed key. | `/note/00000000-0000-0000-0000-000000000000/?url_key=K` looks up the nil UUID and answers 404 instead of showing note K | a nil route key with a non-empty `url_key` query value uses that value; a nil key without one is left open, since lines 47-48 would redirect it to the index while notes/e2e_tests.py:108-113 expects the 404 the code gives | medium: the comparison cannot succeed, but the one test of the nil key checks only the no-query case; not executed | `Views.ResolveKeyAsWritten`, shown by `Views.NilRouteKeyIgnoredAsWritten` | `Views.ResolveKey` |

`NoteStore.ViewNote` follows the code and uses `ResolveKeyAsWritten`. `ResolveKey` is the
intended key test; it agrees with `ResolveKeyAsWritten` on every key but the nil one.
For the nil key without a query value the two differ as well: the code answers 404, as
notes/e2e_tests.py:108-113 expects, and `ResolveKey` redirects to the index
(`Views.NilRouteKeyWithoutQuery`).

## Left out

- Rate limiting: the `django_ratelimit` counter is not shown. Its verdict is the
  input `allowed`, which matters only for the HTTP methods each decorator
  lists. A refused request leaves the table unchanged.
- Authentication: `@login_required` is the input `authenticated`. `register`,
  login and logout belong to Django's auth.
- `note.user = request.user` (notes/views.py:28) is left out. `SecretNote` has
  no user field, so the value is never saved.
- Templates: each rendered page or redirect is a `Views.Response` value.
- Persistence: the ORM's `save()` and `delete()` are not modelled as separate
  steps. A row is the object held in `NoteStore.notes`. The only storage
  failure modelled is the unique-key clash on insert. Other database errors
  are not.
- Clock: `timezone.now()` is a parameter, in whole seconds. `view_note` reads
  it at most twice, once per `is_expired` call (notes/models.py:16): only when
  `expiration_time` is set, and only once when the first check finds the note
  expired. The two readings are the `Lifecycle.ClockReads` of a view. A
  reading the source skips is never used by the model either, so its value
  has no effect. In `create_note`,
  `created_at` takes the same `now` as the expiry computation, though Django
  reads the clock again when saving.
- Key generation: the `uuid4` value is the parameter `key`. The version-4 bit
  layout of section 4.4 of RFC 4122 and the randomness are not modelled.
- Text to UUID conversion: Django converts a query value to a UUID. That
  conversion is the parameter `toUuid`. A value it rejects is a server error.
  The route converter's own parsing of the path, where a malformed path gives
  404, is routing and is left out.
- `Views.Index`: does not model `reverse()` rejecting a malformed query value
  when it builds the redirect.
- Form input parsing: the text-to-integer parsing of Django's `IntegerField` is
  summarised by `Forms.IntInput` (blank, whole number, other text).
- `Forms.CleanMaxViews`: does not model the database backend's integer range
  checks that model validation may add. The backend settings are not part of
  the model.
- `Views.NoteStore.Valid`: covers tables built by `create_note` and
  `view_note`. Rows inserted directly through the ORM, as some tests do, may
  break the view-count part of the invariant. `Lifecycle.View` and its lemmas
  do not assume the invariant.
- Concurrent views of the same note racing on `views` are not modelled. The
  model is sequential.
- notes/middleware.py (the 429 rendering), notes/urls.py (the route table),
  `__str__`, and the test, end-to-end and settings files are not part of this
  model.
