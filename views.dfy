/**
 * notes/views.py: the `index`, `create_note` and `view_note` views over the
 * note table, with the rate limiter's and the login check's verdicts given
 * as inputs.
 */
module Views {
  import opened Wrappers
  import opened Models
  import Forms
  import opened Lifecycle

  /** The request's HTTP method, as far as the rate limiter and the views tell them apart. */
  datatype HttpMethod = Get | Post | OtherMethod

  /** What a view answers. */
  datatype Response =
    | RateLimited                                          // the limiter refused the request (429)
    | RedirectToLogin                                      // `login_required` sent the client to log in
    | RedirectToIndex
    | RedirectToView(urlKey: string)
    | IndexPage
    | NoteForm(errors: map<Forms.Field, Forms.FieldError>)  // the creation form, with its errors
    | NoteCreated(key: Uuid)
    | ServerError                                          // an exception Django turns into a 500
    | NotePage(result: ViewResult)                         // a note, the expired page, or the 404

  /** Where `view_note` takes the key of the note from. */
  datatype KeySource = RouteKey(key: Uuid) | QueryKey(text: string) | NoKey

  /** A `url_key` query value Python treats as true: present and not empty. */
  predicate QueryGiven(query: Option<string>) {
    query.Some? && query.value != []
  }

  /** `index`: a request carrying a `url_key` query value is sent on to `view_note`. */
  function Index(verb: HttpMethod, allowed: bool, query: Option<string>): (page: Response)
    ensures page == RateLimited <==> verb == Get && !allowed
    ensures page != RateLimited ==> (page.RedirectToView? <==> QueryGiven(query))
    ensures page.RedirectToView? ==> query == Some(page.urlKey)
    ensures page in {RateLimited, IndexPage} || page.RedirectToView?
  {
    if verb == Get && !allowed then RateLimited
    else if QueryGiven(query) then RedirectToView(query.value)
    else IndexPage
  }

  /** The fallback to the `url_key` query value. */
  function QueryFallback(query: Option<string>): (s: KeySource)
    ensures s.NoKey? <==> !QueryGiven(query)
    ensures QueryGiven(query) ==> s == QueryKey(query.value)
  {
    if QueryGiven(query) then QueryKey(query.value) else NoKey
  }

  /**
   * The key test of `view_note` as written. The route hands over a
   * `uuid.UUID`, which is always true and never equal to the string
   * "00000000-0000-0000-0000-000000000000", so only a missing route key
   * falls back to the query value.
   */
  function ResolveKeyAsWritten(routeKey: Option<Uuid>, query: Option<string>): (s: KeySource)
    ensures routeKey.Some? ==> s == RouteKey(routeKey.value)
    ensures routeKey.None? ==> s == QueryFallback(query)
  {
    if routeKey.None? then QueryFallback(query) else RouteKey(routeKey.value)
  }

  /** The key test as intended: a missing or nil route key falls back to the query value. */
  function ResolveKey(routeKey: Option<Uuid>, query: Option<string>): (s: KeySource)
    ensures s.RouteKey? <==> routeKey.Some? && routeKey.value != NilUuid
    ensures s.RouteKey? ==> s.key == routeKey.value
    ensures s.QueryKey? ==> query == Some(s.text) && s.text != []
    ensures s.NoKey? <==> (routeKey.None? || routeKey == Some(NilUuid)) && !QueryGiven(query)
    ensures routeKey != Some(NilUuid) ==> s == ResolveKeyAsWritten(routeKey, query)
  {
    if routeKey.None? || routeKey.value == NilUuid then QueryFallback(query) else RouteKey(routeKey.value)
  }

  /**
   * The discrepancy: for the nil route key the code looks up the nil UUID,
   * which no stored note has, and answers 404 whatever the query says.
   */
  lemma NilRouteKeyIgnoredAsWritten(store: Store, text: string, clock: ClockReads)
    requires text != [] && NilUuid !in store
    ensures ResolveKeyAsWritten(Some(NilUuid), Some(text)) == RouteKey(NilUuid)
    ensures View(store, NilUuid, clock) == (store, NotFound)
    ensures ResolveKey(Some(NilUuid), Some(text)) == QueryKey(text)
  {
  }

  /**
   * The nil route key without a query value: the code looks the nil UUID up
   * and answers 404, while the corrected key test finds no key and sends
   * the client to the index.
   */
  lemma NilRouteKeyWithoutQuery(store: Store, clock: ClockReads)
    requires NilUuid !in store
    ensures ResolveKeyAsWritten(Some(NilUuid), None) == RouteKey(NilUuid)
    ensures View(store, NilUuid, clock) == (store, NotFound)
    ensures ResolveKey(Some(NilUuid), None) == NoKey
  {
  }

  /** `index` redirects exactly when `view_note` would fall back to the same query value. */
  lemma IndexAgreesWithFallback(allowed: bool, query: Option<string>)
    requires allowed
    ensures Index(Get, allowed, query).RedirectToView? <==> ResolveKeyAsWritten(None, query).QueryKey?
    ensures Index(Get, allowed, query).RedirectToView? ==>
              Index(Get, allowed, query).urlKey == ResolveKeyAsWritten(None, query).text
  {
  }

  /**
   * The note key a key source names; a query value goes through Django's
   * conversion of text to a UUID, given as `toUuid`.
   */
  function TargetKey(source: KeySource, toUuid: string -> Option<Uuid>): (k: Option<Uuid>)
    ensures source.RouteKey? ==> k == Some(source.key)
    ensures source.QueryKey? ==> k == toUuid(source.text)
    ensures source.NoKey? ==> k.None?
  {
    match source
    case RouteKey(key) => Some(key)
    case QueryKey(text) => toUuid(text)
    case NoKey => None
  }

  /** The `SecretNote` table: each row is an object, found by its `url_key`. */
  class NoteStore {
    var notes: map<Uuid, SecretNote>

    /** The rows' current field values. */
    ghost function Contents(): Store
      reads this, notes.Values
    {
      map k | k in notes :: notes[k].Record()
    }

    ghost predicate Valid()
      reads this, notes.Values
    {
      Consistent(Contents())
    }

    constructor ()
      ensures Valid() && Contents() == map[]
    {
      notes := map[];
    }

    /** Every row under its own key, so distinct keys hold distinct objects. */
    lemma DistinctRows(k: Uuid, j: Uuid)
      requires Valid() && k in notes && j in notes && k != j
      ensures notes[k] != notes[j]
    {
      assert Contents()[k].urlKey == k && Contents()[j].urlKey == j;
    }

    /**
     * The lifecycle step of `view_note` once the key is known: look the
     * note up, pre-check, count the view, post-check, delete or keep.
     */
    method ViewByKey(key: Uuid, clock: ClockReads) returns (result: ViewResult)
      requires Valid()
      modifies this, if key in notes then {notes[key]} else {}
      ensures Valid()
      ensures (Contents(), result) == View(old(Contents()), key, clock)
      ensures forall k :: k in notes ==> k in old(notes) && notes[k] == old(notes[k])
    {
      ViewKeepsConsistent(Contents(), key, clock);
      if key !in notes {
        return NotFound;
      }
      var note := notes[key];
      ghost var before := Contents();
      forall k | k in notes && k != key ensures notes[k] != note {
        DistinctRows(k, key);
      }
      if note.IsExpired(clock.first) {
        notes := notes - {key};
        assert Contents() == before - {key};
        return Expired;
      }
      note.IncrementView();
      assert Contents() == before[key := note.Record()];
      if note.IsExpired(clock.second) {
        var content := note.content;
        notes := notes - {key};
        assert Contents() == before - {key};
        return Content(content, true);
      }
      return Content(note.content, false);
    }

    /**
     * The saving step of `create_note`: a new row from the cleaned form,
     * expiring `expiration_hours` hours from now when that is given.
     */
    method SaveNote(cleaned: Forms.Cleaned, key: Uuid, now: Time) returns (result: CreateResult)
      requires Valid()
      modifies this
      ensures Valid()
      ensures (Contents(), result) == Create(old(Contents()), cleaned, key, now)
    {
      CreateKeepsConsistent(Contents(), cleaned, key, now);
      var note := new SecretNote(key, cleaned.content, Some(cleaned.maxViews), None, None, now);
      var hours := cleaned.expirationHours;
      if hours.Some? && hours.value != 0 {
        note.expirationTime := Some(now + hours.value * SecondsPerHour);
      }
      if key in notes {
        return KeyCollision;
      }
      ghost var before := Contents();
      notes := notes[key := note];
      assert Contents() == before[key := note.Record()];
      return Created(key);
    }

    /** `create_note`: login check, rate limit, form validation, save. */
    method CreateNote(authenticated: bool, verb: HttpMethod, allowed: bool,
                      input: Forms.FormInput, key: Uuid, now: Time) returns (page: Response)
      requires Valid()
      modifies this
      ensures Valid()
      ensures !authenticated ==> page == RedirectToLogin && Contents() == old(Contents())
      ensures authenticated && verb != OtherMethod && !allowed ==>
                page == RateLimited && Contents() == old(Contents())
      ensures authenticated && (verb == OtherMethod || allowed) ==>
                var form := Forms.Clean(input);
                if verb == Post && form.Success? then
                  var (store, result) := Create(old(Contents()), form.value, key, now);
                  Contents() == store && page == (if result.Created? then NoteCreated(key) else ServerError)
                else
                  Contents() == old(Contents())
                  && page == NoteForm(if verb == Post then form.error else map[])
    {
      if !authenticated {
        return RedirectToLogin;
      }
      if verb != OtherMethod && !allowed {
        return RateLimited;
      }
      if verb == Post {
        var form := Forms.Clean(input);
        if form.Success? {
          var result := SaveNote(form.value, key, now);
          return if result.Created? then NoteCreated(key) else ServerError;
        }
        return NoteForm(form.error);
      }
      return NoteForm(map[]);
    }

    /** `view_note`: rate limit, key fallback, then the lifecycle step. */
    method ViewNote(verb: HttpMethod, allowed: bool, routeKey: Option<Uuid>, query: Option<string>,
                    toUuid: string -> Option<Uuid>, clock: ClockReads) returns (page: Response)
      requires Valid()
      modifies this, notes.Values
      ensures Valid()
      ensures verb == Get && !allowed ==> page == RateLimited && Contents() == old(Contents())
      ensures !(verb == Get && !allowed) ==>
                var source := ResolveKeyAsWritten(routeKey, query);
                var target := TargetKey(source, toUuid);
                if source.NoKey? then
                  page == RedirectToIndex && Contents() == old(Contents())
                else if target.None? then
                  page == ServerError && Contents() == old(Contents())
                else
                  var (store, result) := View(old(Contents()), target.value, clock);
                  Contents() == store && page == NotePage(result)
    {
      if verb == Get && !allowed {
        return RateLimited;
      }
      var source := ResolveKeyAsWritten(routeKey, query);
      if source.NoKey? {
        return RedirectToIndex;
      }
      var target := TargetKey(source, toUuid);
      if target.None? {
        return ServerError;
      }
      var result := ViewByKey(target.value, clock);
      return NotePage(result);
    }
  }
}
