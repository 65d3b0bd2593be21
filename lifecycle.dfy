/**
 * The note lifecycle of notes/views.py as functions over the contents of
 * the note table: what `view_note` and `create_note` do to it and answer,
 * and what follows over a run of views.
 */
module Lifecycle {
  import opened Wrappers
  import opened Models
  import Forms

  /** The `SecretNote` table, keyed by `url_key`. */
  type Store = map<Uuid, NoteRecord>

  const SecondsPerHour: int := 3600

  /** What `view_note` shows for a key: the three templates and the 404. */
  datatype ViewResult = NotFound | Expired | Content(text: string, deleted: bool)

  /** What saving a new note gives: the created note's key, or a clash on the unique `url_key`. */
  datatype CreateResult = Created(key: Uuid) | KeyCollision

  /**
   * The invariant the two operations keep: every note sits under its own
   * `url_key`, and a note that has been shown at least once has not used up
   * more than its allowed views.
   */
  ghost predicate Consistent(store: Store) {
    forall k :: k in store ==>
      store[k].urlKey == k && (store[k].views == 0 || store[k].views <= store[k].maxViews)
  }

  /**
   * The two clock readings of one access to `view_note`: `is_expired` reads
   * the clock at the pre-check and again at the post-check.
   */
  datatype ClockReads = ClockReads(first: Time, second: Time)

  /**
   * One access to `view_note` for an existing or missing key: pre-check at
   * `clock.first`, count the view, post-check at `clock.second`.
   */
  function View(store: Store, key: Uuid, clock: ClockReads): (r: (Store, ViewResult))
    ensures r.1.NotFound? <==> key !in store
    ensures key !in store ==> r.0 == store
    ensures r.1.Expired? <==> key in store && store[key].ExpiredAt(clock.first)
    ensures r.1.Content? ==> key in store && !store[key].ExpiredAt(clock.first) && r.1.text == store[key].content
    ensures r.1.Content? ==> (r.1.deleted <==> store[key].(views := store[key].views + 1).ExpiredAt(clock.second))
    ensures key in r.0 <==> r.1.Content? && !r.1.deleted
    ensures key in r.0 ==> r.0[key] == store[key].(views := store[key].views + 1) && !r.0[key].ExpiredAt(clock.second)
    ensures forall k :: k != key ==> (k in r.0 <==> k in store) && (k in store ==> r.0[k] == store[k])
  {
    if key !in store then
      (store, NotFound)
    else
      var note := store[key];
      if note.ExpiredAt(clock.first) then
        (store - {key}, Expired)
      else
        var seen := note.(views := note.views + 1);
        if seen.ExpiredAt(clock.second) then
          (store - {key}, Content(seen.content, true))
        else
          (store[key := seen], Content(seen.content, false))
  }

  /**
   * The expiry time passing between the two clock readings: the content is
   * still shown, flagged as deleted, and the note is removed.
   */
  lemma ExpiryBetweenReadings(store: Store, key: Uuid, clock: ClockReads)
    requires key in store && store[key].expirationTime.Some?
    requires store[key].views < store[key].maxViews
    requires clock.first <= store[key].expirationTime.value < clock.second
    ensures View(store, key, clock) == (store - {key}, Content(store[key].content, true))
  {
  }

  /** The note `create_note` saves for a valid form. */
  function NewNote(cleaned: Forms.Cleaned, key: Uuid, now: Time): (n: NoteRecord)
    ensures n.urlKey == key && n.views == 0 && n.createdAt == now
    ensures n.content == cleaned.content && n.maxViews == cleaned.maxViews
    ensures cleaned.expirationHours.None? ==> n.expirationTime.None?
    ensures Forms.Validated(cleaned) && cleaned.expirationHours.Some? ==>
              n.expirationTime == Some(now + cleaned.expirationHours.value * SecondsPerHour)
    ensures Forms.Validated(cleaned) && n.expirationTime.Some? ==>
              now + SecondsPerHour <= n.expirationTime.value <= now + 72 * SecondsPerHour
    ensures Forms.Validated(cleaned) ==> !n.TimeExpired(now)
  {
    var hours := cleaned.expirationHours;
    NoteRecord(
      cleaned.content,
      key,
      if hours.Some? && hours.value != 0 then Some(now + hours.value * SecondsPerHour) else None,
      cleaned.maxViews,
      DefaultViews,
      now)
  }

  /** Saving the new note: refused when its key is already taken. */
  function Create(store: Store, cleaned: Forms.Cleaned, key: Uuid, now: Time): (r: (Store, CreateResult))
    ensures key in store ==> r == (store, KeyCollision)
    ensures key !in store ==> r.1 == Created(key) && r.0 == store[key := NewNote(cleaned, key, now)]
  {
    if key in store then (store, KeyCollision)
    else (store[key := NewNote(cleaned, key, now)], Created(key))
  }

  /** A view keeps the store invariant. */
  lemma ViewKeepsConsistent(store: Store, key: Uuid, clock: ClockReads)
    requires Consistent(store)
    ensures Consistent(View(store, key, clock).0)
  {
  }

  /** Creating a note keeps the store invariant. */
  lemma CreateKeepsConsistent(store: Store, cleaned: Forms.Cleaned, key: Uuid, now: Time)
    requires Consistent(store)
    ensures Consistent(Create(store, cleaned, key, now).0)
  {
  }

  /** Views of one key with the given clock readings, one after the other. */
  function ViewAll(store: Store, key: Uuid, times: seq<ClockReads>): (r: (Store, seq<ViewResult>))
    ensures |r.1| == |times|
    decreases |times|
  {
    if times == [] then
      (store, [])
    else
      var (next, result) := View(store, key, times[0]);
      var (last, results) := ViewAll(next, key, times[1..]);
      (last, [result] + results)
  }

  /** No clock reading in `times` is past the note's expiry time. */
  predicate NeverTimeExpired(note: NoteRecord, times: seq<ClockReads>) {
    forall i :: 0 <= i < |times| ==> !note.TimeExpired(times[i].first) && !note.TimeExpired(times[i].second)
  }

  /** How many views a note still answers with its content. */
  function Remaining(note: NoteRecord): nat {
    if note.views <= note.maxViews then note.maxViews - note.views + 1 else 0
  }

  /** How many of `results` show content. */
  function Shown(results: seq<ViewResult>): (n: nat)
    ensures n <= |results|
  {
    if results == [] then 0 else (if results[0].Content? then 1 else 0) + Shown(results[1..])
  }

  /**
   * With the expiry time not yet passed, a note with `views <= max_views`
   * answers the next `max_views - views + 1` views with its content, only
   * the last one flagged as deleted, and is then gone; nothing else changes.
   */
  lemma {:induction false} ServedUntilBudgetSpent(store: Store, key: Uuid, times: seq<ClockReads>)
    requires key in store && store[key].views <= store[key].maxViews
    requires NeverTimeExpired(store[key], times)
    requires |times| == Remaining(store[key])
    ensures ViewAll(store, key, times).1
            == seq(|times|, i => Content(store[key].content, i == |times| - 1))
    ensures ViewAll(store, key, times).0 == store - {key}
    decreases |times|
  {
    var note := store[key];
    var (next, result) := View(store, key, times[0]);
    if |times| == 1 {
      assert result == Content(note.content, true);
      assert next == store - {key};
    } else {
      assert result == Content(note.content, false);
      assert next[key] == note.(views := note.views + 1);
      assert NeverTimeExpired(next[key], times[1..]) by {
        assert forall i :: 0 <= i < |times| - 1 ==> times[1..][i] == times[i + 1];
      }
      ServedUntilBudgetSpent(next, key, times[1..]);
      assert next - {key} == store - {key};
      var rest := ViewAll(next, key, times[1..]).1;
      assert [result] + rest == seq(|times|, i => Content(note.content, i == |times| - 1));
    }
  }

  /**
   * Whatever the times, a note is shown at most `max_views - views + 1`
   * times, and a missing key is never shown.
   */
  lemma {:induction false} ShownAtMostRemaining(store: Store, key: Uuid, times: seq<ClockReads>)
    ensures Shown(ViewAll(store, key, times).1) <= if key in store then Remaining(store[key]) else 0
    decreases |times|
  {
    if times != [] {
      var (next, result) := View(store, key, times[0]);
      ShownAtMostRemaining(next, key, times[1..]);
      var results := ViewAll(store, key, times).1;
      assert results[1..] == ViewAll(next, key, times[1..]).1;
    }
  }

  /** Once the note is gone every further view is NotFound. */
  lemma {:induction false} GoneStaysGone(store: Store, key: Uuid, times: seq<ClockReads>)
    requires key !in store
    ensures ViewAll(store, key, times) == (store, seq(|times|, i => NotFound))
    decreases |times|
  {
    if times != [] {
      GoneStaysGone(store, key, times[1..]);
      assert View(store, key, times[0]) == (store, NotFound);
      assert ViewAll(store, key, times).1 == [NotFound] + ViewAll(store, key, times[1..]).1;
      assert [NotFound] + seq(|times| - 1, i => NotFound) == seq(|times|, i => NotFound);
    } else {
      assert seq(0, i => NotFound) == [];
    }
  }

  /**
   * A note created from a valid form without an expiry and with
   * `max_views = N >= 0` shows its content N + 1 times, only the last flagged
   * deleted, and answers NotFound from then on.
   */
  lemma CreatedNoteLifecycle(store: Store, cleaned: Forms.Cleaned, key: Uuid, created: Time,
                             times: seq<ClockReads>, later: seq<ClockReads>)
    requires key !in store && Forms.Validated(cleaned)
    requires cleaned.expirationHours.None? && cleaned.maxViews >= 0
    requires |times| == cleaned.maxViews + 1
    ensures var s := Create(store, cleaned, key, created).0;
            var (after, results) := ViewAll(s, key, times);
            results == seq(|times|, i => Content(cleaned.content, i == cleaned.maxViews))
            && after == store
            && ViewAll(after, key, later).1 == seq(|later|, i => NotFound)
  {
    var s := Create(store, cleaned, key, created).0;
    ServedUntilBudgetSpent(s, key, times);
    assert s - {key} == store;
    GoneStaysGone(store, key, later);
  }

  /**
   * A note saved with two allowed views and a 24-hour expiry and viewed
   * within the day shows its content three times, the third flagged
   * deleted, and the fourth view is NotFound.
   */
  lemma {:induction false} TwoViewNoteShownThreeTimes(store: Store, content: string, key: Uuid, created: Time,
                                   times: seq<ClockReads>, t: ClockReads)
    requires key !in store && |times| == 3
    requires forall i :: 0 <= i < 3 ==>
               times[i].first <= created + 24 * SecondsPerHour && times[i].second <= created + 24 * SecondsPerHour
    ensures var run := ViewAll(Create(store, Forms.Cleaned(content, 2, Some(24)), key, created).0, key, times);
            run.1 == [Content(content, false), Content(content, false), Content(content, true)]
            && View(run.0, key, t) == (store, NotFound)
  {
    var s := Create(store, Forms.Cleaned(content, 2, Some(24)), key, created).0;
    ServedUntilBudgetSpent(s, key, times);
    assert s - {key} == store;
  }

  /** A note with a negative `max_views` is never shown: its first view expires it. */
  lemma NegativeBudgetNeverShown(store: Store, cleaned: Forms.Cleaned, key: Uuid, created: Time, clock: ClockReads)
    requires key !in store && cleaned.maxViews < 0
    ensures var s := Create(store, cleaned, key, created).0;
            View(s, key, clock) == (store, Expired)
  {
    var s := Create(store, cleaned, key, created).0;
    assert s - {key} == store;
  }
}
