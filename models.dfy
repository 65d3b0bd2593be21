/**
 * notes/models.py: the `SecretNote` model, its expiry predicate and its
 * view counter.
 */
module Models {
  import opened Wrappers

  /** A point in time, in whole seconds on the server's clock. */
  type Time = int

  /** A UUID, as the 128-bit number it denotes. */
  newtype Uuid = x: int | 0 <= x < 0x1_0000_0000_0000_0000_0000_0000_0000_0000

  /** The nil UUID 00000000-0000-0000-0000-000000000000. */
  const NilUuid: Uuid := 0

  /** Field defaults of the model. */
  const DefaultMaxViews: int := 1
  const DefaultViews: int := 0

  /** The persisted fields of one note, as a value. */
  datatype NoteRecord = NoteRecord(
    content: string,
    urlKey: Uuid,
    expirationTime: Option<Time>,
    maxViews: int,
    views: int,
    createdAt: Time)
  {
    /** The expiry time is set and has strictly passed. */
    predicate TimeExpired(now: Time) {
      expirationTime.Some? && now > expirationTime.value
    }

    /** The view count has strictly passed the allowed number of views. */
    predicate ViewsExhausted() {
      views > maxViews
    }

    /** The note must be deleted rather than shown. */
    predicate ExpiredAt(now: Time) {
      TimeExpired(now) || ViewsExhausted()
    }
  }

  /** A `SecretNote` row; `url_key` is not editable and `created_at` is set once. */
  class SecretNote {
    var content: string
    const urlKey: Uuid
    var expirationTime: Option<Time>
    var maxViews: int
    var views: int
    const createdAt: Time

    /** The current field values. */
    function Record(): NoteRecord
      reads this
    {
      NoteRecord(content, urlKey, expirationTime, maxViews, views, createdAt)
    }

    /**
     * A new instance: fields that are not given take the model's defaults
     * (one allowed view, no views yet, no expiry time).
     */
    constructor (urlKey: Uuid, content: string, maxViews: Option<int>, views: Option<int>,
                 expirationTime: Option<Time>, createdAt: Time)
      ensures Record() == NoteRecord(content, urlKey, expirationTime,
                                     maxViews.GetOr(DefaultMaxViews), views.GetOr(DefaultViews), createdAt)
      ensures maxViews.None? ==> this.maxViews == 1
      ensures views.None? ==> this.views == 0
    {
      this.content := content;
      this.urlKey := urlKey;
      this.expirationTime := expirationTime;
      this.maxViews := maxViews.GetOr(DefaultMaxViews);
      this.views := views.GetOr(DefaultViews);
      this.createdAt := createdAt;
    }

    /** `is_expired`: both comparisons are strict. */
    predicate IsExpired(now: Time)
      reads this
      ensures IsExpired(now) <==> Record().ExpiredAt(now)
      ensures expirationTime.Some? && now > expirationTime.value ==> IsExpired(now)
      ensures views > maxViews ==> IsExpired(now)
      ensures !IsExpired(now) <==> (expirationTime.None? || now <= expirationTime.value) && views <= maxViews
      ensures expirationTime.None? ==> (IsExpired(now) <==> views > maxViews)
      ensures expirationTime == Some(now) && views == maxViews ==> !IsExpired(now)
    {
      if expirationTime.Some? && now > expirationTime.value then
        true
      else if views > maxViews then
        true
      else
        false
    }

    /** `increment_view`: one more view, every other field as it was. */
    method IncrementView()
      modifies this
      ensures views == old(views) + 1
      ensures Record() == old(Record()).(views := old(views) + 1)
    {
      views := views + 1;
    }
  }
}
