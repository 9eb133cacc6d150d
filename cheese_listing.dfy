/** The `CheeseListing` entity: a listing's title, description, price, publish
    flag, creation time and store-assigned id, with its setters, its getters
    and the read-time short description. */
module Entity {
  import opened Bytes
  import opened Wrappers
  import opened Nl2br

  /** The creation time: a clock reading, supplied by the caller as the
      current time when the listing is constructed. Nothing in the entity
      inspects it. */
  datatype Instant = Instant(ticks: int)

  /** How many bytes of the description the short description keeps. */
  const ShortLength: nat := 40

  /** The short description of a description that is set: the description
      itself when it has fewer than `ShortLength` bytes, otherwise its first
      `ShortLength` bytes and "...". */
  function Truncate(d: Bytes): (r: Bytes)
    ensures Min(|d|, ShortLength) <= |r| <= ShortLength + |Ellipsis|
    ensures r[..Min(|d|, ShortLength)] == d[..Min(|d|, ShortLength)]
  {
    if |d| < ShortLength then d else d[..ShortLength] + Ellipsis
  }

  /** A description shorter than the limit is returned unchanged. */
  lemma TruncateShort(d: Bytes)
    requires |d| < ShortLength
    ensures Truncate(d) == d
  {
  }

  /** A description of at least the limit is cut to exactly its first
      `ShortLength` bytes followed by "...", 43 bytes in all. */
  lemma TruncateLong(d: Bytes)
    requires |d| >= ShortLength
    ensures Truncate(d) == d[..ShortLength] + Ellipsis
    ensures |Truncate(d)| == 43
    ensures Truncate(d)[..ShortLength] == d[..ShortLength]
  {
  }

  /** At exactly the limit nothing is cut off, yet "..." is still appended. */
  lemma TruncateBoundary(d: Bytes)
    requires |d| == ShortLength
    ensures Truncate(d) == d + Ellipsis
    ensures Truncate(d) != d
  {
    assert d[..ShortLength] == d;
  }

  /** The short description equals the description exactly when the
      description is under the limit or is already a 43-byte string ending in
      "..." whose first 40 bytes are kept. */
  lemma TruncateFixedPoint(d: Bytes)
    ensures Truncate(d) == d <==>
      |d| < ShortLength || (|d| == ShortLength + |Ellipsis| && d[ShortLength..] == Ellipsis)
  {
    if |d| >= ShortLength && Truncate(d) == d {
      assert d[ShortLength..] == Truncate(d)[ShortLength..];
    }
    if |d| == ShortLength + |Ellipsis| && d[ShortLength..] == Ellipsis {
      assert d == d[..ShortLength] + d[ShortLength..];
    }
  }

  /** Shortening a short description changes nothing. */
  lemma TruncateIdempotent(d: Bytes)
    ensures Truncate(Truncate(d)) == Truncate(d)
  {
    if |d| >= ShortLength {
      TruncateFixedPoint(Truncate(d));
    }
  }

  /** The whole state of a listing, as a value. */
  datatype ListingState = ListingState(
    id: Option<int64>,
    title: Option<Bytes>,
    description: Option<Bytes>,
    price: Option<int64>,
    createdAt: Instant,
    isPublished: bool)

  class CheeseListing {
    var id: Option<int64>
    var title: Option<Bytes>
    var description: Option<Bytes>
    var price: Option<int64>
    var createdAt: Instant
    var isPublished: bool

    function State(): ListingState
      reads this
    {
      ListingState(id, title, description, price, createdAt, isPublished)
    }

    /** `new CheeseListing($title)`, with `now` the current time. The id and
        the other fields start out null; `isPublished` starts out false. */
    constructor (title: Option<Bytes>, now: Instant)
      ensures State() == ListingState(None, title, None, None, now, false)
      ensures GetTitle() == title && GetCreatedAt() == now && !GetIsPublished()
      ensures GetDescription() == None && GetPrice() == None && GetId() == None
      ensures GetShortDescription() == None
    {
      this.id := None;
      this.title := title;
      this.description := None;
      this.price := None;
      this.createdAt := now;
      this.isPublished := false;
    }

    /** The `id` component of the listing's state. */
    function GetId(): (r: Option<int64>)
      reads this
      ensures r == State().id
    {
      id
    }

    /** The `title` component of the listing's state. */
    function GetTitle(): (r: Option<Bytes>)
      reads this
      ensures r == State().title
    {
      title
    }

    /** The `description` component of the listing's state. */
    function GetDescription(): (r: Option<Bytes>)
      reads this
      ensures r == State().description
    {
      description
    }

    /** The `price` component of the listing's state. */
    function GetPrice(): (r: Option<int64>)
      reads this
      ensures r == State().price
    {
      price
    }

    /** The `createdAt` component of the listing's state. */
    function GetCreatedAt(): (r: Instant)
      reads this
      ensures r == State().createdAt
    {
      createdAt
    }

    /** The `isPublished` component of the listing's state. */
    function GetIsPublished(): (r: bool)
      reads this
      ensures r == State().isPublished
    {
      isPublished
    }

    /** The short description of the current description. PHP's
        `strlen(null)` is 0, so a null description comes back null. */
    function GetShortDescription(): (r: Option<Bytes>)
      reads this
      ensures r.None? <==> description.None?
      ensures description.Some? && |description.value| < ShortLength ==> r == description
      ensures description.Some? && |description.value| >= ShortLength ==>
        r == Some(description.value[..ShortLength] + Ellipsis)
    {
      match description
      case None => None
      case Some(d) => Some(Truncate(d))
    }

    method SetTitle(title: Bytes) returns (self: CheeseListing)
      modifies this
      ensures self == this
      ensures State() == old(State()).(title := Some(title))
      ensures GetTitle() == Some(title)
    {
      this.title := Some(title);
      self := this;
    }

    /** Stores the description verbatim. */
    method SetDescription(description: Bytes) returns (self: CheeseListing)
      modifies this
      ensures self == this
      ensures State() == old(State()).(description := Some(description))
      ensures GetDescription() == Some(description)
    {
      this.description := Some(description);
      self := this;
    }

    /** Stores the description in its nl2br form: unchanged when it holds no
        line break, and always such that deleting the markers recovers it. */
    method SetTextDescription(description: Bytes) returns (self: CheeseListing)
      modifies this
      ensures self == this
      ensures State() == old(State()).(description := Some(Nl2Br(description)))
      ensures NoBreak(description) <==> GetDescription() == Some(description)
      ensures StripMarkers(GetDescription().value) == description
    {
      this.description := Some(Nl2Br(description));
      self := this;
      Nl2BrFixedPoint(description);
      StripNl2Br(description);
    }

    method SetPrice(price: int64) returns (self: CheeseListing)
      modifies this
      ensures self == this
      ensures State() == old(State()).(price := Some(price))
      ensures GetPrice() == Some(price)
    {
      this.price := Some(price);
      self := this;
    }

    method SetIsPublished(isPublished: bool) returns (self: CheeseListing)
      modifies this
      ensures self == this
      ensures State() == old(State()).(isPublished := isPublished)
      ensures GetIsPublished() == isPublished
    {
      this.isPublished := isPublished;
      self := this;
    }
  }

  /** Both description setters write the same field, so the one that runs
      last decides what is stored. Here `setDescription` runs last and its
      argument is stored verbatim; nothing else of the listing changes. */
  method LastDescriptionWins(listing: CheeseListing, text: Bytes, raw: Bytes)
    modifies listing
    ensures listing.GetDescription() == Some(raw)
    ensures listing.State() == old(listing.State()).(description := Some(raw))
  {
    var l := listing.SetTextDescription(text);
    l := l.SetDescription(raw);
  }

  /** The other order: `setTextDescription` runs last and its conversion
      replaces the verbatim value; nothing else of the listing changes. */
  method LastTextDescriptionWins(listing: CheeseListing, raw: Bytes, text: Bytes)
    modifies listing
    ensures listing.GetDescription() == Some(Nl2Br(text))
    ensures listing.State() == old(listing.State()).(description := Some(Nl2Br(text)))
  {
    var l := listing.SetDescription(raw);
    l := l.SetTextDescription(text);
  }

  /** A listing built and then edited through the fluent setters. */
  method Scenario(title: Bytes, other: Bytes, price: int64, now: Instant)
  {
    var listing := new CheeseListing(Some(title), now);
    assert listing.GetShortDescription() == None;
    var l := listing.SetTitle(other);
    l := l.SetPrice(price);
    l := l.SetIsPublished(true);
    assert l == listing;
    assert listing.State() == ListingState(None, Some(other), None, Some(price), now, true);
    assert [LF][1..] == [] && Nl2Br([LF]) == Marker + [LF];
    l := l.SetTextDescription([LF]);
    assert listing.GetDescription() == Some(Marker + [LF]);
    assert listing.GetShortDescription() == Some(Marker + [LF]);
  }
}
