/**
 * The rules the announcements router applies to one record: when it is active,
 * which dates a create accepts, how a partial update patches a stored record,
 * and the document a record is stored and returned as.
 */
module AnnouncementRules {
  import opened Errors
  import opened ObjectIds
  import opened Documents

  /** Timestamps are whole numbers on one clock; `now` is always passed in. */
  type Instant = int

  /** `datetime.fromisoformat`: the instant a string names, or None where it raises ValueError. */
  type DateParser = string -> Option<Instant>

  /** A stored announcement; `start` is absent when the document has no `start_date` key. */
  datatype Announcement = Announcement(
    message: string,
    expiration: Instant,
    start: Option<Instant>,
    createdAt: Instant,
    createdBy: string)

  /** The `active_only` query: either branch of its `$or`. Both bounds are inclusive. */
  predicate IsActive(a: Announcement, now: Instant) {
    (a.start.None? && a.expiration >= now) ||
    (a.start.Some? && a.start.value <= now && a.expiration >= now)
  }

  /** Whether `get_announcements(active_only)` lists the announcement. */
  predicate Listable(a: Announcement, activeOnly: bool, now: Instant) {
    !activeOnly || IsActive(a, now)
  }

  /** An announcement is active exactly inside the closed window [start, expiration]. */
  lemma ActiveWindow(a: Announcement, now: Instant)
    ensures IsActive(a, now) <==> a.expiration >= now && (a.start.None? || a.start.value <= now)
  {
  }

  /** Python truthiness of an optional string argument: given and not empty. */
  predicate Supplied(s: Option<string>) {
    s.Some? && s.value != ""
  }

  /**
   * The date checks of `create_announcement`: the parsed expiration and, when a
   * start string was supplied, the parsed start.
   */
  function CreateDates(expirationDate: string, startDate: Option<string>, now: Instant, parse: DateParser)
    : (r: Result<(Instant, Option<Instant>)>)
    ensures r.Ok? <==>
      parse(expirationDate).Some? && parse(expirationDate).value >= now &&
      (Supplied(startDate) ==>
        parse(startDate.value).Some? && parse(startDate.value).value <= parse(expirationDate).value)
    ensures r.Ok? ==>
      Some(r.value.0) == parse(expirationDate) &&
      (r.value.1.Some? <==> Supplied(startDate)) &&
      (Supplied(startDate) ==> r.value.1 == parse(startDate.value))
    ensures r.Ok? ==> r.value.0 >= now && (r.value.1.Some? ==> r.value.1.value <= r.value.0)
    ensures parse(expirationDate).None? ==> r == Err(InvalidDateFormat)
    ensures parse(expirationDate).Some? && parse(expirationDate).value < now ==> r == Err(ExpirationInPast)
    ensures parse(expirationDate).Some? && parse(expirationDate).value >= now && Supplied(startDate) ==>
      (parse(startDate.value).None? ==> r == Err(InvalidDateFormat)) &&
      (parse(startDate.value).Some? && parse(startDate.value).value > parse(expirationDate).value ==>
        r == Err(StartAfterExpiration))
    ensures r.Err? ==> r.error in {InvalidDateFormat, ExpirationInPast, StartAfterExpiration}
  {
    match parse(expirationDate)
    case None => Err(InvalidDateFormat)
    case Some(exp) =>
      if exp < now then Err(ExpirationInPast)
      else if !Supplied(startDate) then Ok((exp, None))
      else match parse(startDate.value)
        case None => Err(InvalidDateFormat)
        case Some(start) =>
          if start > exp then Err(StartAfterExpiration) else Ok((exp, Some(start)))
  }

  /** An announcement created without a start date is active from the moment it is created. */
  lemma CreatedWithoutStartIsActive(
    message: string, expirationDate: string, now: Instant, parse: DateParser, createdBy: string)
    requires CreateDates(expirationDate, None, now, parse).Ok?
    ensures IsActive(Announcement(message, CreateDates(expirationDate, None, now, parse).value.0, None, now, createdBy), now)
  {
  }

  /** The expiration a new start date is checked against: the one in the same call, else the stored one. */
  function EffectiveExpiration(stored: Announcement, expirationDate: Option<string>, parse: DateParser): Instant {
    if expirationDate.Some? && parse(expirationDate.value).Some? then parse(expirationDate.value).value
    else stored.expiration
  }

  /**
   * What `update_announcement` does to an existing record once the message has
   * passed `validate_message`: the record after its `$unset` and `$set`, or the
   * error it raises first.
   */
  function PatchAnnouncement(
    stored: Announcement, message: Option<string>, expirationDate: Option<string>,
    startDate: Option<string>, now: Instant, parse: DateParser): (r: Result<Announcement>)
    ensures r.Ok? <==>
      (expirationDate.Some? ==>
        parse(expirationDate.value).Some? && parse(expirationDate.value).value >= now) &&
      (Supplied(startDate) ==>
        parse(startDate.value).Some? &&
        parse(startDate.value).value <= EffectiveExpiration(stored, expirationDate, parse))
    ensures r.Ok? ==>
      r.value.createdAt == stored.createdAt && r.value.createdBy == stored.createdBy &&
      r.value.message == (if message.Some? then message.value else stored.message) &&
      r.value.expiration == EffectiveExpiration(stored, expirationDate, parse) &&
      (startDate.None? ==> r.value.start == stored.start) &&
      (startDate == Some("") ==> r.value.start == None) &&
      (Supplied(startDate) ==> r.value.start == parse(startDate.value))
    ensures r.Ok? && Supplied(startDate) ==> r.value.start.value <= r.value.expiration
    ensures r.Err? ==>
      r.error in {InvalidExpirationFormat, ExpirationInPast, InvalidStartFormat, StartAfterExpiration}
    ensures expirationDate.Some? && parse(expirationDate.value).None? ==> r == Err(InvalidExpirationFormat)
    ensures expirationDate.Some? && parse(expirationDate.value).Some? && parse(expirationDate.value).value < now ==>
      r == Err(ExpirationInPast)
    ensures ((expirationDate.Some? ==>
        parse(expirationDate.value).Some? && parse(expirationDate.value).value >= now) &&
      Supplied(startDate)) ==>
      (parse(startDate.value).None? ==> r == Err(InvalidStartFormat)) &&
      (parse(startDate.value).Some? &&
        parse(startDate.value).value > EffectiveExpiration(stored, expirationDate, parse) ==>
        r == Err(StartAfterExpiration))
  {
    var withMessage := if message.Some? then stored.(message := message.value) else stored;
    if expirationDate.Some? && parse(expirationDate.value).None? then Err(InvalidExpirationFormat)
    else if expirationDate.Some? && parse(expirationDate.value).value < now then Err(ExpirationInPast)
    else
      var withExpiration := withMessage.(expiration := EffectiveExpiration(stored, expirationDate, parse));
      if startDate.None? then Ok(withExpiration)
      else if startDate.value == "" then Ok(withExpiration.(start := None))
      else match parse(startDate.value)
        case None => Err(InvalidStartFormat)
        case Some(start) =>
          if start > withExpiration.expiration then Err(StartAfterExpiration)
          else Ok(withExpiration.(start := Some(start)))
  }

  /**
   * An update that supplies only a new expiration does not compare it with the
   * stored start date, so it can leave a start date after the expiration.
   */
  lemma ExpirationOnlyUpdateKeepsStart(stored: Announcement, expirationDate: string, now: Instant, parse: DateParser)
    requires parse(expirationDate).Some? && now <= parse(expirationDate).value
    ensures PatchAnnouncement(stored, None, Some(expirationDate), None, now, parse)
            == Ok(stored.(expiration := parse(expirationDate).value))
  {
  }

  /** A record's fields under their document keys, without any id. */
  function Fields(a: Announcement): (d: Doc)
    ensures MongoId !in d && Id !in d
  {
    map[Message := Text(a.message), ExpirationDate := Time(a.expiration),
        CreatedAt := Time(a.createdAt), CreatedBy := Text(a.createdBy)]
    + (if a.start.Some? then map[StartDate := Time(a.start.value)] else map[])
  }

  /** The document MongoDB holds for a record, keyed `_id`. */
  function StoredDocument(id: ObjectId, a: Announcement): Doc {
    Fields(a)[MongoId := Oid(id)]
  }

  /** The dictionary an endpoint returns for a record, keyed `id`. */
  function Listed(id: ObjectId, a: Announcement): Doc {
    Fields(a)[Id := Text(ObjectIdString(id))]
  }

  /** The dictionary an endpoint returns is `serialize_announcement` applied to the stored document. */
  lemma ListedIsSerialized(id: ObjectId, a: Announcement)
    ensures Listed(id, a) == Serialized(StoredDocument(id, a))
  {
    SerializedRenames(Fields(a), Oid(id));
  }

  /** A returned dictionary holds the record's fields under their own keys and its id's string under `id`. */
  lemma ListedFields(id: ObjectId, a: Announcement, d: Doc)
    requires d == Listed(id, a)
    ensures d.Keys == {Id, Message, ExpirationDate, CreatedAt, CreatedBy}
                      + (if a.start.Some? then {StartDate} else {})
    ensures d[Id] == Text(ObjectIdString(id))
    ensures d[Message] == Text(a.message) && d[ExpirationDate] == Time(a.expiration)
    ensures d[CreatedAt] == Time(a.createdAt) && d[CreatedBy] == Text(a.createdBy)
    ensures a.start.Some? ==> d[StartDate] == Time(a.start.value)
  {
  }

  /** The id inside a returned dictionary leads back to the record it came from. */
  lemma ListedIdRoundTrip(id: ObjectId, a: Announcement)
    ensures Id in Listed(id, a) && Listed(id, a)[Id].Text?
    ensures ParseObjectId(Listed(id, a)[Id].s) == Some(id)
  {
    ListedFields(id, a, Listed(id, a));
    ParseObjectIdString(id);
  }

  /** The `created_at` a returned dictionary carries (0 where it has none). */
  function CreatedAtOf(d: Doc): Instant {
    if CreatedAt in d && d[CreatedAt].Time? then d[CreatedAt].t else 0
  }

  lemma ListedCreatedAt(id: ObjectId, a: Announcement)
    ensures CreatedAtOf(Listed(id, a)) == a.createdAt
  {
    ListedFields(id, a, Listed(id, a));
  }

  /**
   * Serializing, in order, the records a newest-first cursor visits lists each
   * selected record once, newest first.
   */
  lemma ListingOfCursor(
    records: map<ObjectId, Announcement>, selection: set<ObjectId>, cursor: seq<ObjectId>, r: seq<Doc>)
    requires selection <= records.Keys
    requires |cursor| == |selection| && |r| == |cursor|
    requires forall i :: 0 <= i < |cursor| ==> cursor[i] in selection
    requires forall id :: id in selection ==> id in cursor
    requires forall i, j :: 0 <= i < j < |cursor| ==>
      records[cursor[i]].createdAt >= records[cursor[j]].createdAt
    requires forall k :: 0 <= k < |r| ==> r[k] == Listed(cursor[k], records[cursor[k]])
    ensures forall id :: id in selection ==> Listed(id, records[id]) in r
    ensures forall i :: 0 <= i < |r| ==> exists id :: id in selection && r[i] == Listed(id, records[id])
    ensures forall i, j :: 0 <= i < j < |r| ==> CreatedAtOf(r[i]) >= CreatedAtOf(r[j])
  {
    forall id | id in selection ensures Listed(id, records[id]) in r {
      var k :| 0 <= k < |cursor| && cursor[k] == id;
      assert r[k] == Listed(id, records[id]);
    }
    forall i | 0 <= i < |r| ensures exists id :: id in selection && r[i] == Listed(id, records[id]) {
      assert cursor[i] in selection && r[i] == Listed(cursor[i], records[cursor[i]]);
    }
    forall i, j | 0 <= i < j < |r| ensures CreatedAtOf(r[i]) >= CreatedAtOf(r[j]) {
      ListedCreatedAt(cursor[i], records[cursor[i]]);
      ListedCreatedAt(cursor[j], records[cursor[j]]);
    }
  }

  /**
   * Halfway through sorting `ids` newest first: `cursor` holds the ids taken
   * so far, once each and newest first, none older than any id still
   * `remaining`, and together they hold every id of `ids`.
   */
  predicate SortedPrefix(
    records: map<ObjectId, Announcement>, ids: set<ObjectId>, cursor: seq<ObjectId>, remaining: set<ObjectId>)
  {
    ids <= records.Keys && remaining <= ids &&
    |cursor| + |remaining| == |ids| &&
    (forall i :: 0 <= i < |cursor| ==> cursor[i] in ids && cursor[i] !in remaining) &&
    (forall id :: id in ids ==> id in remaining || id in cursor) &&
    (forall i, j :: 0 <= i < j < |cursor| ==> cursor[i] != cursor[j]) &&
    (forall i, j :: 0 <= i < j < |cursor| ==>
      records[cursor[i]].createdAt >= records[cursor[j]].createdAt) &&
    (forall i, o :: 0 <= i < |cursor| && o in remaining ==>
      records[cursor[i]].createdAt >= records[o].createdAt)
  }

  /** Taking a newest remaining id keeps the sorted prefix sorted. */
  lemma SortedPrefixStep(
    records: map<ObjectId, Announcement>, ids: set<ObjectId>, cursor: seq<ObjectId>,
    remaining: set<ObjectId>, id: ObjectId)
    requires SortedPrefix(records, ids, cursor, remaining)
    requires id in remaining && forall o :: o in remaining ==> records[o].createdAt <= records[id].createdAt
    ensures SortedPrefix(records, ids, cursor + [id], remaining - {id})
  {
    var next := cursor + [id];
    assert forall i :: 0 <= i < |cursor| ==> next[i] == cursor[i];
    assert next[|cursor|] == id;
  }

  /** Every non-empty set of stored ids has a newest member. */
  lemma {:induction false} NewestExists(records: map<ObjectId, Announcement>, ids: set<ObjectId>)
    requires ids != {} && ids <= records.Keys
    ensures exists id :: id in ids && forall o :: o in ids ==> records[o].createdAt <= records[id].createdAt
  {
    var x :| x in ids;
    if ids != {x} {
      var rest := ids - {x};
      NewestExists(records, rest);
      var y :| y in rest && forall o :: o in rest ==> records[o].createdAt <= records[y].createdAt;
      if records[x].createdAt <= records[y].createdAt {
        assert forall o :: o in ids ==> records[o].createdAt <= records[y].createdAt;
      } else {
        assert forall o :: o in ids ==> records[o].createdAt <= records[x].createdAt;
      }
    }
  }
}
