/**
 * The announcements router over its two collections: the announcements, keyed
 * by ObjectId, and the usernames of the teachers allowed to change them.
 * Each endpoint is a member of AnnouncementStore; FastAPI's `Depends(verify_teacher)`
 * runs before an endpoint's body, so authentication errors come first.
 */
module AnnouncementRouter {
  import opened Errors
  import opened ObjectIds
  import opened Documents
  import opened Messages
  import opened AnnouncementRules

  const DeletedMessage := "Announcement deleted successfully"

  class AnnouncementStore {
    /** `announcements_collection` */
    var records: map<ObjectId, Announcement>
    /** The `_id` of every document in `teachers_collection` */
    var teachers: set<string>

    constructor (teachers: set<string>)
      ensures records == map[] && this.teachers == teachers
    {
      records := map[];
      this.teachers := teachers;
    }

    /** `verify_teacher`: the authenticated username, or HTTP 401. */
    function VerifyTeacher(username: Option<string>): (r: Result<string>)
      reads this
      ensures r.Ok? <==> Supplied(username) && username.value in teachers
      ensures r.Ok? ==> r.value == username.value
      ensures !Supplied(username) ==> r == Err(AuthenticationRequired)
      ensures Supplied(username) && username.value !in teachers ==> r == Err(InvalidCredentials)
    {
      if !Supplied(username) then Err(AuthenticationRequired)
      else if username.value !in teachers then Err(InvalidCredentials)
      else Ok(username.value)
    }

    /** The ids of the records `get_announcements(active_only)` returns. */
    function Selection(activeOnly: bool, now: Instant): set<ObjectId>
      reads this
    {
      set id | id in records && Listable(records[id], activeOnly, now)
    }

    /**
     * The cursor `find(query).sort("created_at", -1)` walks: each of `ids` once,
     * newest `created_at` first (records with equal times in either order).
     */
    method NewestFirst(ids: set<ObjectId>) returns (cursor: seq<ObjectId>)
      requires ids <= records.Keys
      ensures |cursor| == |ids|
      ensures forall i :: 0 <= i < |cursor| ==> cursor[i] in ids
      ensures forall id :: id in ids ==> id in cursor
      ensures forall i, j :: 0 <= i < j < |cursor| ==> cursor[i] != cursor[j]
      ensures forall i, j :: 0 <= i < j < |cursor| ==>
        records[cursor[i]].createdAt >= records[cursor[j]].createdAt
    {
      var remaining := ids;
      cursor := [];
      while remaining != {}
        invariant SortedPrefix(records, ids, cursor, remaining)
        decreases |remaining|
      {
        NewestExists(records, remaining);
        var id :| id in remaining &&
          forall o :: o in remaining ==> records[o].createdAt <= records[id].createdAt;
        SortedPrefixStep(records, ids, cursor, remaining, id);
        cursor := cursor + [id];
        remaining := remaining - {id};
      }
    }

    /**
     * `get_announcements`: every selected record exactly once, serialized,
     * newest `created_at` first. An absent `active_only` means true, as the
     * query parameter's default does.
     */
    method GetAnnouncements(activeOnly: Option<bool>, now: Instant) returns (r: seq<Doc>)
      ensures |r| == |Selection(activeOnly.GetOr(true), now)|
      ensures forall id :: id in Selection(activeOnly.GetOr(true), now) ==> Listed(id, records[id]) in r
      ensures forall i :: 0 <= i < |r| ==>
        exists id :: id in Selection(activeOnly.GetOr(true), now) && r[i] == Listed(id, records[id])
      ensures forall i, j :: 0 <= i < j < |r| ==> CreatedAtOf(r[i]) >= CreatedAtOf(r[j])
    {
      var selection := Selection(activeOnly.GetOr(true), now);
      var cursor := NewestFirst(selection);
      r := [];
      for i := 0 to |cursor|
        invariant |r| == i
        invariant forall k :: 0 <= k < i ==> r[k] == Listed(cursor[k], records[cursor[k]])
      {
        r := r + [Listed(cursor[i], records[cursor[i]])];
      }
      ListingOfCursor(records, selection, cursor, r);
    }

    /** `get_announcement`: the serialized record, HTTP 400 for a malformed id, HTTP 404 for a missing one. */
    function GetAnnouncement(announcementId: string): (r: Result<Doc>)
      reads this
      ensures r.Ok? <==> ParseObjectId(announcementId).Some? && ParseObjectId(announcementId).value in records
      ensures r.Ok? ==> r.value == Listed(ParseObjectId(announcementId).value, records[ParseObjectId(announcementId).value])
      ensures ParseObjectId(announcementId).None? ==> r == Err(InvalidId)
      ensures r.Err? && ParseObjectId(announcementId).Some? ==> r == Err(NotFound)
    {
      match ParseObjectId(announcementId)
      case None => Err(InvalidId)
      case Some(id) => if id in records then Ok(Listed(id, records[id])) else Err(NotFound)
    }

    /** The `id` a returned dictionary carries fetches that same dictionary back. */
    lemma GetListedId(id: ObjectId)
      requires id in records
      ensures GetAnnouncement(Listed(id, records[id])[Id].s) == Ok(Listed(id, records[id]))
    {
      ListedIdRoundTrip(id, records[id]);
    }

    /**
     * `create_announcement`: after authentication, message and date checks,
     * inserts one record under the id MongoDB assigns (`newId`); inserting under
     * an id already taken fails like any other `insert_one` error, with HTTP 500.
     */
    method Create(
      message: string, expirationDate: string, startDate: Option<string>,
      username: Option<string>, now: Instant, parse: DateParser, newId: ObjectId)
      returns (r: Result<Doc>)
      modifies this`records
      ensures r.Err? ==> records == old(records)
      ensures VerifyTeacher(username).Err? ==> r == Err(VerifyTeacher(username).error)
      ensures VerifyTeacher(username).Ok? && ValidateMessage(message).Fail? ==>
        r == Err(ValidateMessage(message).error)
      ensures VerifyTeacher(username).Ok? && ValidateMessage(message).Pass? ==>
        var dates := CreateDates(expirationDate, startDate, now, parse);
        dates.Err? ==> r == Err(dates.error)
      ensures r.Ok? <==>
        VerifyTeacher(username).Ok? && ValidateMessage(message).Pass? &&
        CreateDates(expirationDate, startDate, now, parse).Ok? && newId !in old(records)
      ensures VerifyTeacher(username).Ok? && ValidateMessage(message).Pass? ==>
        CreateDates(expirationDate, startDate, now, parse).Ok? && newId in old(records) ==>
        r == Err(CreateFailed)
      ensures r.Ok? ==>
        var dates := CreateDates(expirationDate, startDate, now, parse).value;
        var a := Announcement(message, dates.0, dates.1, now, username.value);
        records == old(records)[newId := a] && r.value == Listed(newId, a)
    {
      var teacher := VerifyTeacher(username);
      if teacher.Err? {
        return Err(teacher.error);
      }
      var check := ValidateMessage(message);
      if check.Fail? {
        return Err(check.error);
      }
      var dates := CreateDates(expirationDate, startDate, now, parse);
      if dates.Err? {
        return Err(dates.error);
      }
      var announcement := Announcement(message, dates.value.0, dates.value.1, now, teacher.value);
      if newId in records {
        return Err(CreateFailed);
      }
      records := records[newId := announcement];
      r := Ok(Listed(newId, announcement));
    }

    /**
     * `update_announcement`: validates a supplied message before looking the
     * id up, then changes only the supplied fields. An empty `startDate`
     * removes the start date at once (`$unset`); the other fields are written
     * together at the end (`$set`). No rejection comes after a write.
     */
    method Update(
      announcementId: string, message: Option<string>, expirationDate: Option<string>,
      startDate: Option<string>, username: Option<string>, now: Instant, parse: DateParser)
      returns (r: Result<Doc>)
      modifies this`records
      ensures r.Err? ==> records == old(records)
      ensures VerifyTeacher(username).Err? ==> r == Err(VerifyTeacher(username).error)
      ensures VerifyTeacher(username).Ok? && message.Some? && ValidateMessage(message.value).Fail? ==>
        r == Err(ValidateMessage(message.value).error)
      ensures VerifyTeacher(username).Ok? && (message.Some? ==> ValidateMessage(message.value).Pass?) ==>
        match ParseObjectId(announcementId)
        case None => r == Err(InvalidId)
        case Some(id) =>
          if id !in old(records) then r == Err(NotFound)
          else
            var patched := PatchAnnouncement(old(records)[id], message, expirationDate, startDate, now, parse);
            (patched.Err? ==> r == Err(patched.error)) &&
            (patched.Ok? ==> records == old(records)[id := patched.value] && r == Ok(Listed(id, patched.value)))
    {
      var teacher := VerifyTeacher(username);
      if teacher.Err? {
        return Err(teacher.error);
      }
      if message.Some? {
        var check := ValidateMessage(message.value);
        if check.Fail? {
          return Err(check.error);
        }
      }
      var parsedId := ParseObjectId(announcementId);
      if parsedId.None? {
        return Err(InvalidId);
      }
      var id := parsedId.value;
      if id !in records {
        return Err(NotFound);
      }
      r := WriteUpdate(id, message, expirationDate, startDate, now, parse);
    }

    /**
     * The part of `update_announcement` after the record was found: builds
     * `update_fields` step by step, removes the start date at once when
     * `startDate` is empty, and writes the other fields at the end.
     */
    method WriteUpdate(
      id: ObjectId, message: Option<string>, expirationDate: Option<string>,
      startDate: Option<string>, now: Instant, parse: DateParser)
      returns (r: Result<Doc>)
      requires id in records
      modifies this`records
      ensures
        var patched := PatchAnnouncement(old(records)[id], message, expirationDate, startDate, now, parse);
        (patched.Err? ==> r == Err(patched.error) && records == old(records)) &&
        (patched.Ok? ==> records == old(records)[id := patched.value] && r == Ok(Listed(id, patched.value)))
    {
      var announcement := records[id];
      ghost var patched := PatchAnnouncement(announcement, message, expirationDate, startDate, now, parse);

      // update_fields
      var newMessage: Option<string> := None;
      var newExpiration: Option<Instant> := None;
      var newStart: Option<Instant> := None;
      if message.Some? {
        newMessage := message;
      }
      if expirationDate.Some? {
        var expiration := parse(expirationDate.value);
        if expiration.None? {
          return Err(InvalidExpirationFormat);
        }
        if expiration.value < now {
          return Err(ExpirationInPast);
        }
        newExpiration := expiration;
      }
      if startDate.Some? {
        if startDate.value == "" {
          records := records[id := records[id].(start := None)];
        } else {
          var start := parse(startDate.value);
          if start.None? {
            return Err(InvalidStartFormat);
          }
          var expiration := newExpiration.GetOr(announcement.expiration);
          if start.value > expiration {
            return Err(StartAfterExpiration);
          }
          newStart := start;
        }
      }
      if newMessage.Some? || newExpiration.Some? || newStart.Some? {
        var current := records[id];
        records := records[id := current.(
          message := newMessage.GetOr(current.message),
          expiration := newExpiration.GetOr(current.expiration),
          start := if newStart.Some? then newStart else current.start)];
      }
      assert patched.Ok? && records[id] == patched.value;
      r := Ok(Listed(id, records[id]));
    }

    /** `delete_announcement`: removes exactly the identified record. */
    method Delete(announcementId: string, username: Option<string>) returns (r: Result<string>)
      modifies this`records
      ensures r.Err? ==> records == old(records)
      ensures VerifyTeacher(username).Err? ==> r == Err(VerifyTeacher(username).error)
      ensures VerifyTeacher(username).Ok? ==>
        match ParseObjectId(announcementId)
        case None => r == Err(InvalidId)
        case Some(id) =>
          if id !in old(records) then r == Err(NotFound)
          else r == Ok(DeletedMessage) && records == old(records) - {id}
    {
      var teacher := VerifyTeacher(username);
      if teacher.Err? {
        return Err(teacher.error);
      }
      var parsedId := ParseObjectId(announcementId);
      if parsedId.None? {
        return Err(InvalidId);
      }
      var id := parsedId.value;
      if id !in records {
        return Err(NotFound);
      }
      records := records - {id};
      r := Ok(DeletedMessage);
    }
  }
}
