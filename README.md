# Announcements router: a verified model

This project models the server-side rules for school announcements from
`src/backend/routers/announcements.py`. The framework and the database are
stripped away, leaving a small keyed store.

- `validate_message` rejects a message that is empty or only whitespace, and
  one longer than `MAX_MESSAGE_LENGTH` (500) characters.
- `verify_teacher` answers HTTP 401 when the username is missing or empty, or
  when it is not a known teacher.
- `get_announcements` lists the active announcements by default:
  `active_only` defaults to true. An announcement is active when its window
  `[start_date, expiration_date]` holds `now`; both bounds are inclusive and a
  missing start means "already started". With `active_only` set to false it
  lists every announcement. The list is ordered newest `created_at` first.
- `get_announcement` and `delete_announcement` answer 400 for an id that is not
  an ObjectId and 404 for an id that is not stored.
- `create_announcement` checks the message and then the dates. The expiration
  must not be before `now`, and a supplied start must not be after the
  expiration. It then inserts one record.
- `update_announcement` validates a supplied message before looking the id up.
  It then changes only the supplied fields, and an empty `start_date` removes
  the start date. A new start is checked against the expiration given in the
  same call, or else against the stored one. No rejection happens after a write.
- `serialize_announcement` replaces the `_id` key by `id`, holding the id's
  string.

Modules:

- `Errors` (errors.dfy) holds `Option`, `Result` and the `HttpError` values
  the router raises, with their status codes and detail texts.
- `ObjectIds` (object_ids.dfy) covers ObjectId strings: 24 hexadecimal digits
  are parsed into a key, and a key is printed as 24 lower-case digits. It
  proves that printing and then parsing gives back the same key.
- `Messages` (messages.dfy) holds the whitespace set of Python's
  `str.strip()`, the strip itself, and `validate_message`.
- `Documents` (documents.dfy) models dictionaries with the router's keys.
  `serialize_announcement` appears both as a function and as an in-place
  method on a `Document` object.
- `AnnouncementRules` (rules.dfy) covers one record: the activity predicate,
  the create-time date checks, the field-by-field effect of an update, and the
  documents a record is stored and returned as.
- `AnnouncementRouter` (router.dfy) holds the class `AnnouncementStore`. Its
  fields are the announcements map and the set of teacher usernames, and its
  members are the endpoints.

Time is an integer. `now` and the ObjectId that the database assigns on insert
are parameters. `datetime.fromisoformat` is a parameter `parse: string ->
Option<Instant>`, which returns `None` where Python raises `ValueError`.

`update_announcement` changes only the fields supplied
(announcements.py:194-233); an omitted field keeps its stored value.

One consequence of the code is stated as a lemma,
`ExpirationOnlyUpdateKeepsStart`. An update that supplies only a new
expiration never compares it with the stored start date, so a stored start can
end up after the expiration.

## Model

| member | source | states |
|---|---|---|
| `Messages.ValidateMessage` | src/backend/routers/announcements.py:40-48 | rejects with "Message cannot be empty" exactly when every character is whitespace (including the empty message); rejects with "Message too long" exactly when some character is not whitespace and the length exceeds 500; passes exactly otherwise |
| `Messages.StripEmpty` | src/backend/routers/announcements.py:42 | `message.strip()` is empty exactly when every character is Python whitespace |
| `Messages.LongestMessageAccepted` | src/backend/routers/announcements.py:45-48 | a message of exactly 500 characters that starts with a visible character is accepted (the bound is inclusive) |
| `ObjectIds.ParseObjectId` | src/backend/routers/announcements.py:97-106 | an id string is accepted exactly when it is 24 hexadecimal digits; otherwise the endpoint answers "Invalid announcement ID" |
| `ObjectIds.ParseToHex` | src/backend/routers/announcements.py:54 | parsing the k hexadecimal digits of any n below 16^k gives back n |
| `ObjectIds.ParseObjectIdString` | src/backend/routers/announcements.py:54 | `str(oid)` parses back to the same ObjectId |
| `ObjectIds.ObjectIdStringInjective` | src/backend/routers/announcements.py:54 | two different ObjectIds never print as the same `id` string |
| `Documents.Serialized` | src/backend/routers/announcements.py:51-56 | the result has no `_id`; when the input had `_id`, `id` holds its string; every other key keeps its value; a dictionary without `_id` is returned unchanged |
| `Documents.SerializedRenames` | src/backend/routers/announcements.py:53-55 | serializing a document that gained an `_id` gives the same document with `id` set to that id's string instead |
| `Documents.SerializedIdempotent` | src/backend/routers/announcements.py:51-56 | serializing twice gives the same dictionary as serializing once |
| `Documents.Document.Serialize` | src/backend/routers/announcements.py:51-56 | the in-place mutation leaves the dictionary equal to `Serialized` of what it held before |
| `AnnouncementRules.ActiveWindow` | src/backend/routers/announcements.py:69-84 | the two branches of the `active_only` query select exactly the announcements with `now <= expiration` and either no start or `start <= now` |
| `AnnouncementRules.CreateDates` | src/backend/routers/announcements.py:127-145 | succeeds exactly when the expiration parses and is not before `now` and, if a non-empty start string was given, it parses and is not after the expiration; an empty or missing start is stored as absent; an unparsable expiration gives "Invalid date format" and a past one "Expiration date must be in the future"; after a valid expiration, an unparsable start gives "Invalid date format" and a start after the expiration "Start date must be before expiration date" |
| `AnnouncementRules.CreatedWithoutStartIsActive` | src/backend/routers/announcements.py:128-156 | an announcement created without a start date passes the `active_only` query at its creation time |
| `AnnouncementRules.PatchAnnouncement` | src/backend/routers/announcements.py:194-233 | succeeds exactly when a supplied expiration parses and is not before `now` and a supplied non-empty start parses and is not after the expiration of the same call, falling back to the stored one; on success only supplied fields change, `""` removes the start, and creation time and author are kept; an unparsable expiration gives "Invalid expiration date format", a past one "Expiration date must be in the future", then an unparsable start "Invalid start date format" and a start after the effective expiration "Start date must be before expiration date" |
| `AnnouncementRules.ExpirationOnlyUpdateKeepsStart` | src/backend/routers/announcements.py:199-208 | an update supplying only an expiration sets it and keeps the stored start, without comparing the two |
| `AnnouncementRules.ListedIsSerialized` | src/backend/routers/announcements.py:148-162 | the dictionary an endpoint returns is `serialize_announcement` of the stored document |
| `AnnouncementRules.ListedFields` | src/backend/routers/announcements.py:148-156 | a returned dictionary has exactly the keys id, message, expiration_date, created_at and created_by, plus start_date when a start is stored, each holding the record's value |
| `AnnouncementRules.ListedIdRoundTrip` | src/backend/routers/announcements.py:54 | the `id` string in a returned dictionary parses back to the record's ObjectId |
| `AnnouncementRules.ListedCreatedAt` | src/backend/routers/announcements.py:150-151 | a returned dictionary carries the record's creation time |
| `AnnouncementRules.SortedPrefixStep` | src/backend/routers/announcements.py:87 | appending a newest remaining id to a newest-first prefix keeps it newest first, duplicate-free and covering the ids taken so far |
| `AnnouncementRules.NewestExists` | src/backend/routers/announcements.py:87 | every non-empty set of stored ids has a member with the newest `created_at` |
| `AnnouncementRules.ListingOfCursor` | src/backend/routers/announcements.py:86-90 | serializing the records of a newest-first cursor, in order, lists every selected record, lists nothing else, and keeps `created_at` non-increasing |
| `AnnouncementRouter.AnnouncementStore.VerifyTeacher` | src/backend/routers/announcements.py:24-37 | succeeds with the username exactly when it is non-empty and a known teacher; a missing or empty username gives 401 "Authentication required", an unknown one 401 "Invalid teacher credentials" |
| `AnnouncementRouter.AnnouncementStore.NewestFirst` | src/backend/routers/announcements.py:87 | the cursor visits each selected id exactly once, with `created_at` non-increasing |
| `AnnouncementRouter.AnnouncementStore.GetAnnouncements` | src/backend/routers/announcements.py:61-90 | returns one serialized dictionary per stored record that passes the `active_only` filter, where an absent flag means true and false lists every record; none for any other record; newest `created_at` first |
| `AnnouncementRouter.AnnouncementStore.GetAnnouncement` | src/backend/routers/announcements.py:94-106 | succeeds exactly when the id parses and is stored, returning that record serialized; a malformed id gives 400 and a missing one 404 |
| `AnnouncementRouter.AnnouncementStore.GetListedId` | src/backend/routers/announcements.py:93-101 | fetching the `id` of a returned dictionary gives back that same dictionary |
| `AnnouncementRouter.AnnouncementStore.Create` | src/backend/routers/announcements.py:111-165 | errors in the order 401, message 400, date 400, insert failure 500; any rejection leaves the store unchanged; success adds exactly one record under the new id, holding the message, the expiration, the start only when one was supplied, the creation time and the teacher |
| `AnnouncementRouter.AnnouncementStore.Update` | src/backend/routers/announcements.py:169-244 | errors in the order 401, message 400, invalid id 400, 404, then the date errors; an invalid message on a missing id gives 400, not 404; any rejection leaves the store unchanged; success replaces the one record by its patched version and returns it serialized |
| `AnnouncementRouter.AnnouncementStore.WriteUpdate` | src/backend/routers/announcements.py:194-238 | the step-by-step `update_fields`, `$unset` and `$set` writes leave the record equal to `PatchAnnouncement` of the stored one, and change nothing when that rejects |
| `AnnouncementRouter.AnnouncementStore.Delete` | src/backend/routers/announcements.py:248-270 | 401 before anything else; a malformed id gives 400 and a missing one 404, both leaving the store unchanged; otherwise removes exactly that record and answers "Announcement deleted successfully" |

## Left out

- FastAPI routing, `Query`/`Depends` wiring and response models are left out. Each endpoint is a class member, and the dependency is a call to `VerifyTeacher` at the start.
- Logging is left out; it has no effect on behaviour.
- `datetime.fromisoformat` is not modelled. It is the `parse` parameter.
- `datetime.utcnow()` is the `now` parameter. The source calls it twice in `create_announcement`, once for the check and once for `created_at`; the model uses one instant for both.
- Comparisons between naive and timezone-aware datetimes are not modelled, because times are integers.
- ObjectId generation on insert is the `newId` parameter. bson's acceptance rule (24 hexadecimal digits, either case) is taken from bson's documented behaviour, because bson is not part of this model.
- The `except Exception` handlers are not modelled for unforeseen driver errors. The model keeps only the failures this file's logic can produce: a malformed id gives 400, and an insert under a taken id gives 500.
- Python dictionary key order is not modelled, so the model does not capture that `id` is added last.
- `update_announcement` re-reads the record after writing; the model returns the record it wrote. The two can differ under concurrent writers, which are not modelled. They can also differ with a single writer, because MongoDB stores datetimes in UTC to the millisecond: a parsed date with microseconds or a UTC offset comes back changed. The integer time model does not represent datetime precision or time zones.
- `AnnouncementRouter.AnnouncementStore.NewestFirst` stands for MongoDB's `sort("created_at", -1)`. It fixes no order among records with equal `created_at`, and MongoDB does not either.
- Documents.Serialized: requires `_id`, when present, to be a string or an ObjectId, because `str()` of other Python values is not modelled. Every document this file serializes has an ObjectId `_id`.
- The endpoints return `Listed`, which `AnnouncementRules.ListedIsSerialized` proves equal to `Serialized` of the stored document; they do not mutate a `Document` object. No caller in the file uses the dictionary after serializing it, so the in-place update cannot be observed; `Documents.Document.Serialize` models the mutation itself.
- A teacher is reduced to their username, because the router uses nothing else from the teacher document.
