/**
 * Announcement documents as dictionaries, and `serialize_announcement`, which
 * renames the MongoDB key `_id` to `id` holding the id's string form.
 */
module Documents {
  import opened Errors
  import opened ObjectIds

  /** The values the router's documents hold: text, timestamps and ObjectIds. */
  datatype Value = Text(s: string) | Time(t: int) | Oid(id: ObjectId)

  /** The dictionary keys the router's documents use. */
  datatype Key =
    | MongoId         // "_id"
    | Id              // "id"
    | Message         // "message"
    | ExpirationDate  // "expiration_date"
    | StartDate       // "start_date"
    | CreatedAt       // "created_at"
    | CreatedBy       // "created_by"

  type Doc = map<Key, Value>

  /** Values whose `str(...)` the model knows: strings and ObjectIds. */
  predicate Printable(v: Value) {
    v.Text? || v.Oid?
  }

  /** `str(v)` */
  function Str(v: Value): (r: string)
    requires Printable(v)
    ensures v.Oid? ==> ParseObjectId(r) == Some(v.id)
  {
    match v
    case Text(s) => s
    case Oid(id) => ParseObjectIdString(id); ObjectIdString(id)
  }

  /** The dictionary `serialize_announcement` leaves behind. */
  function Serialized(d: Doc): (r: Doc)
    requires MongoId in d ==> Printable(d[MongoId])
    ensures MongoId !in r
    ensures MongoId in d ==> Id in r && r[Id] == Text(Str(d[MongoId]))
    ensures MongoId !in d ==> r == d
    ensures forall k :: k != MongoId && k != Id ==> (k in r <==> k in d)
    ensures forall k :: k in r && k != Id ==> r[k] == d[k]
  {
    if MongoId in d then d[Id := Text(Str(d[MongoId]))] - {MongoId} else d
  }

  /** Serializing a document that gained an `_id` gives it an `id` holding that id's string instead. */
  lemma SerializedRenames(d: Doc, v: Value)
    requires MongoId !in d && Printable(v)
    ensures Serialized(d[MongoId := v]) == d[Id := Text(Str(v))]
  {
    var s, e := Serialized(d[MongoId := v]), d[Id := Text(Str(v))];
    assert forall k :: k in s <==> k in e;
  }

  /** Serializing a serialized document changes nothing. */
  lemma SerializedIdempotent(d: Doc)
    requires MongoId in d ==> Printable(d[MongoId])
    ensures Serialized(Serialized(d)) == Serialized(d)
  {
  }

  /** A dictionary the caller holds; `Serialize` mutates it in place as the Python function does. */
  class Document {
    var fields: Doc

    constructor (fields: Doc)
      ensures this.fields == fields
    {
      this.fields := fields;
    }

    method Serialize()
      requires MongoId in fields ==> Printable(fields[MongoId])
      modifies this
      ensures fields == Serialized(old(fields))
    {
      if MongoId in fields {
        fields := fields[Id := Text(Str(fields[MongoId]))];
        fields := fields - {MongoId};
      }
    }
  }
}
