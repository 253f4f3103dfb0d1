/**
 * MongoDB ObjectIds as the router meets them: `ObjectId(announcement_id)` turns
 * the path parameter into a key (24 hexadecimal digits, either case), and
 * `str(...)` turns a key back into 24 lower-case hexadecimal digits.
 */
module ObjectIds {
  import opened Errors

  function Pow16(k: nat): (r: nat)
    ensures r >= 1
  {
    if k == 0 then 1 else 16 * Pow16(k - 1)
  }

  /** 16^24 = 2^96: an ObjectId is twelve bytes. */
  const IdBound: nat := 0x1_0000_0000_0000_0000_0000_0000

  /** An ObjectId, read as one number below 16^24. */
  type ObjectId = n: nat | n < IdBound

  lemma {:induction false} IdBoundDigits()
    ensures Pow16(24) == IdBound
  {
    calc {
      Pow16(24);
      == 0x1_0000 * Pow16(20);
      == 0x1_0000_0000 * Pow16(16);
      == 0x1_0000_0000_0000 * Pow16(12);
      == 0x1_0000_0000_0000_0000 * Pow16(8);
      == 0x1_0000_0000_0000_0000_0000 * Pow16(4);
      == IdBound;
    }
  }

  const Digits := "0123456789abcdef"

  function HexValue(c: char): (r: Option<nat>)
    ensures r.Some? ==> r.value < 16
  {
    if '0' <= c <= '9' then Some(c as nat - '0' as nat)
    else if 'a' <= c <= 'f' then Some(c as nat - 'a' as nat + 10)
    else if 'A' <= c <= 'F' then Some(c as nat - 'A' as nat + 10)
    else None
  }

  /** The value of a string of hexadecimal digits, most significant first. */
  function ParseHex(s: string): (r: Option<nat>)
    ensures r.Some? ==> r.value < Pow16(|s|)
    ensures r.Some? <==> forall i :: 0 <= i < |s| ==> HexValue(s[i]).Some?
  {
    if s == [] then Some(0)
    else
      var d := HexValue(s[|s| - 1]);
      match ParseHex(s[..|s| - 1])
      case None => None
      case Some(v) =>
        if d.None? then None else Some(16 * v + d.value)
  }

  /** The k lowest lower-case hexadecimal digits of n, most significant first. */
  function ToHex(n: nat, k: nat): (r: string)
    ensures |r| == k
  {
    if k == 0 then "" else ToHex(n / 16, k - 1) + [Digits[n % 16]]
  }

  lemma {:induction false} ParseToHex(n: nat, k: nat)
    requires n < Pow16(k)
    ensures ParseHex(ToHex(n, k)) == Some(n)
  {
    if k > 0 {
      var s := ToHex(n, k);
      assert s[..k - 1] == ToHex(n / 16, k - 1);
      ParseToHex(n / 16, k - 1);
      var c := Digits[n % 16];
      assert HexValue(c) == Some(n % 16);
    }
  }

  /** `ObjectId(s)`: None where bson raises InvalidId. */
  function ParseObjectId(s: string): (r: Option<ObjectId>)
    ensures r.Some? <==> |s| == 24 && forall i :: 0 <= i < |s| ==> HexValue(s[i]).Some?
  {
    IdBoundDigits();
    if |s| != 24 then None
    else match ParseHex(s)
      case None => None
      case Some(v) => Some(v)
  }

  /** `str(oid)`: the 24 lower-case hexadecimal digits of the id. */
  function ObjectIdString(id: ObjectId): (r: string)
    ensures |r| == 24
  {
    ToHex(id, 24)
  }

  /** The string the API hands out for an id leads back to that id. */
  lemma ParseObjectIdString(id: ObjectId)
    ensures ParseObjectId(ObjectIdString(id)) == Some(id)
  {
    IdBoundDigits();
    ParseToHex(id, 24);
  }

  /** Distinct ids are printed as distinct strings. */
  lemma ObjectIdStringInjective(a: ObjectId, b: ObjectId)
    requires ObjectIdString(a) == ObjectIdString(b)
    ensures a == b
  {
    ParseObjectIdString(a);
    ParseObjectIdString(b);
  }
}
