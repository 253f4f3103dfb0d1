/**
 * `validate_message`: an announcement message must hold something other than
 * whitespace and be at most MAX_MESSAGE_LENGTH characters long.
 */
module Messages {
  import opened Errors

  const MaxMessageLength := 500

  /** The characters Python's `str.strip()` removes (those for which `str.isspace()` holds). */
  predicate IsSpace(c: char) {
    c in {'\t', '\n', '\U{0b}', '\U{0c}', '\r', '\U{1c}', '\U{1d}', '\U{1e}', '\U{1f}', ' ',
          '\U{85}', '\U{a0}', '\U{1680}', '\U{2028}', '\U{2029}', '\U{202f}', '\U{205f}', '\U{3000}'}
    || '\U{2000}' <= c <= '\U{200a}'
  }

  predicate AllSpace(s: string) {
    forall i :: 0 <= i < |s| ==> IsSpace(s[i])
  }

  function LStrip(s: string): (r: string)
    ensures |r| <= |s|
  {
    if s != [] && IsSpace(s[0]) then LStrip(s[1..]) else s
  }

  function RStrip(s: string): (r: string)
    ensures |r| <= |s|
  {
    if s != [] && IsSpace(s[|s| - 1]) then RStrip(s[..|s| - 1]) else s
  }

  /** `message.strip()` */
  function Strip(s: string): string {
    RStrip(LStrip(s))
  }

  lemma {:induction false} LStripEmpty(s: string)
    ensures LStrip(s) == [] <==> AllSpace(s)
    ensures LStrip(s) != [] ==> !IsSpace(LStrip(s)[0])
  {
    if s != [] && IsSpace(s[0]) {
      LStripEmpty(s[1..]);
      assert AllSpace(s) <==> AllSpace(s[1..]) by {
        assert forall i :: 0 < i < |s| ==> s[i] == s[1..][i - 1];
      }
    }
  }

  lemma {:induction false} RStripKeepsFirst(s: string)
    requires s != [] && !IsSpace(s[0])
    ensures RStrip(s) != []
  {
    if IsSpace(s[|s| - 1]) {
      RStripKeepsFirst(s[..|s| - 1]);
    }
  }

  /** Stripping leaves nothing exactly when every character is whitespace. */
  lemma StripEmpty(s: string)
    ensures Strip(s) == [] <==> AllSpace(s)
  {
    LStripEmpty(s);
    if LStrip(s) != [] {
      RStripKeepsFirst(LStrip(s));
    }
  }

  /** `validate_message`: Pass, or the HTTP 400 it raises. */
  function ValidateMessage(message: string): (r: Outcome)
    ensures r == Fail(EmptyMessage) <==> AllSpace(message)
    ensures r == Fail(MessageTooLong) <==> !AllSpace(message) && |message| > MaxMessageLength
    ensures r == Pass <==> !AllSpace(message) && |message| <= MaxMessageLength
  {
    StripEmpty(message);
    if message == [] || |Strip(message)| == 0 then Fail(EmptyMessage)
    else if |message| > MaxMessageLength then Fail(MessageTooLong)
    else Pass
  }

  /** The length bound is inclusive: a 500-character message with a visible character passes. */
  lemma LongestMessageAccepted(message: string)
    requires |message| == MaxMessageLength && !IsSpace(message[0])
    ensures ValidateMessage(message) == Pass
  {
  }
}
