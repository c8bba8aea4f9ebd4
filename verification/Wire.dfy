/** Opaque envelopes and the validation both retained state and task dispatch apply to them. */
module Wire {
  import opened Lists

  const STATE_TTL_MS := 7 * 86400000
  const MAX_ENVELOPE_TTL_MS := 25 * 60 * 60 * 1000
  const MAX_SUBMISSION_TTL_MS := 31 * 24 * 60 * 60 * 1000

  /**
   * A parsed frame. `None` is an absent or null field, and `nulls` names those that are null: no
   * check tells the two apart, but a job's fingerprint does. `wellTyped` is false when a field is
   * unknown or holds a JSON type that no check below accepts.
   */
  datatype Envelope = Envelope(
    wellTyped: bool, v: int, room: string, from: string, to: string, senderId: string,
    deliveryId: Option<string>, expiresAt: Option<int>, nonce: Option<string>, box: Option<string>,
    recipientKeyId: Option<string>, stateKey: Option<string>, stateRevision: Option<int>,
    statePriority: Option<int>, stateGroup: Option<string>, wake: Option<bool>, nulls: set<string>)

  predicate SafeInteger(n: int) { -0x1F_FFFF_FFFF_FFFF <= n <= 0x1F_FFFF_FFFF_FFFF }

  predicate HexDigit(c: char) { '0' <= c <= '9' || 'a' <= c <= 'f' }
  predicate Alphanumeric(c: char) { '0' <= c <= '9' || 'a' <= c <= 'z' || 'A' <= c <= 'Z' }
  predicate Base64Char(c: char) { Alphanumeric(c) || c == '+' || c == '/' }

  predicate ValidDigest(s: string) { |s| == 64 && forall i :: 0 <= i < |s| ==> HexDigit(s[i]) }
  predicate ValidRoom(s: string) { 16 <= |s| <= 64 && forall i :: 0 <= i < |s| ==> HexDigit(s[i]) }
  predicate ValidIdentifier(s: string, max: nat) { 1 <= |s| <= max }

  predicate ValidNonce(s: string) { |s| == 32 && forall i :: 0 <= i < |s| ==> Base64Char(s[i]) }

  /** At least 24 characters: base64 digits, then at most two `=`. */
  predicate ValidBox(s: string) {
    && |s| >= 24
    && (forall i :: 0 <= i < |s| - 2 ==> Base64Char(s[i]))
    && (Base64Char(s[|s| - 2]) || (s[|s| - 2] == '=' && s[|s| - 1] == '='))
    && (Base64Char(s[|s| - 1]) || s[|s| - 1] == '=')
  }

  predicate Has<T>(o: Option<T>, p: T -> bool) { o.Some? && p(o.value) }

  predicate HasPrefix(s: string, prefix: string) { |s| > |prefix| && prefix <= s }

  predicate ValidRetainedState(e: Envelope, now: int) {
    || (e.stateKey.None? && e.stateRevision.None? && e.statePriority.None? && e.stateGroup.None?)
    || (&& e.from == "machine" && e.to == "phone"
        && Has(e.recipientKeyId, ValidDigest)
        && Has(e.stateKey, ValidDigest)
        && (e.stateGroup.Some? ==> ValidDigest(e.stateGroup.value))
        && e.stateRevision.Some? && SafeInteger(e.stateRevision.value)
        && 0 <= e.stateRevision.value <= now + 300000
        && e.statePriority.Some? && 0 <= e.statePriority.value <= 3
        && e.expiresAt.Some? && SafeInteger(e.expiresAt.value) && e.expiresAt.value <= now + STATE_TTL_MS)
  }

  /** A user message or attachment from a phone may wait longer for its computer. */
  predicate ExtendedSubmission(e: Envelope) {
    && e.from == "phone" && e.to == "machine" && e.deliveryId.Some?
    && (HasPrefix(e.deliveryId.value, "user-message-") || HasPrefix(e.deliveryId.value, "attachment-"))
  }

  function TtlLimit(e: Envelope, maximumTtl: Option<int>): int {
    if maximumTtl.Some? then maximumTtl.value
    else if e.stateKey.Some? && e.stateKey.value != "" then STATE_TTL_MS
    else if ExtendedSubmission(e) then MAX_SUBMISSION_TTL_MS
    else MAX_ENVELOPE_TTL_MS
  }

  /** `validEnvelope`: well formed for this room and not yet expired. */
  predicate ValidEnvelope(e: Envelope, room: string, now: int, maximumTtl: Option<int>) {
    && e.wellTyped && e.v == 1 && e.room == room
    && (e.from == "machine" || e.from == "phone")
    && (e.to == "machine" || e.to == "phone" || e.to == "all")
    && ValidIdentifier(e.senderId, 180)
    && (e.deliveryId.Some? ==> ValidIdentifier(e.deliveryId.value, 180))
    && (e.recipientKeyId.Some? ==> ValidDigest(e.recipientKeyId.value))
    && ValidRetainedState(e, now)
    && (e.expiresAt.Some? ==> SafeInteger(e.expiresAt.value)
                              && now < e.expiresAt.value <= now + TtlLimit(e, maximumTtl))
    && Has(e.nonce, ValidNonce)
    && Has(e.box, ValidBox)
  }

  /** A box is base64 text of at least 24 characters that ends in no, one or two padding signs. */
  lemma BoxMeans(s: string)
    ensures ValidBox(s) <==>
            |s| >= 24 && exists n :: 0 <= n <= 2 && Base64Padded(s, n)
  {
    if ValidBox(s) {
      var n := if s[|s| - 1] != '=' then 0 else if s[|s| - 2] != '=' then 1 else 2;
      assert Base64Padded(s, n);
    }
  }

  /** The last `n` characters are padding, the others letters, digits, `+` or `/`. */
  predicate Base64Padded(s: string, n: nat) {
    && n <= |s| && (forall i :: |s| - n <= i < |s| ==> s[i] == '=')
    && forall i :: 0 <= i < |s| - n ==>
         '0' <= s[i] <= '9' || 'a' <= s[i] <= 'z' || 'A' <= s[i] <= 'Z' || s[i] == '+' || s[i] == '/'
  }

  /**
   * How long an envelope may last: as long as the caller allows, else a week for retained state, 31
   * days for a message or attachment a phone sends its computer, and 25 hours for anything else.
   */
  lemma LastsAtMost(e: Envelope, room: string, now: int, maximumTtl: Option<int>)
    requires ValidEnvelope(e, room, now, maximumTtl) && e.expiresAt.Some?
    ensures now < e.expiresAt.value
    ensures e.expiresAt.value - now <=
            if maximumTtl.Some? then maximumTtl.value
            else if e.stateKey.Some? then 604800000
            else if && e.from == "phone" && e.to == "machine" && e.deliveryId.Some?
                    && (var id := e.deliveryId.value;
                        (|id| > 13 && id[..13] == "user-message-") || (|id| > 11 && id[..11] == "attachment-")) then 2678400000
            else 90000000
  {
  }

  /** What every accepted envelope looks like. */
  lemma EnvelopeMeans(e: Envelope, room: string, now: int, maximumTtl: Option<int>)
    requires ValidEnvelope(e, room, now, maximumTtl)
    ensures e.v == 1 && e.room == room && e.from in {"machine", "phone"} && e.to in {"machine", "phone", "all"}
    ensures 1 <= |e.senderId| <= 180 && (e.deliveryId.Some? ==> 1 <= |e.deliveryId.value| <= 180)
    ensures e.recipientKeyId.Some? ==> |e.recipientKeyId.value| == 64
    ensures e.nonce.Some? && |e.nonce.value| == 32 && e.box.Some? && |e.box.value| >= 24
  {
  }

  /** A room name is 16 to 64 lower-case hexadecimal digits. */
  lemma RoomMeans(s: string)
    ensures ValidRoom(s) <==> 16 <= |s| <= 64 && forall c :: c in s ==> '0' <= c <= '9' || 'a' <= c <= 'f'
  {
    if ValidRoom(s) {
      forall c | c in s ensures HexDigit(c) {
        var i :| 0 <= i < |s| && s[i] == c;
      }
    } else if 16 <= |s| <= 64 {
      var i :| 0 <= i < |s| && !HexDigit(s[i]);
      assert s[i] in s;
    }
  }
}
