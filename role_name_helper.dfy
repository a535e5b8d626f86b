/**
 * Marker tags of the newer generation (src/helper/role-name-helper.ts): a tag is
 * `"time:" + encrypt(now) + "-" + toEncored128(hour)`; it is read back by dropping the
 * header length and splitting on "-", and is re-validated against the current hours.
 */
module RoleNameHelper {
  import opened Wrappers
  import opened Text
  import opened Primitives
  import opened HelperConfig
  import opened Sha126Utils

  /** The two fields `splitRole` destructures; `target128` is undefined when there is no "-". */
  datatype RoleParts = RoleParts(timeStamp: string, target128: Option<string>)

  /** JavaScript's `x < 0` on a number (false for NaN). */
  predicate IsNegative(x: JsNumber)
  {
    x.Int? && x.value < 0
  }

  /**
   * `splitRole(roleName)`: drops `roleHeader.length` characters (whatever they are) and
   * keeps the first two "-"-separated fields.
   */
  function SplitRole(roleName: string): (p: RoleParts)
    ensures '-' !in p.timeStamp
    ensures p.target128.Some? ==> '-' !in p.target128.value
  {
    var fields := Split(Drop(roleName, |RoleHeader|), '-');
    RoleParts(fields[0], if |fields| >= 2 then Some(fields[1]) else None)
  }

  /**
   * `safeDecodeUnixTimestamp(timeStamp)`: never throws; -1 when decryption throws or the
   * number is negative, otherwise the parsed number, which may be NaN.
   */
  function SafeDecodeUnixTimestamp(c: Crypto, timeStamp: string): (r: JsNumber)
    ensures r.Int? ==> r.value == -1 || r.value >= 0
    ensures r.Int? && r.value >= 0 ==> c.decrypt(timeStamp) == Plain(r)
    ensures r.NaN? <==> c.decrypt(timeStamp) == Plain(NaN)
  {
    match c.decrypt(timeStamp)
    case DecryptError => Int(-1)
    case Plain(decoded) => if IsNegative(decoded) then Int(-1) else decoded
  }

  /** JavaScript subtraction on two numbers (NaN absorbs). */
  function Minus(a: JsNumber, b: JsNumber): JsNumber
  {
    if a.Int? && b.Int? then Int(a.value - b.value) else NaN
  }

  /** `sortNumber(a, b)`: comparator by decoded timestamp. */
  function SortNumber(c: Crypto, a: string, b: string): (r: JsNumber)
    ensures r.Int? <==> SafeDecodeUnixTimestamp(c, a).Int? && SafeDecodeUnixTimestamp(c, b).Int?
    ensures r.Int? ==> (r.value < 0 <==> SafeDecodeUnixTimestamp(c, a).value < SafeDecodeUnixTimestamp(c, b).value)
  {
    Minus(SafeDecodeUnixTimestamp(c, a), SafeDecodeUnixTimestamp(c, b))
  }

  /** Decryption throws or yields a negative number. */
  predicate DecodesBelowZero(d: Decrypted)
  {
    d.DecryptError? || (d.number.Int? && d.number.value < 0)
  }

  /**
   * `getTimeStampFromRoleName(roleName)`: null exactly when the timestamp field decodes
   * below zero; otherwise the decoded number (non-negative, or NaN).
   */
  function GetTimeStampFromRoleName(c: Crypto, roleName: string): (r: Option<JsNumber>)
    ensures r.None? <==> DecodesBelowZero(c.decrypt(SplitRole(roleName).timeStamp))
    ensures r.Some? ==> c.decrypt(SplitRole(roleName).timeStamp) == Plain(r.value)
    ensures r.Some? && r.value.Int? ==> r.value.value >= 0
  {
    var time := SafeDecodeUnixTimestamp(c, SplitRole(roleName).timeStamp);
    if IsNegative(time) then None else Some(time)
  }

  /**
   * `isCreatedRole(roleName)`: there is a second field, the first decodes without falling
   * below zero, and the second is the fingerprint of a currently configured hour.
   */
  predicate IsCreatedRole(c: Crypto, roleName: string)
    ensures IsCreatedRole(c, roleName) <==>
      && SplitRole(roleName).target128.Some?
      && GetTimeStampFromRoleName(c, roleName).Some?
      && IsStartOclockFingerprint(c, SplitRole(roleName).target128.value)
  {
    var p := SplitRole(roleName);
    if p.target128.None? then false
    else if IsNegative(SafeDecodeUnixTimestamp(c, p.timeStamp)) then false
    else if !IsStartOclockFingerprint(c, p.target128.value) then false
    else true
  }

  /** `isCreatedAndIsAtTimeRole(roleName, checkTime)`: a created role whose fingerprint is checkTime's. */
  predicate IsCreatedAndIsAtTimeRole(c: Crypto, roleName: string, checkTime: int)
    ensures IsCreatedAndIsAtTimeRole(c, roleName, checkTime) ==>
      IsCreatedRole(c, roleName) && IsStartOclockFingerprint(c, ToEncored128(c, checkTime))
  {
    if !IsCreatedRole(c, roleName) then false
    else SplitRole(roleName).target128 == Some(ToEncored128(c, checkTime))
  }

  /** `createRoleNow(time)`, with the clock's current Unix time passed in as `now`. */
  function CreateRoleNow(c: Crypto, now: nat, time: int): (name: string)
    ensures RoleHeader <= name
  {
    RoleHeader + c.encrypt(now) + "-" + ToEncored128(c, time)
  }

  // ---------------------------------------------------------------------------------
  // Properties of the tag format

  /** The header characters are dropped unread: any five characters parse alike. */
  lemma SplitRoleIgnoresHeader(h1: string, h2: string, rest: string)
    requires |h1| == |h2| == |RoleHeader|
    ensures SplitRole(h1 + rest) == SplitRole(h2 + rest)
  {
    assert Drop(h1 + rest, |RoleHeader|) == rest == Drop(h2 + rest, |RoleHeader|);
  }

  /** A tag `header + a + "-" + tail`: the timestamp field is a, the fingerprint field tail's first field. */
  lemma SplitTagged(a: string, tail: string)
    requires '-' !in a
    ensures SplitRole(RoleHeader + a + "-" + tail) == RoleParts(a, Some(Split(tail, '-')[0]))
  {
    var body := a + ['-'] + tail;
    assert RoleHeader + a + "-" + tail == RoleHeader + body;
    assert Drop(RoleHeader + body, |RoleHeader|) == body;
    SplitAtFirstSep(a, tail, '-');
  }

  /** Only the first two "-"-separated fields are kept; anything after a second "-" is ignored. */
  lemma SplitRoleKeepsTwoFields(a: string, b: string, rest: string)
    requires '-' !in a && '-' !in b
    ensures SplitRole(RoleHeader + a + "-" + b + "-" + rest) == RoleParts(a, Some(b))
  {
    var tail := b + ['-'] + rest;
    assert RoleHeader + a + "-" + b + "-" + rest == RoleHeader + a + "-" + tail;
    SplitTagged(a, tail);
    SplitAtFirstSep(b, rest, '-');
  }

  /** A name with no "-" after the header has no fingerprint field. */
  lemma SplitRoleWithoutSep(roleName: string)
    requires '-' !in Drop(roleName, |RoleHeader|)
    ensures SplitRole(roleName) == RoleParts(Drop(roleName, |RoleHeader|), None)
  {
    SplitWithoutSep(Drop(roleName, |RoleHeader|), '-');
  }

  lemma HexHasNoDash(s: string)
    requires IsLowerHex(s)
    ensures '-' !in s
  {
  }

  /** Round trip: a created tag splits back into the ciphertext and the fingerprint. */
  lemma SplitCreatedRole(c: Crypto, now: nat, time: int)
    requires Sound(c)
    ensures SplitRole(CreateRoleNow(c, now, time)) == RoleParts(c.encrypt(now), Some(ToEncored128(c, time)))
  {
    var a, b := c.encrypt(now), ToEncored128(c, time);
    HexHasNoDash(a);
    HexHasNoDash(b);
    SplitTagged(a, b);
    SplitWithoutSep(b, '-');
  }

  /** Decoding an encrypted timestamp gives it back. */
  lemma SafeDecodeRoundTrip(c: Crypto, t: nat)
    requires Sound(c)
    ensures SafeDecodeUnixTimestamp(c, c.encrypt(t)) == Int(t)
  {
  }

  /** The comparator orders created tags by creation time. */
  lemma SortNumberByCreation(c: Crypto, a: nat, b: nat)
    requires Sound(c)
    ensures SortNumber(c, c.encrypt(a), c.encrypt(b)) == Int(a - b)
  {
  }

  /** A created tag yields its creation time. */
  lemma TimeStampOfCreatedRole(c: Crypto, now: nat, time: int)
    requires Sound(c)
    ensures GetTimeStampFromRoleName(c, CreateRoleNow(c, now, time)) == Some(Int(now))
  {
    SplitCreatedRole(c, now, time);
  }

  /** The timestamp read never consults the fingerprint field. */
  lemma TimeStampIgnoresFingerprint(c: Crypto, a: string, f1: string, f2: string)
    requires '-' !in a
    ensures GetTimeStampFromRoleName(c, RoleHeader + a + "-" + f1)
         == GetTimeStampFromRoleName(c, RoleHeader + a + "-" + f2)
  {
    SplitTagged(a, f1);
    SplitTagged(a, f2);
  }

  // ---------------------------------------------------------------------------------
  // Properties of validation

  /** A freshly created tag for a configured hour is recognised as bot-created. */
  lemma CreatedRoleIsRecognised(c: Crypto, now: nat, time: int)
    requires Sound(c) && time in StartOclocks
    ensures IsCreatedRole(c, CreateRoleNow(c, now, time))
  {
    SplitCreatedRole(c, now, time);
  }

  /** A name with no "-" after the header (every team role name, say) is never a created role. */
  lemma NoSecondFieldIsNotCreated(c: Crypto, roleName: string)
    requires '-' !in Drop(roleName, |RoleHeader|)
    ensures !IsCreatedRole(c, roleName)
  {
    SplitRoleWithoutSep(roleName);
  }

  /** An older-generation time role name `"time:" + sha256` is never a created role. */
  lemma OldSchemeNameIsNotCreated(c: Crypto, text: string)
    requires Sound(c)
    ensures !IsCreatedRole(c, RoleHeader + c.sha256Hex(text))
  {
    var h := c.sha256Hex(text);
    HexHasNoDash(h);
    assert Drop(RoleHeader + h, |RoleHeader|) == h;
    NoSecondFieldIsNotCreated(c, RoleHeader + h);
  }

  /** A fingerprint field that is not 32 characters long is never recognised. */
  lemma WrongLengthFingerprintIsNotCreated(c: Crypto, roleName: string)
    requires Sound(c)
    requires SplitRole(roleName).target128.Some? && |SplitRole(roleName).target128.value| != 32
    ensures !IsCreatedRole(c, roleName)
  {
  }

  /** A tag with the right header but garbage after it fails validation (and nothing throws). */
  lemma GarbageIsNotCreated(c: Crypto)
    requires Sound(c)
    ensures !IsCreatedRole(c, "time:garbage-garbage")
  {
    assert "time:garbage-garbage" == RoleHeader + "garbage" + "-" + "garbage";
    SplitTagged("garbage", "garbage");
    SplitWithoutSep("garbage", '-');
  }

  /**
   * A timestamp field whose plaintext is not a number (parseInt gives NaN) passes the
   * `< 0` checks: with a configured fingerprint the tag counts as created, and its
   * timestamp reads as NaN rather than null.
   */
  lemma NaNTimestampIsAccepted(c: Crypto, a: string, time: int)
    requires Sound(c) && time in StartOclocks
    requires '-' !in a && c.decrypt(a) == Plain(NaN)
    ensures IsCreatedRole(c, RoleHeader + a + "-" + ToEncored128(c, time))
    ensures GetTimeStampFromRoleName(c, RoleHeader + a + "-" + ToEncored128(c, time)) == Some(NaN)
  {
    var b := ToEncored128(c, time);
    HexHasNoDash(b);
    SplitTagged(a, b);
    SplitWithoutSep(b, '-');
  }

  /** A freshly created tag is a hand-raise for the hour it was created for. */
  lemma CreatedRoleIsAtItsHour(c: Crypto, now: nat, time: int)
    requires Sound(c) && time in StartOclocks
    ensures IsCreatedAndIsAtTimeRole(c, CreateRoleNow(c, now, time), time)
  {
    SplitCreatedRole(c, now, time);
  }

  /** ... and for no other configured hour, as long as the digest tells the hours apart. */
  lemma CreatedRoleIsNotAtOtherHour(c: Crypto, now: nat, time: int, other: int)
    requires Sound(c) && HourFingerprintsDistinct(c)
    requires time in StartOclocks && other in StartOclocks && other != time
    ensures !IsCreatedAndIsAtTimeRole(c, CreateRoleNow(c, now, time), other)
  {
    SplitCreatedRole(c, now, time);
  }

  /** A tag is a hand-raise for at most one configured hour. */
  lemma AtTimeRoleHourIsUnique(c: Crypto, roleName: string, t1: int, t2: int)
    requires HourFingerprintsDistinct(c)
    requires t1 in StartOclocks && t2 in StartOclocks
    requires IsCreatedAndIsAtTimeRole(c, roleName, t1) && IsCreatedAndIsAtTimeRole(c, roleName, t2)
    ensures t1 == t2
  {
  }
}
