/** The hour fingerprint of the newer generation (src/helper/sha126Utils.ts). */
module Sha126Utils {
  import opened Text
  import opened Primitives
  import opened HelperConfig

  /**
   * `toEncored128(n)`: the first 32 characters of the hex SHA-256 digest of n's decimal
   * text. It reads nothing but n (no salt, no state).
   */
  function ToEncored128(c: Crypto, n: int): (e: string)
    ensures e <= c.sha256Hex(DecimalString(n))
    ensures Sound(c) ==> |e| == 32 && IsLowerHex(e)
  {
    Take(c.sha256Hex(DecimalString(n)), 32)
  }

  /** The fingerprint belongs to some configured recruitment hour. */
  predicate IsStartOclockFingerprint(c: Crypto, encoded: string)
    ensures IsStartOclockFingerprint(c, encoded) && Sound(c) ==> |encoded| == 32 && IsLowerHex(encoded)
  {
    exists t :: t in StartOclocks && ToEncored128(c, t) == encoded
  }

  /** The digest tells the configured hours apart (what a collision-free digest gives). */
  ghost predicate HourFingerprintsDistinct(c: Crypto)
  {
    forall i, j :: 0 <= i < j < |StartOclocks| ==>
      ToEncored128(c, StartOclocks[i]) != ToEncored128(c, StartOclocks[j])
  }

  /** `isInStartOclocks(encoded)`: the flag loop over the configured hours. */
  method IsInStartOclocks(c: Crypto, encoded: string) returns (flag: bool)
    ensures flag <==> exists t :: t in StartOclocks && ToEncored128(c, t) == encoded
  {
    flag := false;
    for i := 0 to |StartOclocks|
      invariant flag <==> exists k :: 0 <= k < i && ToEncored128(c, StartOclocks[k]) == encoded
    {
      if ToEncored128(c, StartOclocks[i]) == encoded {
        flag := true;
      }
    }
  }

  /** `getAllCreatedEncored128()`: the set of fingerprints of the configured hours. */
  method GetAllCreatedEncored128(c: Crypto) returns (encoreds: set<string>)
    ensures forall e :: e in encoreds <==> IsStartOclockFingerprint(c, e)
    ensures |encoreds| <= |StartOclocks|
    ensures HourFingerprintsDistinct(c) ==> |encoreds| == |StartOclocks|
  {
    encoreds := {};
    var hours := StartOclocks;
    for i := 0 to |hours|
      invariant encoreds == FingerprintsOf(c, hours[..i])
    {
      FingerprintsStep(c, hours, i);
      encoreds := encoreds + {ToEncored128(c, hours[i])};
    }
    assert hours[..|hours|] == hours;
    FingerprintsOfSize(c, hours);
    if HourFingerprintsDistinct(c) {
      DistinctFingerprintsOfSize(c, hours);
    }
  }

  lemma FingerprintsStep(c: Crypto, hours: seq<int>, i: nat)
    requires i < |hours|
    ensures FingerprintsOf(c, hours[..i + 1]) == FingerprintsOf(c, hours[..i]) + {ToEncored128(c, hours[i])}
  {
    assert hours[..i + 1][..i] == hours[..i];
  }

  /** The fingerprints of a list of hours. */
  function FingerprintsOf(c: Crypto, hours: seq<int>): (fs: set<string>)
    ensures forall e :: e in fs <==> exists t :: t in hours && ToEncored128(c, t) == e
  {
    if hours == [] then {}
    else
      assert hours == hours[..|hours| - 1] + [hours[|hours| - 1]];
      FingerprintsOf(c, hours[..|hours| - 1]) + {ToEncored128(c, hours[|hours| - 1])}
  }

  lemma {:induction false} FingerprintsOfSize(c: Crypto, hours: seq<int>)
    ensures |FingerprintsOf(c, hours)| <= |hours|
  {
    if hours != [] {
      FingerprintsOfSize(c, hours[..|hours| - 1]);
    }
  }

  lemma {:induction false} DistinctFingerprintsOfSize(c: Crypto, hours: seq<int>)
    requires forall i, j :: 0 <= i < j < |hours| ==> ToEncored128(c, hours[i]) != ToEncored128(c, hours[j])
    ensures |FingerprintsOf(c, hours)| == |hours|
  {
    if hours != [] {
      var init := hours[..|hours| - 1];
      var last := hours[|hours| - 1];
      DistinctFingerprintsOfSize(c, init);
      assert ToEncored128(c, last) !in FingerprintsOf(c, init);
    }
  }

  /** `getTimeTuples()`: each configured hour with its fingerprint, in Set order. */
  method GetTimeTuples(c: Crypto) returns (tuples: seq<(int, string)>)
    ensures |tuples| == |StartOclocks|
    ensures forall i :: 0 <= i < |tuples| ==>
      tuples[i].0 == StartOclocks[i] && tuples[i].1 == ToEncored128(c, StartOclocks[i])
    ensures forall i :: 0 <= i < |tuples| ==> IsStartOclockFingerprint(c, tuples[i].1)
  {
    tuples := [];
    for i := 0 to |StartOclocks|
      invariant |tuples| == i
      invariant forall k :: 0 <= k < i ==>
        tuples[k].0 == StartOclocks[k] && tuples[k].1 == ToEncored128(c, StartOclocks[k])
    {
      tuples := tuples + [(StartOclocks[i], ToEncored128(c, StartOclocks[i]))];
    }
  }
}
