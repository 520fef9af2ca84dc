/** Per-PDU security profiles: truncation lengths per transport and the validated reload. */
module SecurityProfile {
  import opened Wrappers

  datatype Transport = ClassicCan | CanFd

  datatype Profile = Profile(
    algorithm: string, keyId: string, freshnessLength: nat, authenticatorLength: nat,
    profileVersion: string, tfvLength: Option<nat>, tmacLength: Option<nat>)
  {
    /** (freshness, authenticator) bytes on the wire, or None where the source raises. */
    function TruncationLengths(transport: Transport): Option<(nat, nat)> {
      if transport.ClassicCan? then
        if tfvLength.None? || tmacLength.None? then None
        else Some((tfvLength.value, tmacLength.value))
      else Some((freshnessLength, authenticatorLength))
    }
  }

  const SUPPORTED_ALGORITHMS := {"HMAC-SHA256", "HMAC-SHA512"}
  const TRUNCATION_BUDGET := 4

  /** One JSON entry; `extras` are the keys outside the schema, None a key that is absent. */
  datatype RawEntry = RawEntry(
    extras: set<string>, algorithm: Option<string>, keyId: Option<string>,
    freshnessLength: Option<nat>, authenticatorLength: Option<nat>,
    profileVersion: Option<string>, tfvLength: Option<nat>, tmacLength: Option<nat>)

  datatype ProfileError =
    | UnsupportedFields(fields: set<string>)
    | UnsupportedAlgorithm
    | OneSidedTruncation
    | WrongBudget
    | MissingKey

  /** The checks of reload for one entry, in source order. */
  function CheckEntry(e: RawEntry): Result<Profile, ProfileError> {
    if e.extras != {} then Err(UnsupportedFields(e.extras))
    else if e.algorithm.None? then Err(MissingKey)
    else if e.algorithm.value !in SUPPORTED_ALGORITHMS then Err(UnsupportedAlgorithm)
    else if e.tfvLength.None? != e.tmacLength.None? then Err(OneSidedTruncation)
    else if e.tfvLength.Some? && e.tfvLength.value + e.tmacLength.value != TRUNCATION_BUDGET then Err(WrongBudget)
    else if e.keyId.None? || e.freshnessLength.None? || e.authenticatorLength.None? || e.profileVersion.None?
    then Err(MissingKey)
    else Ok(Profile(e.algorithm.value, e.keyId.value, e.freshnessLength.value, e.authenticatorLength.value,
                    e.profileVersion.value, e.tfvLength, e.tmacLength))
  }

  /** Both Classic CAN lengths are given, or neither is. */
  predicate BothOrNeither(e: RawEntry) {
    e.tfvLength.Some? <==> e.tmacLength.Some?
  }

  /** Nothing outside the schema, one of the two algorithms, a four-byte Classic CAN trailer or none, no key missing. */
  predicate Acceptable(e: RawEntry) {
    && e.extras == {}
    && (e.algorithm == Some("HMAC-SHA256") || e.algorithm == Some("HMAC-SHA512"))
    && BothOrNeither(e)
    && (e.tfvLength.Some? && e.tmacLength.Some? ==> e.tfvLength.value + e.tmacLength.value == 4)
    && e.keyId.Some? && e.freshnessLength.Some? && e.authenticatorLength.Some? && e.profileVersion.Some?
  }

  /** Which entries reload accepts, as what, and which complaint it has of each other: the first in this order. */
  lemma EntryOutcome(e: RawEntry)
    ensures CheckEntry(e).Ok? <==> Acceptable(e)
    ensures CheckEntry(e).Ok? ==> Describes(e, CheckEntry(e).value)
    ensures CheckEntry(e).Err? ==>
              var error := CheckEntry(e).error;
              if e.extras != {} then error == UnsupportedFields(e.extras)
              else if e.algorithm == None then error == MissingKey
              else if e.algorithm.value != "HMAC-SHA256" && e.algorithm.value != "HMAC-SHA512" then
                error == UnsupportedAlgorithm
              else if !BothOrNeither(e) then error == OneSidedTruncation
              else if e.tfvLength.Some? && e.tfvLength.value + e.tmacLength.value != 4 then error == WrongBudget
              else error == MissingKey
  {}

  /** The lengths on a transport are those that the profile gives for it. */
  predicate HasLengths(p: Profile, transport: Transport, f: nat, m: nat) {
    match transport
    case ClassicCan => p.tfvLength == Some(f) && p.tmacLength == Some(m)
    case CanFd => p.freshnessLength == f && p.authenticatorLength == m
  }

  lemma LengthsAre(p: Profile, transport: Transport, f: nat, m: nat)
    ensures p.TruncationLengths(transport) == Some((f, m)) <==> HasLengths(p, transport, f, m)
  {}

  /** The profile holds exactly what the entry says, and the entry says nothing outside the schema. */
  predicate Describes(e: RawEntry, p: Profile) {
    && e.extras == {}
    && e.algorithm == Some(p.algorithm) && e.keyId == Some(p.keyId) && e.profileVersion == Some(p.profileVersion)
    && e.freshnessLength == Some(p.freshnessLength) && e.authenticatorLength == Some(p.authenticatorLength)
    && e.tfvLength == p.tfvLength && e.tmacLength == p.tmacLength
  }

  /** The entries of a JSON object in file order; a JSON object has no repeated keys. */
  type RawConfig = seq<(string, RawEntry)>

  ghost predicate DistinctKeys(raw: RawConfig) {
    forall i, j :: 0 <= i < j < |raw| ==> raw[i].0 != raw[j].0
  }

  /** A profile that Classic CAN can carry: trailer lengths both set and four bytes in all, or neither set. */
  predicate FitsClassicCan(p: Profile) {
    match p.TruncationLengths(ClassicCan)
    case Some((f, m)) => f + m == TRUNCATION_BUDGET
    case None => p.tfvLength.None? && p.tmacLength.None?
  }

  class SecurityProfiles {
    var profiles: map<string, Profile>

    constructor ()
      ensures profiles == map[]
    {
      profiles := map[];
    }

    /**
     Loads the whole configuration or none of it. Success means that every
     entry passed its checks, and then exactly the configured PDUs have a
     profile, each the one its entry describes, each fit for Classic CAN and
     with a supported algorithm; the error is that of the first entry that
     fails.
     */
    method Reload(raw: RawConfig) returns (error: Option<ProfileError>)
      requires DistinctKeys(raw)
      modifies this
      ensures error.None? <==> forall i :: 0 <= i < |raw| ==> CheckEntry(raw[i].1).Ok?
      ensures error.None? ==> profiles.Keys == set i | 0 <= i < |raw| :: raw[i].0
      ensures error.None? ==> forall i :: 0 <= i < |raw| ==> Describes(raw[i].1, profiles[raw[i].0])
      ensures error.None? ==> forall p :: p in profiles ==>
                FitsClassicCan(profiles[p]) && profiles[p].algorithm in SUPPORTED_ALGORITHMS
      ensures error.Some? ==> profiles == old(profiles)
      ensures error.Some? ==> exists i :: 0 <= i < |raw| && CheckEntry(raw[i].1) == Err(error.value)
                                          && forall j :: 0 <= j < i ==> CheckEntry(raw[j].1).Ok?
    {
      var loaded: map<string, Profile> := map[];
      for i := 0 to |raw|
        invariant loaded.Keys == set j | 0 <= j < i :: raw[j].0
        invariant forall j :: 0 <= j < i ==> CheckEntry(raw[j].1).Ok? && Describes(raw[j].1, loaded[raw[j].0])
        invariant forall p :: p in loaded ==> FitsClassicCan(loaded[p]) && loaded[p].algorithm in SUPPORTED_ALGORITHMS
        invariant profiles == old(profiles)
      {
        var (pduId, entry) := raw[i];
        var checked := CheckEntry(entry);
        if checked.Err? {
          return Some(checked.error);
        }
        loaded := loaded[pduId := checked.value];
      }
      profiles := loaded;
      error := None;
    }
  }
}
