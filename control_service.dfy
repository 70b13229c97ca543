/** `GrapioControlService`: the administrative gRPC service. It sets and unsets flags
    under the scoping policy (a key is served either to everyone, through the universal
    consumer "*", or to specific consumers, never both) and streams the stored flags. */
module ControlService {
  import opened Wrappers
  import opened FeatureFlags
  import opened Repository

  datatype FeatureFlagControlReply = FeatureFlagControlReply(success: bool, message: string)

  /** A fetched flag; an unpopulated reply carries the protobuf defaults. */
  datatype FeatureFlagFetchReply = FeatureFlagFetchReply(key: string, consumer: string, value: string, isPopulated: bool)

  datatype FeatureFlagsFetchReply = FeatureFlagsFetchReply(key: string, consumer: string)

  function SpecificConsumerExists(key: string): string {
    "A specific consumer exists for " + key + ". A universal consumer cannot be added for the same key."
  }

  function UniversalConsumerExists(key: string): string {
    "A universal consumer exists for " + key + ". A specific consumer cannot be added for the same key."
  }

  function SetSucceeded(key: string, consumer: string): string {
    "Successfully set (" + key + "," + consumer + ")."
  }

  function UnsetSucceeded(key: string, consumer: string): string {
    "Successfully unset (" + key + "," + consumer + ")."
  }

  /** Whether `f` is served to every consumer. */
  predicate IsUniversal(f: FeatureFlag) {
    f.consumer == UniversalConsumer
  }

  /** The two refusal rules of `SetFeatureFlag`, checked in order over the records
      already stored under the key: a universal write when a specific record exists,
      then a specific write when a universal record exists. */
  function ScopingConflict(key: string, consumer: string, existing: seq<FeatureFlag>): (r: Option<string>)
    ensures r.None? <==> forall f :: f in existing ==> (IsUniversal(f) <==> consumer == UniversalConsumer)
    ensures r.Some? ==> r.value == if consumer == UniversalConsumer then SpecificConsumerExists(key) else UniversalConsumerExists(key)
  {
    if consumer == UniversalConsumer && exists f :: f in existing && !IsUniversal(f) then
      Some(SpecificConsumerExists(key))
    else if consumer != UniversalConsumer && exists f :: f in existing && IsUniversal(f) then
      Some(UniversalConsumerExists(key))
    else
      None
  }

  /** The policy the refusals keep: no key is held both by the universal consumer and by
      a specific consumer. */
  ghost predicate ScopingConsistent(s: seq<FeatureFlag>) {
    forall f, g :: f in s && g in s && f.flagKey == g.flagKey ==> (IsUniversal(f) <==> IsUniversal(g))
  }

  /** The answer of `SetFeatureFlag` on a store holding `s`. An empty key is rejected by
      the key query before any rule is checked. */
  function SetOutcome(s: seq<FeatureFlag>, key: string, value: string, consumer: string): (r: Result<FeatureFlagControlReply, ArgumentError>)
    ensures r.Failure? <==> key == ""
    ensures r.Failure? ==> r.error == ArgumentEmpty("key")
    ensures r.Success? ==> (r.value.success <==>
      forall f :: f in s && f.flagKey == key ==> (IsUniversal(f) <==> consumer == UniversalConsumer))
    ensures r.Success? && r.value.success ==> r.value.message == SetSucceeded(key, consumer)
  {
    if key == "" then Failure(ArgumentEmpty("key"))
    else match ScopingConflict(key, consumer, ByKey(s, key))
      case Some(message) => Success(FeatureFlagControlReply(false, message))
      case None => Success(FeatureFlagControlReply(true, SetSucceeded(key, consumer)))
  }

  /** The store after `SetFeatureFlag`: the write happens only when the call succeeds. */
  function SetEffect(s: seq<FeatureFlag>, key: string, value: string, consumer: string): seq<FeatureFlag> {
    var r := SetOutcome(s, key, value, consumer);
    if r.Success? && r.value.success then Upsert(s, FeatureFlag(key, value, consumer)) else s
  }

  // ---------------------------------------------------------------- properties of the policy

  /** Every write the policy lets through keeps the store scoping-consistent. */
  lemma SetKeepsScopingConsistent(s: seq<FeatureFlag>, key: string, value: string, consumer: string)
    requires ScopingConsistent(s)
    ensures ScopingConsistent(SetEffect(s, key, value, consumer))
  {
    var r := SetEffect(s, key, value, consumer);
    var n := FeatureFlag(key, value, consumer);
    forall f, g | f in r && g in r && f.flagKey == g.flagKey
      ensures IsUniversal(f) <==> IsUniversal(g)
    {
      if r != s {
        assert f == n || f in s;
        assert g == n || g in s;
      }
    }
  }

  /** A delete never breaks the scoping policy. */
  lemma RemoveKeepsScopingConsistent(s: seq<FeatureFlag>, key: string, consumer: string)
    requires ScopingConsistent(s)
    ensures ScopingConsistent(Remove(s, key, consumer))
  {
    var r := Remove(s, key, consumer);
    assert forall f :: f in r ==> f in s;
  }

  /** A successful set is visible to the point lookup of its identity; a refused or
      rejected one leaves the store as it was. */
  lemma SetThenLookup(s: seq<FeatureFlag>, key: string, value: string, consumer: string)
    ensures var r := SetOutcome(s, key, value, consumer);
      if r.Success? && r.value.success
      then Lookup(SetEffect(s, key, value, consumer), key, consumer) == Some(FeatureFlag(key, value, consumer))
      else SetEffect(s, key, value, consumer) == s
  {
    UpsertThenLookup(s, FeatureFlag(key, value, consumer));
  }

  /** Updating the value of a stored record is never refused by the policy. */
  lemma UpdateOfStoredRecordAllowed(s: seq<FeatureFlag>, f: FeatureFlag, value: string)
    requires ScopingConsistent(s) && f in s && f.flagKey != ""
    ensures SetOutcome(s, f.flagKey, value, f.consumer) == Success(FeatureFlagControlReply(true, SetSucceeded(f.flagKey, f.consumer)))
  {
    var existing := ByKey(s, f.flagKey);
    forall g | g in existing
      ensures IsUniversal(g) <==> f.consumer == UniversalConsumer
    {
      assert g in s && g.flagKey == f.flagKey;
    }
    assert ScopingConflict(f.flagKey, f.consumer, existing).None?;
  }

  /** Once a key is held by a specific consumer, a universal write for it is refused with
      the first message. */
  lemma UniversalRefusedAfterSpecific(s: seq<FeatureFlag>, f: FeatureFlag, value: string)
    requires f in s && f.flagKey != "" && !IsUniversal(f)
    ensures SetOutcome(s, f.flagKey, value, UniversalConsumer)
      == Success(FeatureFlagControlReply(false, SpecificConsumerExists(f.flagKey)))
  {
    assert f in ByKey(s, f.flagKey);
  }

  /** Once a key is held by the universal consumer, a specific write for it is refused
      with the second message. */
  lemma SpecificRefusedAfterUniversal(s: seq<FeatureFlag>, f: FeatureFlag, value: string, consumer: string)
    requires f in s && f.flagKey != "" && IsUniversal(f) && consumer != UniversalConsumer
    ensures SetOutcome(s, f.flagKey, value, consumer)
      == Success(FeatureFlagControlReply(false, UniversalConsumerExists(f.flagKey)))
  {
    assert f in ByKey(s, f.flagKey);
  }

  // ---------------------------------------------------------------- replies

  /** `PopulateFeatureFlagFetchReply`. */
  function Populate(ff: FeatureFlag): FeatureFlagFetchReply {
    FeatureFlagFetchReply(ff.flagKey, ff.consumer, ff.value, true)
  }

  /** The reply to a point fetch that found nothing. */
  const Unpopulated: FeatureFlagFetchReply := FeatureFlagFetchReply("", "", "", false)

  /** What a client reads back from a fetch reply. */
  function ReplyFlag(reply: FeatureFlagFetchReply): Option<FeatureFlag> {
    if reply.isPopulated then Some(FeatureFlag(reply.key, reply.value, reply.consumer)) else None
  }

  /** A populated reply carries the whole flag; an unpopulated one carries none. */
  lemma PopulateKeepsTheFlag(ff: FeatureFlag)
    ensures ReplyFlag(Populate(ff)) == Some(ff)
    ensures ReplyFlag(Unpopulated) == None
  {
  }

  /** A stream written record by record lists exactly the records it was given. */
  lemma {:induction false} RepliesListTheFlags(fs: seq<FeatureFlag>, stream: seq<FeatureFlagFetchReply>)
    requires |stream| == |fs| && forall i :: 0 <= i < |fs| ==> stream[i] == Populate(fs[i])
    ensures forall f :: Populate(f) in stream <==> f in fs
  {
    forall f | Populate(f) in stream
      ensures f in fs
    {
      var i :| 0 <= i < |stream| && stream[i] == Populate(f);
      assert fs[i] == f;
    }
    forall f | f in fs
      ensures Populate(f) in stream
    {
      var i :| 0 <= i < |fs| && fs[i] == f;
      assert stream[i] == Populate(f);
    }
  }

  /** Writes one populated reply per record, in order. */
  method WriteFeatureFlagsToStream(featureFlags: seq<FeatureFlag>) returns (stream: seq<FeatureFlagFetchReply>)
    ensures |stream| == |featureFlags|
    ensures forall i :: 0 <= i < |featureFlags| ==> ReplyFlag(stream[i]) == Some(featureFlags[i])
    ensures forall i :: 0 <= i < |featureFlags| ==> stream[i] == Populate(featureFlags[i])
  {
    stream := [];
    var i := 0;
    while i < |featureFlags|
      invariant 0 <= i <= |featureFlags|
      invariant |stream| == i
      invariant forall j :: 0 <= j < i ==> stream[j] == Populate(featureFlags[j])
    {
      stream := stream + [Populate(featureFlags[i])];
      i := i + 1;
    }
  }

  // ---------------------------------------------------------------- the service object

  class GrapioControlService {
    const repository: FeatureFlagRepository

    constructor (repository: FeatureFlagRepository)
      ensures this.repository == repository
    {
      this.repository := repository;
    }

    /** `SetFeatureFlag`: refuses a write that would mix universal and specific
        consumers under one key, otherwise inserts or updates the flag. */
    method SetFeatureFlag(key: string, value: string, consumer: string) returns (r: Result<FeatureFlagControlReply, ArgumentError>)
      requires repository.Valid()
      modifies repository
      ensures repository.Valid()
      ensures r == SetOutcome(old(repository.flags), key, value, consumer)
      ensures repository.flags == SetEffect(old(repository.flags), key, value, consumer)
    {
      var fetched := repository.FetchFeatureFlagsByKey(key);
      if fetched.Failure? {
        return Failure(fetched.error);
      }
      var featureFlags := fetched.value;
      if consumer == UniversalConsumer && exists ff :: ff in featureFlags && ff.consumer != UniversalConsumer {
        ghost var ff :| ff in featureFlags && ff.consumer != UniversalConsumer;
        UniversalRefusedAfterSpecific(repository.flags, ff, value);
        return Success(FeatureFlagControlReply(false, SpecificConsumerExists(key)));
      }
      if consumer != UniversalConsumer && exists ff :: ff in featureFlags && ff.consumer == UniversalConsumer {
        ghost var ff :| ff in featureFlags && ff.consumer == UniversalConsumer;
        SpecificRefusedAfterUniversal(repository.flags, ff, value, consumer);
        return Success(FeatureFlagControlReply(false, UniversalConsumerExists(key)));
      }
      var created := NewFeatureFlag(Some(key), Some(value), Some(consumer));
      repository.InsertOrUpdateFeatureFlag(created.value);
      return Success(FeatureFlagControlReply(true, SetSucceeded(key, consumer)));
    }

    /** `UnsetFeatureFlag`: deletes the flag if present; an absent flag also succeeds. */
    method UnsetFeatureFlag(key: string, consumer: string) returns (r: Result<FeatureFlagControlReply, ArgumentError>)
      requires repository.Valid()
      modifies repository
      ensures repository.Valid()
      ensures key == "" ==> r == Failure(ArgumentEmpty("key"))
      ensures key != "" && consumer == "" ==> r == Failure(ArgumentEmpty("consumer"))
      ensures key != "" && consumer != "" ==> r == Success(FeatureFlagControlReply(true, UnsetSucceeded(key, consumer)))
      ensures repository.flags == if r.Success? then Remove(old(repository.flags), key, consumer) else old(repository.flags)
    {
      var deleted := repository.DeleteFeatureFlag(key, consumer);
      if deleted.Failure? {
        return Failure(deleted.error);
      }
      return Success(FeatureFlagControlReply(true, UnsetSucceeded(key, consumer)));
    }

    /** `FetchFeatureFlagByKeyAndConsumer`: the populated record, or an unpopulated reply. */
    function FetchFeatureFlagByKeyAndConsumer(key: string, consumer: string): (r: Result<FeatureFlagFetchReply, ArgumentError>)
      reads repository
      ensures key == "" ==> r == Failure(ArgumentEmpty("key"))
      ensures key != "" && consumer == "" ==> r == Failure(ArgumentEmpty("consumer"))
      ensures r.Success? <==> key != "" && consumer != ""
      ensures r.Success? ==> (r.value.isPopulated <==> exists f :: f in repository.flags && HasIdentity(f, key, consumer))
      ensures r.Success? && r.value.isPopulated ==>
        r.value.key == key && r.value.consumer == consumer && ReplyFlag(r.value).value in repository.flags
      ensures r.Success? && !r.value.isPopulated ==> r.value == Unpopulated
    {
      match repository.FetchFeatureFlagByKeyAndConsumer(key, consumer)
      case Failure(e) => Failure(e)
      case Success(None) => Success(Unpopulated)
      case Success(Some(ff)) => Success(Populate(ff))
    }

    /** `FetchFeatureFlags`: one reply per stored identity, in store order. */
    method FetchFeatureFlags() returns (stream: seq<FeatureFlagsFetchReply>)
      ensures |stream| == |repository.flags|
      ensures forall i :: 0 <= i < |stream| ==>
        stream[i] == FeatureFlagsFetchReply(repository.flags[i].flagKey, repository.flags[i].consumer)
    {
      var featureFlags := repository.FetchFeatureFlags();
      stream := [];
      var i := 0;
      while i < |featureFlags|
        invariant 0 <= i <= |featureFlags|
        invariant |stream| == i
        invariant forall j :: 0 <= j < i ==> stream[j] == FeatureFlagsFetchReply(featureFlags[j].0, featureFlags[j].1)
      {
        stream := stream + [FeatureFlagsFetchReply(featureFlags[i].0, featureFlags[i].1)];
        i := i + 1;
      }
    }

    /** `FetchFeatureFlagsByKey`: one populated reply per record stored under the key, in
        store order. */
    method FetchFeatureFlagsByKey(key: string) returns (r: Result<seq<FeatureFlagFetchReply>, ArgumentError>)
      ensures key == "" ==> r == Failure(ArgumentEmpty("key"))
      ensures key != "" ==> r.Success?
      ensures r.Success? ==> forall f :: Populate(f) in r.value <==> f in repository.flags && f.flagKey == key
      ensures r.Success? ==> forall reply :: reply in r.value ==> reply.isPopulated && reply.key == key
      ensures r.Success? ==> |r.value| == |ByKey(repository.flags, key)|
      ensures r.Success? ==> forall i :: 0 <= i < |r.value| ==> r.value[i] == Populate(ByKey(repository.flags, key)[i])
    {
      var featureFlags := repository.FetchFeatureFlagsByKey(key);
      if featureFlags.Failure? {
        return Failure(featureFlags.error);
      }
      var stream := WriteFeatureFlagsToStream(featureFlags.value);
      RepliesListTheFlags(featureFlags.value, stream);
      return Success(stream);
    }

    /** `FetchFeatureFlagsByConsumer`: one populated reply per record of the consumer or of
        the universal consumer, in store order. */
    method FetchFeatureFlagsByConsumer(consumer: string) returns (r: Result<seq<FeatureFlagFetchReply>, ArgumentError>)
      ensures consumer == "" ==> r == Failure(ArgumentEmpty("consumer"))
      ensures consumer != "" ==> r.Success?
      ensures r.Success? ==> forall f :: Populate(f) in r.value <==>
        f in repository.flags && (f.consumer == consumer || IsUniversal(f))
      ensures r.Success? ==> forall reply :: reply in r.value ==> reply.isPopulated
      ensures r.Success? ==> |r.value| == |ByConsumer(repository.flags, consumer)|
      ensures r.Success? ==> forall i :: 0 <= i < |r.value| ==> r.value[i] == Populate(ByConsumer(repository.flags, consumer)[i])
    {
      var featureFlags := repository.FetchFeatureFlagsByConsumer(consumer);
      if featureFlags.Failure? {
        return Failure(featureFlags.error);
      }
      var stream := WriteFeatureFlagsToStream(featureFlags.value);
      RepliesListTheFlags(featureFlags.value, stream);
      return Success(stream);
    }
  }
}
