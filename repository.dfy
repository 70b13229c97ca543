/** The flag store behind `FeatureFlagRepository`: a table keyed by (key, consumer).
    The database is a sequence of records in store order; keys are compared exactly
    (ordinal), as the store's primary key does, not ignoring case as `FeatureFlag.Equals` does. */
module Repository {
  import opened Wrappers
  import opened FeatureFlags

  /** The record stored under the identity (key, consumer). */
  predicate HasIdentity(f: FeatureFlag, key: string, consumer: string) {
    f.flagKey == key && f.consumer == consumer
  }

  /** The composite primary key: no two records share a (key, consumer) identity. */
  ghost predicate UniqueIdentities(s: seq<FeatureFlag>) {
    forall i, j :: 0 <= i < j < |s| ==> !HasIdentity(s[j], s[i].flagKey, s[i].consumer)
  }

  /** Position of the record with the given identity. */
  function IndexOf(s: seq<FeatureFlag>, key: string, consumer: string): (r: Option<nat>)
    ensures r.Some? ==> r.value < |s| && HasIdentity(s[r.value], key, consumer)
    ensures r.Some? ==> forall i :: 0 <= i < r.value ==> !HasIdentity(s[i], key, consumer)
    ensures r.None? ==> forall i :: 0 <= i < |s| ==> !HasIdentity(s[i], key, consumer)
  {
    if s == [] then None
    else if HasIdentity(s[0], key, consumer) then Some(0)
    else match IndexOf(s[1..], key, consumer)
      case None => None
      case Some(j) => Some(j + 1)
  }

  /** `FindAsync([key, consumer])`: exact point lookup, with no fallback to the universal consumer. */
  function Lookup(s: seq<FeatureFlag>, key: string, consumer: string): (r: Option<FeatureFlag>)
    ensures r.Some? ==> r.value in s && HasIdentity(r.value, key, consumer)
    ensures r.None? <==> forall f :: f in s ==> !HasIdentity(f, key, consumer)
  {
    match IndexOf(s, key, consumer)
    case None => None
    case Some(i) => Some(s[i])
  }

  /** Insert-or-update: overwrite the record with the same identity in place, or add it at the end. */
  function Upsert(s: seq<FeatureFlag>, f: FeatureFlag): (r: seq<FeatureFlag>)
    ensures f in r
    ensures forall x :: x in r ==> x == f || x in s
    ensures |r| == if Lookup(s, f.flagKey, f.consumer).Some? then |s| else |s| + 1
  {
    match IndexOf(s, f.flagKey, f.consumer)
    case None => s + [f]
    case Some(i) =>
      var r := s[i := f];
      assert r[i] == f;
      r
  }

  /** Delete-if-present by exact identity. */
  function Remove(s: seq<FeatureFlag>, key: string, consumer: string): (r: seq<FeatureFlag>)
    ensures forall x :: x in r ==> x in s
    ensures |r| == if Lookup(s, key, consumer).Some? then |s| - 1 else |s|
  {
    match IndexOf(s, key, consumer)
    case None => s
    case Some(i) => s[..i] + s[i + 1..]
  }

  /** LINQ `Where`: the records satisfying `p`, in store order. */
  function Where(s: seq<FeatureFlag>, p: FeatureFlag -> bool): (r: seq<FeatureFlag>)
    ensures |r| <= |s|
    ensures forall x :: x in r <==> x in s && p(x)
  {
    if s == [] then [] else (if p(s[0]) then [s[0]] else []) + Where(s[1..], p)
  }

  /** The query of `FetchFeatureFlagsByKey`. */
  function ByKey(s: seq<FeatureFlag>, key: string): (r: seq<FeatureFlag>)
    ensures forall x :: x in r <==> x in s && x.flagKey == key
  {
    Where(s, (ff: FeatureFlag) => ff.flagKey == key)
  }

  /** The query of `FetchFeatureFlagsByConsumer`: the consumer's own records plus the universal ones. */
  function ByConsumer(s: seq<FeatureFlag>, consumer: string): (r: seq<FeatureFlag>)
    ensures forall x :: x in r <==> x in s && (x.consumer == consumer || x.consumer == UniversalConsumer)
  {
    Where(s, (ff: FeatureFlag) => ff.consumer == consumer || ff.consumer == UniversalConsumer)
  }

  /** The (key, consumer) pairs of the store, in store order. */
  function Identities(s: seq<FeatureFlag>): (r: seq<(string, string)>)
    ensures |r| == |s|
  {
    seq(|s|, i requires 0 <= i < |s| => (s[i].flagKey, s[i].consumer))
  }

  // ---------------------------------------------------------------- properties

  /** A write is visible to the point lookup of its identity. */
  lemma UpsertThenLookup(s: seq<FeatureFlag>, f: FeatureFlag)
    ensures Lookup(Upsert(s, f), f.flagKey, f.consumer) == Some(f)
  {
    match IndexOf(s, f.flagKey, f.consumer) {
      case None =>
        assert Upsert(s, f)[|s|] == f;
        assert forall i :: 0 <= i < |s| ==> Upsert(s, f)[i] == s[i];
      case Some(k) =>
        assert Upsert(s, f)[k] == f;
    }
  }

  /** A write leaves the lookup of every other identity as it was. */
  lemma UpsertKeepsOtherIdentities(s: seq<FeatureFlag>, f: FeatureFlag, key: string, consumer: string)
    requires !HasIdentity(f, key, consumer)
    ensures Lookup(Upsert(s, f), key, consumer) == Lookup(s, key, consumer)
  {
    var r := Upsert(s, f);
    match IndexOf(s, f.flagKey, f.consumer) {
      case None =>
        assert r == s + [f];
        LookupAppend(s, f, key, consumer);
      case Some(j) =>
        assert forall i :: 0 <= i < |s| && i != j ==> r[i] == s[i];
        assert IndexOf(r, key, consumer) == IndexOf(s, key, consumer);
    }
  }

  lemma {:induction false} LookupAppend(s: seq<FeatureFlag>, f: FeatureFlag, key: string, consumer: string)
    requires !HasIdentity(f, key, consumer)
    ensures IndexOf(s + [f], key, consumer) == IndexOf(s, key, consumer)
  {
    if s != [] {
      assert (s + [f])[1..] == s[1..] + [f];
      LookupAppend(s[1..], f, key, consumer);
    }
  }

  /** Under unique identities, the lookup returns the one record carrying the identity. */
  lemma LookupFindsTheRecord(s: seq<FeatureFlag>, f: FeatureFlag)
    requires UniqueIdentities(s)
    requires f in s
    ensures Lookup(s, f.flagKey, f.consumer) == Some(f)
  {
    var m :| 0 <= m < |s| && s[m] == f;
    var k := IndexOf(s, f.flagKey, f.consumer).value;
    assert k == m;
  }

  lemma UpsertPreservesUniqueIdentities(s: seq<FeatureFlag>, f: FeatureFlag)
    requires UniqueIdentities(s)
    ensures UniqueIdentities(Upsert(s, f))
  {
  }

  /** Repeating the same upsert changes nothing more. */
  lemma UpsertIdempotent(s: seq<FeatureFlag>, f: FeatureFlag)
    ensures Upsert(Upsert(s, f), f) == Upsert(s, f)
  {
    var r := Upsert(s, f);
    UpsertThenLookup(s, f);
    var k := IndexOf(r, f.flagKey, f.consumer).value;
    assert r[k] == f;
    assert r[k := f] == r;
  }

  /** After a delete, the point lookup of that identity finds nothing. */
  lemma RemoveThenLookup(s: seq<FeatureFlag>, key: string, consumer: string)
    requires UniqueIdentities(s)
    ensures Lookup(Remove(s, key, consumer), key, consumer) == None
  {
    match IndexOf(s, key, consumer) {
      case None =>
      case Some(k) =>
        var r := Remove(s, key, consumer);
        forall i | 0 <= i < |r|
          ensures !HasIdentity(r[i], key, consumer)
        {
          if i < k { assert r[i] == s[i]; } else { assert r[i] == s[i + 1]; }
        }
    }
  }

  /** A delete of an absent identity leaves the store unchanged. */
  lemma RemoveAbsentIsNoOp(s: seq<FeatureFlag>, key: string, consumer: string)
    requires Lookup(s, key, consumer) == None
    ensures Remove(s, key, consumer) == s
  {
  }

  /** A delete leaves the lookup of every other identity as it was. */
  lemma RemoveKeepsOtherIdentities(s: seq<FeatureFlag>, key: string, consumer: string, key': string, consumer': string)
    requires UniqueIdentities(s)
    requires (key, consumer) != (key', consumer')
    ensures Lookup(Remove(s, key, consumer), key', consumer') == Lookup(s, key', consumer')
  {
    var r := Remove(s, key, consumer);
    RemovePreservesUniqueIdentities(s, key, consumer);
    match Lookup(s, key', consumer') {
      case None =>
      case Some(g) =>
        var m :| 0 <= m < |s| && s[m] == g;
        match IndexOf(s, key, consumer) {
          case None =>
          case Some(k) =>
            assert m != k;
            if m < k { assert r[m] == g; } else { assert r[m - 1] == g; }
        }
        LookupFindsTheRecord(r, g);
    }
  }

  lemma RemovePreservesUniqueIdentities(s: seq<FeatureFlag>, key: string, consumer: string)
    requires UniqueIdentities(s)
    ensures UniqueIdentities(Remove(s, key, consumer))
  {
    match IndexOf(s, key, consumer) {
      case None =>
      case Some(k) =>
        var r := Remove(s, key, consumer);
        assert forall i :: 0 <= i < |r| ==> r[i] == if i < k then s[i] else s[i + 1];
    }
  }

  /** `Where` keeps store order: it distributes over concatenation. */
  lemma {:induction false} WhereConcat(a: seq<FeatureFlag>, b: seq<FeatureFlag>, p: FeatureFlag -> bool)
    ensures Where(a + b, p) == Where(a, p) + Where(b, p)
  {
    if a == [] {
      assert a + b == b;
    } else {
      assert (a + b)[1..] == a[1..] + b;
      WhereConcat(a[1..], b, p);
    }
  }

  /** The listing names each stored identity exactly once. */
  lemma IdentitiesAreDistinct(s: seq<FeatureFlag>)
    requires UniqueIdentities(s)
    ensures forall i, j :: 0 <= i < j < |s| ==> Identities(s)[i] != Identities(s)[j]
    ensures forall id :: id in Identities(s) <==> exists f :: f in s && id == (f.flagKey, f.consumer)
  {
    forall id | id in Identities(s)
      ensures exists f :: f in s && id == (f.flagKey, f.consumer)
    {
      var i :| 0 <= i < |s| && Identities(s)[i] == id;
      assert s[i] in s;
    }
    forall f | f in s
      ensures (f.flagKey, f.consumer) in Identities(s)
    {
      var i :| 0 <= i < |s| && s[i] == f;
      assert Identities(s)[i] == (f.flagKey, f.consumer);
    }
  }

  // ---------------------------------------------------------------- the repository object

  /** `FeatureFlagRepository`: the store's operations over the table it owns. */
  class FeatureFlagRepository {
    var flags: seq<FeatureFlag>

    ghost predicate Valid()
      reads this
    {
      UniqueIdentities(flags)
    }

    /** Opens a repository over a table that already holds `initial`, which the
        table's primary key keeps free of duplicate identities. */
    constructor (initial: seq<FeatureFlag>)
      requires UniqueIdentities(initial)
      ensures Valid() && flags == initial
    {
      flags := initial;
    }

    /** `InsertOrUpdateFeatureFlag`. */
    method InsertOrUpdateFeatureFlag(featureFlag: FeatureFlag)
      requires Valid()
      modifies this
      ensures Valid()
      ensures flags == Upsert(old(flags), featureFlag)
    {
      var existing := IndexOf(flags, featureFlag.flagKey, featureFlag.consumer);
      if existing == None {
        flags := flags + [featureFlag];
      } else {
        flags := flags[existing.value := featureFlag];
      }
      UpsertPreservesUniqueIdentities(old(flags), featureFlag);
    }

    /** `DeleteFeatureFlag`: rejects an empty key or consumer, otherwise removes the
        record if present and returns quietly if not. */
    method DeleteFeatureFlag(key: string, consumer: string) returns (r: Result<(), ArgumentError>)
      requires Valid()
      modifies this
      ensures Valid()
      ensures key == "" ==> r == Failure(ArgumentEmpty("key"))
      ensures key != "" && consumer == "" ==> r == Failure(ArgumentEmpty("consumer"))
      ensures r.Success? <==> key != "" && consumer != ""
      ensures flags == if r.Success? then Remove(old(flags), key, consumer) else old(flags)
    {
      if key == "" {
        return Failure(ArgumentEmpty("key"));
      }
      if consumer == "" {
        return Failure(ArgumentEmpty("consumer"));
      }
      var featureFlag := IndexOf(flags, key, consumer);
      if featureFlag == None {
        return Success(());
      }
      var k := featureFlag.value;
      flags := flags[..k] + flags[k + 1..];
      RemovePreservesUniqueIdentities(old(flags), key, consumer);
      r := Success(());
    }

    /** `FetchFeatureFlagsByKey`. */
    function FetchFeatureFlagsByKey(key: string): (r: Result<seq<FeatureFlag>, ArgumentError>)
      reads this
      ensures r.Failure? <==> key == ""
      ensures r.Failure? ==> r.error == ArgumentEmpty("key")
      ensures r.Success? ==> forall x :: x in r.value <==> x in flags && x.flagKey == key
    {
      if key == "" then Failure(ArgumentEmpty("key")) else Success(ByKey(flags, key))
    }

    /** `FetchFeatureFlagsByConsumer`. */
    function FetchFeatureFlagsByConsumer(consumer: string): (r: Result<seq<FeatureFlag>, ArgumentError>)
      reads this
      ensures r.Failure? <==> consumer == ""
      ensures r.Failure? ==> r.error == ArgumentEmpty("consumer")
      ensures r.Success? ==> forall x :: x in r.value <==>
        x in flags && (x.consumer == consumer || x.consumer == UniversalConsumer)
    {
      if consumer == "" then Failure(ArgumentEmpty("consumer")) else Success(ByConsumer(flags, consumer))
    }

    /** `FetchFeatureFlagByKeyAndConsumer`: `Success(None)` is the `null` of a miss. */
    function FetchFeatureFlagByKeyAndConsumer(key: string, consumer: string): (r: Result<Option<FeatureFlag>, ArgumentError>)
      reads this
      ensures key == "" ==> r == Failure(ArgumentEmpty("key"))
      ensures key != "" && consumer == "" ==> r == Failure(ArgumentEmpty("consumer"))
      ensures r.Success? <==> key != "" && consumer != ""
      ensures r.Success? && r.value.Some? ==> r.value.value in flags && HasIdentity(r.value.value, key, consumer)
      ensures r.Success? && r.value.None? ==> forall f :: f in flags ==> !HasIdentity(f, key, consumer)
    {
      if key == "" then Failure(ArgumentEmpty("key"))
      else if consumer == "" then Failure(ArgumentEmpty("consumer"))
      else Success(Lookup(flags, key, consumer))
    }

    /** `FetchFeatureFlags`: yields the identity of every record, in store order. */
    method FetchFeatureFlags() returns (ids: seq<(string, string)>)
      ensures ids == Identities(flags)
      ensures |ids| == |flags|
      ensures forall i :: 0 <= i < |flags| ==> ids[i] == (flags[i].flagKey, flags[i].consumer)
    {
      ids := [];
      var i := 0;
      while i < |flags|
        invariant 0 <= i <= |flags|
        invariant |ids| == i
        invariant forall j :: 0 <= j < i ==> ids[j] == (flags[j].flagKey, flags[j].consumer)
      {
        ids := ids + [(flags[i].flagKey, flags[i].consumer)];
        i := i + 1;
      }
      assert ids == Identities(flags);
    }
  }
}
