/** The `FeatureFlag` record: an immutable (key, value, consumer) triple compared ignoring case. */
module FeatureFlags {
  import opened Wrappers
  import opened Text

  /** The reserved consumer that stands for every consumer. */
  const UniversalConsumer: string := "*"

  datatype FeatureFlag = FeatureFlag(flagKey: string, value: string, consumer: string)

  /** The argument exceptions the source throws: `ArgumentNullException` and
      `ArgumentException` for an empty string, each naming the offending parameter. */
  datatype ArgumentError = ArgumentNull(paramName: string) | ArgumentEmpty(paramName: string)

  /** The public constructor. `flagKey` and `value` are nullable (`None` is `null`);
      `consumer` is `None` when the caller omits it, and then defaults to the universal consumer. */
  function NewFeatureFlag(flagKey: Option<string>, value: Option<string>, consumer: Option<string>): (r: Result<FeatureFlag, ArgumentError>)
    ensures r.Success? <==> flagKey.Some? && flagKey.value != "" && value.Some?
    ensures flagKey == None ==> r == Failure(ArgumentNull("flagKey"))
    ensures flagKey == Some("") ==> r == Failure(ArgumentEmpty("flagKey"))
    ensures flagKey.Some? && flagKey.value != "" && value == None ==> r == Failure(ArgumentNull("value"))
    ensures r.Success? ==> r.value.flagKey == flagKey.value && r.value.value == value.value
    ensures r.Success? && consumer == None ==> r.value.consumer == UniversalConsumer
    ensures r.Success? && consumer.Some? ==> r.value.consumer == consumer.value
  {
    if flagKey == None then Failure(ArgumentNull("flagKey"))
    else if flagKey.value == "" then Failure(ArgumentEmpty("flagKey"))
    else if value == None then Failure(ArgumentNull("value"))
    else
      var c := match consumer case Some(c) => c case None => UniversalConsumer;
      Success(FeatureFlag(flagKey.value, value.value, c))
  }

  /** `ToString()`: renders `consumer.key=>value`. */
  function ToString(f: FeatureFlag): string {
    f.consumer + "." + f.flagKey + "=>" + f.value
  }

  lemma FirstIndexOfSeparator(a: string, c: char, b: string)
    requires c !in a
    ensures FirstIndexOf(a + [c] + b, c) == |a|
  {
    var s := a + [c] + b;
    assert s[|a|] == c;
    assert forall i :: 0 <= i < |a| ==> s[i] == a[i];
  }

  /** A string cut at the first occurrence of a separator that the head does not hold
      determines both the head and the tail. */
  lemma SplitAtSeparator(a: string, b: string, a': string, b': string, c: char)
    requires c !in a && c !in a'
    requires a + [c] + b == a' + [c] + b'
    ensures a == a' && b == b'
  {
    var s := a + [c] + b;
    FirstIndexOfSeparator(a, c, b);
    FirstIndexOfSeparator(a', c, b');
    assert a == s[..|a|] && a' == s[..|a'|];
    assert b == s[|a| + 1..] && b' == s[|a'| + 1..];
  }

  /** The rendering can be read back when the consumer holds no '.' and the key no '='. */
  lemma ToStringInjective(f: FeatureFlag, g: FeatureFlag)
    requires '.' !in f.consumer && '.' !in g.consumer
    requires '=' !in f.flagKey && '=' !in g.flagKey
    requires ToString(f) == ToString(g)
    ensures f == g
  {
    var restF := f.flagKey + ['='] + (">" + f.value);
    var restG := g.flagKey + ['='] + (">" + g.value);
    assert ToString(f) == f.consumer + ['.'] + restF;
    assert ToString(g) == g.consumer + ['.'] + restG;
    SplitAtSeparator(f.consumer, restF, g.consumer, restG, '.');
    SplitAtSeparator(f.flagKey, ">" + f.value, g.flagKey, ">" + g.value, '=');
    assert f.value == (">" + f.value)[1..];
    assert g.value == (">" + g.value)[1..];
  }

  /** With a '.' inside the consumer the rendering is ambiguous. */
  lemma ToStringAmbiguousWithDottedConsumer()
    ensures ToString(FeatureFlag("b.c", "v", "a")) == ToString(FeatureFlag("c", "v", "a.b"))
    ensures FeatureFlag("b.c", "v", "a") != FeatureFlag("c", "v", "a.b")
  {
  }

  /** `Equals(FeatureFlag other)` once `other` is known to be non-null: every field equal ignoring case. */
  predicate FieldsEqualIgnoreCase(a: FeatureFlag, b: FeatureFlag) {
    && EqualsIgnoreCase(a.flagKey, b.flagKey)
    && EqualsIgnoreCase(a.value, b.value)
    && EqualsIgnoreCase(a.consumer, b.consumer)
  }

  /** `self.Equals(FeatureFlag? other)`, with `self` for the receiver: false for null, true for the same reference,
      otherwise the field comparison. The reference shortcut agrees with the field
      comparison because the latter is reflexive. */
  predicate Equals(self: FeatureFlag, other: Option<FeatureFlag>) {
    match other
    case None => false
    case Some(o) => FieldsEqualIgnoreCase(self, o)
  }

  /** `operator ==`, which calls the static `object.Equals(left, right)`: two nulls are equal,
      one null is not, otherwise `left.Equals(right)`. */
  predicate OperatorEquals(left: Option<FeatureFlag>, right: Option<FeatureFlag>) {
    match left
    case None => right == None
    case Some(l) => Equals(l, right)
  }

  /** `operator !=`. */
  predicate OperatorNotEquals(left: Option<FeatureFlag>, right: Option<FeatureFlag>) {
    !OperatorEquals(left, right)
  }

  lemma EqualsIsAnEquivalence(a: FeatureFlag, b: FeatureFlag, c: FeatureFlag)
    ensures Equals(a, Some(a))
    ensures Equals(a, Some(b)) <==> Equals(b, Some(a))
    ensures Equals(a, Some(b)) && Equals(b, Some(c)) ==> Equals(a, Some(c))
  {
  }

  lemma OperatorEqualsIsReflexiveAndSymmetric(l: Option<FeatureFlag>, r: Option<FeatureFlag>)
    ensures OperatorEquals(l, l)
    ensures OperatorEquals(l, r) <==> OperatorEquals(r, l)
    ensures OperatorNotEquals(l, r) <==> !OperatorEquals(l, r)
  {
  }

  /** Equality ignores case, so two flags with different exact identities can be equal. */
  lemma EqualsIgnoresCase()
    ensures Equals(FeatureFlag("Key-1", "TRUE", "Consumer-1"), Some(FeatureFlag("key-1", "true", "consumer-1")))
    ensures FeatureFlag("Key-1", "TRUE", "Consumer-1") != FeatureFlag("key-1", "true", "consumer-1")
  {
    assert Fold("Key-1") == "key-1";
    assert Fold("TRUE") == "true";
    assert Fold("Consumer-1") == "consumer-1";
  }

  const HashModulus: int := 0x1_0000_0000

  /** Hash of an already case-folded string, standing for the comparer's hash. */
  function StringHash(s: string, seed: int): (h: int)
    ensures 0 <= h < HashModulus
  {
    if s == [] then seed % HashModulus
    else (StringHash(s[..|s| - 1], seed) * 31 + s[|s| - 1] as int) % HashModulus
  }

  /** `GetHashCode()`: combines case-insensitive hashes of the three fields. The
      per-process random seed of `System.HashCode` is the parameter `seed`. */
  function GetHashCode(f: FeatureFlag, seed: int): (h: int)
    ensures 0 <= h < HashModulus
  {
    var hk := StringHash(Fold(f.flagKey), seed);
    var hv := StringHash(Fold(f.value), hk);
    StringHash(Fold(f.consumer), hv)
  }

  lemma EqualFlagsHaveEqualHashCodes(a: FeatureFlag, b: FeatureFlag, seed: int)
    requires Equals(a, Some(b))
    ensures GetHashCode(a, seed) == GetHashCode(b, seed)
  {
  }
}
