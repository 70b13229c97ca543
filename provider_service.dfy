/** `GrapioProviderService`: the gRPC service applications call. It streams the flags
    visible to a requester (its own and the universal ones), each converted to the
    OpenFeature type the detector assigns to the stored string. */
module ProviderService {
  import opened Wrappers
  import opened FeatureFlags
  import opened Repository
  import opened NumberParsing
  import opened Utf8
  import TypeDetection
  import opened Sequences

  /** The `oneof` value of a reply. The double itself is not modelled: `DoubleValue`
      carries the literal it is parsed from. */
  datatype TypedValue =
    | BooleanValue(b: bool)
    | IntegerValue(n: int)
    | DoubleValue(literal: string)
    | StringValue(s: string)
    | StructureValue(bytes: seq<Byte>)

  datatype FeatureFlagReply = FeatureFlagReply(key: string, value: TypedValue)

  /** The exceptions the service can end with: an argument error from the repository, the
      `NotSupportedException` of an undetected type, and the `FormatException` of a
      conversion that refuses the stored string. */
  datatype ProviderError =
    | Argument(error: ArgumentError)
    | NotSupported(message: string)
    | Conversion(value: string)

  function NotSupportedMessage(key: string): string {
    "Type is not supported for feature flag " + key + "."
  }

  /** The type a typed value carries. */
  function TypeOf(v: TypedValue): TypeDetection.OpenFeatureType {
    match v
    case BooleanValue(_) => TypeDetection.Boolean
    case IntegerValue(_) => TypeDetection.Integer
    case DoubleValue(_) => TypeDetection.Double
    case StringValue(_) => TypeDetection.String
    case StructureValue(_) => TypeDetection.Structured
  }

  /** `WriteFeatureFlagToStream` as written: `Convert.ToBoolean`, `Convert.ToInt32` and
      `Convert.ToDouble` by detected type, the string as is, or its UTF-8 bytes. */
  function TypedReplyAsWritten(t: TypeDetection.OpenFeatureType, ff: FeatureFlag): (r: Result<FeatureFlagReply, ProviderError>)
    ensures r.Success? ==> r.value.key == ff.flagKey && TypeOf(r.value.value) == t
    ensures r.Failure? && r.error.NotSupported? <==> t == TypeDetection.None
    ensures t == TypeDetection.None ==> r.error.message == NotSupportedMessage(ff.flagKey)
  {
    match t
    case Boolean =>
      (match ParseBool(ff.value)
       case Some(b) => Success(FeatureFlagReply(ff.flagKey, BooleanValue(b)))
       case None => Failure(Conversion(ff.value)))
    case Integer =>
      (match ParseInt32(ff.value)
       case Some(n) => Success(FeatureFlagReply(ff.flagKey, IntegerValue(n)))
       case None => Failure(Conversion(ff.value)))
    case Double =>
      if IsFloatLiteral(ff.value) then Success(FeatureFlagReply(ff.flagKey, DoubleValue(ff.value)))
      else Failure(Conversion(ff.value))
    case String => Success(FeatureFlagReply(ff.flagKey, StringValue(ff.value)))
    case Structured => Success(FeatureFlagReply(ff.flagKey, StructureValue(Encode(ff.value))))
    case None => Failure(NotSupported(NotSupportedMessage(ff.flagKey)))
  }

  /** As written, a stored "5-" (any digits then a sign) is detected as Double and then
      refused by `Convert.ToDouble`, so the stream ends with a `FormatException`. */
  lemma TrailingSignBreaksTheStream(ff: FeatureFlag, d: string, c: char)
    requires d != [] && AllDigits(d) && IsSign(c) && ff.value == d + [c]
    ensures TypeDetection.Classify(ff.value) == TypeDetection.Double
    ensures TypedReplyAsWritten(TypeDetection.Classify(ff.value), ff) == Failure(Conversion(ff.value))
  {
    TypeDetection.TrailingSignIsDouble(d, c);
    TrailingSignIsNotFloat(d, c);
  }

  /** The conversion the detection evidently intends: each detected type is converted
      with the grammar that detected it, so a Double is parsed with `NumberStyles.Number`. */
  function TypedReply(t: TypeDetection.OpenFeatureType, ff: FeatureFlag): (r: Result<FeatureFlagReply, ProviderError>)
    ensures r.Success? ==> r.value.key == ff.flagKey && TypeOf(r.value.value) == t
    ensures t != TypeDetection.Double ==> r == TypedReplyAsWritten(t, ff)
  {
    if t == TypeDetection.Double then
      if IsNumberLiteral(ff.value) then Success(FeatureFlagReply(ff.flagKey, DoubleValue(ff.value)))
      else Failure(Conversion(ff.value))
    else TypedReplyAsWritten(t, ff)
  }

  /** The typed value a stored string is delivered as: it has the detected type and gives
      back the stored string (the Boolean or `int` it parses to, the literal itself, the
      string, or bytes that decode to it). */
  function ValueOf(value: string): (v: TypedValue)
    ensures TypeOf(v) == TypeDetection.Classify(value)
    ensures v.BooleanValue? ==> ParseBool(value) == Some(v.b)
    ensures v.IntegerValue? ==> ParseInt32(value) == Some(v.n)
    ensures v.DoubleValue? ==> v.literal == value && IsNumberLiteral(value)
    ensures v.StringValue? ==> v.s == value
    ensures v.StructureValue? ==> Decode(v.bytes) == Some(value)
  {
    var t := TypeDetection.Classify(value);
    if t == TypeDetection.Boolean then BooleanValue(ParseBool(value).value)
    else if t == TypeDetection.Integer then IntegerValue(ParseInt32(value).value)
    else if t == TypeDetection.Double then DoubleValue(value)
    else if t == TypeDetection.Structured then DecodeEncode(value); StructureValue(Encode(value))
    else StringValue(value)
  }

  /** With the intended conversion, the detected type of every stored string converts:
      the reply never fails and carries `ValueOf` the stored string. */
  lemma DetectedTypeConverts(ff: FeatureFlag)
    ensures TypedReply(TypeDetection.Classify(ff.value), ff) == Success(FeatureFlagReply(ff.flagKey, ValueOf(ff.value)))
  {
    var t := TypeDetection.Classify(ff.value);
    var v := ValueOf(ff.value);
    if t == TypeDetection.Boolean {
      assert ParseBool(ff.value) == Some(v.b);
    } else if t == TypeDetection.Integer {
      assert ParseInt32(ff.value) == Some(v.n);
    } else if t == TypeDetection.Structured {
      assert v == StructureValue(Encode(ff.value));
    }
  }

  /** "true" and "false" are delivered as Booleans. */
  lemma TrueValue()
    ensures ValueOf("true") == BooleanValue(true)
  {
    TypeDetection.TrueExample();
  }

  lemma FalseValue()
    ensures ValueOf("false") == BooleanValue(false)
  {
    TypeDetection.FalseExample();
  }

  /** The rendering of every 32-bit integer is delivered as that integer. */
  lemma DecimalStringValue(n: int)
    requires Int32Min <= n <= Int32Max
    ensures ValueOf(DecimalString(n)) == IntegerValue(n)
  {
    TypeDetection.DecimalStringIsInteger(n);
    ParseInt32ReadsDecimalString(n);
  }

  /** Plain text is delivered unchanged. */
  lemma TextValue()
    ensures ValueOf("Jani") == StringValue("Jani")
  {
    TypeDetection.PlainText("Jani");
  }

  /** The reply a visible flag is streamed as with the intended conversion. */
  function Reply(ff: FeatureFlag): FeatureFlagReply {
    FeatureFlagReply(ff.flagKey, ValueOf(ff.value))
  }

  /** The reply a visible flag is streamed as by the code as written: detect, then convert. */
  function ReplyAsWritten(ff: FeatureFlag): Result<FeatureFlagReply, ProviderError> {
    TypedReplyAsWritten(TypeDetection.Classify(ff.value), ff)
  }

  /** As written, a visible flag fails to convert exactly when it is detected as Double
      and `Convert.ToDouble` refuses it; every other flag gets the intended reply. */
  lemma ReplyAsWrittenFails(ff: FeatureFlag)
    ensures ReplyAsWritten(ff).Failure? <==>
      TypeDetection.Classify(ff.value) == TypeDetection.Double && !IsFloatLiteral(ff.value)
    ensures ReplyAsWritten(ff).Failure? ==> ReplyAsWritten(ff).error == Conversion(ff.value)
    ensures ReplyAsWritten(ff).Success? ==> ReplyAsWritten(ff).value == Reply(ff)
  {
    DetectedTypeConverts(ff);
  }

  /** Whether the as-written conversion of a visible flag throws. */
  predicate FailsAsWritten(ff: FeatureFlag) {
    ReplyAsWritten(ff).Failure?
  }

  /** How many replies reach the stream before it ends: the position of the first flag
      whose as-written conversion throws, or all of them. */
  function Delivered(fs: seq<FeatureFlag>): (n: nat)
    ensures n <= |fs|
    ensures n < |fs| ==> FailsAsWritten(fs[n])
    ensures forall i :: 0 <= i < n ==> !FailsAsWritten(fs[i])
  {
    IndexWhere(fs, FailsAsWritten)
  }

  /** The stream the service evidently intends: one reply per visible flag, in order. */
  function IntendedStream(fs: seq<FeatureFlag>): (r: seq<FeatureFlagReply>)
    ensures |r| == |fs|
    ensures forall i :: 0 <= i < |fs| ==> r[i] == Reply(fs[i])
  {
    if fs == [] then [] else [Reply(fs[0])] + IntendedStream(fs[1..])
  }

  /** What the requester receives as written: the intended replies of the visible flags
      before the first one whose conversion throws, and then that `FormatException`; or,
      when every flag converts, the whole intended stream and no exception. */
  predicate StreamedAsWritten(fs: seq<FeatureFlag>, written: seq<FeatureFlagReply>, error: Option<ProviderError>) {
    && |written| == Delivered(fs)
    && (forall i :: 0 <= i < |written| ==> written[i] == Reply(fs[i]))
    && written <= IntendedStream(fs)
    && (error.None? <==> Delivered(fs) == |fs|)
    && (error.Some? ==> Delivered(fs) < |fs| && error.value == Conversion(fs[Delivered(fs)].value))
  }

  /** As written, a stored "5-" among the visible flags ends the stream at that flag or
      earlier: the requester receives fewer replies than the intended stream holds. */
  lemma TrailingSignTruncatesTheStream(fs: seq<FeatureFlag>, k: nat, d: string, c: char)
    requires k < |fs| && d != [] && AllDigits(d) && IsSign(c) && fs[k].value == d + [c]
    ensures Delivered(fs) <= k < |IntendedStream(fs)|
  {
    TrailingSignBreaksTheStream(fs[k], d, c);
    assert FailsAsWritten(fs[k]);
  }

  // ---------------------------------------------------------------- the service object

  class GrapioProviderService {
    const repository: FeatureFlagRepository
    const detector: TypeDetection.TypeDetector

    constructor (repository: FeatureFlagRepository, detector: TypeDetection.TypeDetector)
      ensures this.repository == repository && this.detector == detector
    {
      this.repository := repository;
      this.detector := detector;
    }

    /** `WriteFeatureFlagToStream`: the reply for the detected type, or the exception the
        conversion or the unsupported type throws. */
    method WriteFeatureFlagToStream(t: TypeDetection.OpenFeatureType, featureFlag: FeatureFlag)
      returns (r: Result<FeatureFlagReply, ProviderError>)
      ensures r == TypedReplyAsWritten(t, featureFlag)
    {
      r := TypedReplyAsWritten(t, featureFlag);
    }

    /** `FetchFeatureFlags`: writes the typed reply of each flag visible to the requester,
        in store order, until a conversion throws; the exception then ends the call and the
        replies already written stay written. An empty requester is rejected before
        anything is written. */
    method FetchFeatureFlags(requester: string) returns (written: seq<FeatureFlagReply>, error: Option<ProviderError>)
      requires detector.Valid()
      ensures requester == "" ==> written == [] && error == Some(Argument(ArgumentEmpty("consumer")))
      ensures requester != "" ==> StreamedAsWritten(ByConsumer(repository.flags, requester), written, error)
    {
      var featureFlags := repository.FetchFeatureFlagsByConsumer(requester);
      if featureFlags.Failure? {
        return [], Some(Argument(featureFlags.error));
      }
      var visible := featureFlags.value;
      assert visible == ByConsumer(repository.flags, requester);
      written := [];
      var i := 0;
      while i < |visible|
        invariant 0 <= i <= |visible|
        invariant |written| == i
        invariant forall j :: 0 <= j < i ==> ReplyAsWritten(visible[j]) == Success(written[j])
      {
        var t := detector.Detect(visible[i].value);
        var reply := WriteFeatureFlagToStream(t, visible[i]);
        assert reply == ReplyAsWritten(visible[i]);
        if reply.Failure? {
          RefusedReply(visible[i]);
          error := Some(reply.error);
          StreamEndsAt(visible, written, error);
          return;
        }
        written := written + [reply.value];
        i := i + 1;
      }
      error := None;
      StreamEndsAt(visible, written, error);
    }
  }

  /** Replies written one for one until a flag fails to convert, or to the end, are the
      delivered prefix of the intended stream. */
  lemma StreamEndsAt(fs: seq<FeatureFlag>, w: seq<FeatureFlagReply>, e: Option<ProviderError>)
    requires |w| <= |fs|
    requires forall j :: 0 <= j < |w| ==> ReplyAsWritten(fs[j]) == Success(w[j])
    requires |w| < |fs| ==> FailsAsWritten(fs[|w|]) && e == Some(Conversion(fs[|w|].value))
    requires |w| == |fs| ==> e == None
    ensures StreamedAsWritten(fs, w, e)
  {
    forall j | 0 <= j < |w|
      ensures w[j] == Reply(fs[j])
    {
      ReplyAsWrittenFails(fs[j]);
    }
    assert w == IntendedStream(fs)[..|w|];
  }

  /** A flag that does not convert as written ends the stream with a `FormatException`. */
  lemma RefusedReply(ff: FeatureFlag)
    requires FailsAsWritten(ff)
    ensures ReplyAsWritten(ff).error == Conversion(ff.value)
  {
    ReplyAsWrittenFails(ff);
  }
}
