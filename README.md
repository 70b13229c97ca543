# Grapio server core in Dafny

Grapio is a feature-flag server. Flags are `(key, value, consumer)` triples kept in a table keyed by
`(key, consumer)`. The consumer `"*"` is the universal consumer: its flags are served to everyone.

It offers two gRPC services:

- The **control service** sets, unsets and lists flags. It enforces one scoping policy: a key is held
  either by the universal consumer or by specific consumers, never both.
- The **provider service** streams to an application the flags visible to it. It converts each stored
  string to an OpenFeature type (Boolean, Integer, Double, String or Structured), chosen by a
  first-match cascade of detectors.

A start-up validator checks the SQLite connection string.

This project models that core and proves what it promises. The modules are:

| module | file | flavour |
|---|---|---|
| `Wrappers` | `wrappers.dfy` | `Option` and `Result` |
| `Sequences` | `sequences.dfy` | the first position in a sequence that satisfies a predicate |
| `Text` | `text.dfy` | the .NET string primitives the core calls: `char.IsWhiteSpace`, `Trim`, ordinal `StartsWith`/`EndsWith`/`Contains`, case-insensitive equality |
| `FeatureFlags` | `feature_flag.dfy` | the `FeatureFlag` record as a datatype: constructor checks, `ToString`, case-insensitive `Equals`, `GetHashCode` and the operators |
| `Repository` | `repository.dfy` | the table as a sequence in store order, with specification functions. The class `FeatureFlagRepository` updates its `flags` field in place. |
| `NumberParsing` | `number_parsing.dfy` | the grammars of `bool.TryParse`, `int.TryParse` (`NumberStyles.Integer`), `double.TryParse` (`NumberStyles.Number`) and `double.Parse` (`Float \| AllowThousands`) under the invariant culture |
| `TypeDetection` | `type_detector.dfy` | the detectors and their cascade. The class `TypeDetector` holds the detector list; its `Detect` method is a loop. |
| `Utf8` | `utf8.dfy` | `Encoding.UTF8`, used for structured payloads, with a strict decoder |
| `ControlService` | `control_service.dfy` | the Set/Unset policy as functions. The class `GrapioControlService` works over a repository object. |
| `ProviderService` | `provider_service.dfy` | the typed conversion, as written and as evidently intended. The class `GrapioProviderService` streams the replies as written and stops at the first conversion that throws. |
| `Configuration` | `configuration.dfy` | the connection-string rule |

How the model handles exceptions and streams:

- A thrown `ArgumentException` or `ArgumentNullException` becomes `Failure(ArgumentEmpty(name))` or
  `Failure(ArgumentNull(name))`.
- A gRPC response stream becomes the sequence of replies written to it.

Where the documented behaviour and the code differ, the model follows the code:

- The JSON-like test is asymmetric. The `{` case trims the value before checking its first
  character. The `[` case trims neither end (TypeDetector.cs:30). A description that trims before
  both opening checks does not match the code.
- Every closing-symbol check is on the untrimmed value.
- The provider service converts a Double with `Convert.ToDouble`, which refuses some values the
  Double detector accepts. The class streams as the code does: the exception ends the stream
  after the replies already written (see Findings). The intended stream is a separate function.

## Model

| member | source | states |
|---|---|---|
| FeatureFlags.NewFeatureFlag | src/Grapio.Server/Grapio.Server/FeatureFlag.cs:13-21 | a null key is rejected with `ArgumentNull("flagKey")`, an empty key with `ArgumentEmpty("flagKey")` and a null value with `ArgumentNull("value")`; otherwise the flag holds exactly the given fields, and an omitted consumer defaults to "*" |
| FeatureFlags.ToStringInjective | src/Grapio.Server/Grapio.Server/FeatureFlag.cs:23-26 | the rendering `consumer.key=>value` determines the flag when the consumer holds no '.' and the key no '=' |
| FeatureFlags.ToStringAmbiguousWithDottedConsumer | src/Grapio.Server/Grapio.Server/FeatureFlag.cs:23-26 | with a '.' in the consumer, two different flags render alike |
| FeatureFlags.EqualsIsAnEquivalence | src/Grapio.Server/Grapio.Server/FeatureFlag.cs:28-39 | `Equals` is reflexive, symmetric and transitive, so the reference-equality shortcut agrees with the field comparison |
| FeatureFlags.OperatorEqualsIsReflexiveAndSymmetric | src/Grapio.Server/Grapio.Server/FeatureFlag.cs:61-69 | `==` is reflexive and symmetric, including on nulls; `!=` is its negation |
| FeatureFlags.EqualsIgnoresCase | src/Grapio.Server/Grapio.Server/FeatureFlag.cs:36-38 | two flags that differ only in letter case are `Equals` but are different records |
| FeatureFlags.GetHashCode | src/Grapio.Server/Grapio.Server/FeatureFlag.cs:52-59 | the hash is a 32-bit value |
| FeatureFlags.EqualFlagsHaveEqualHashCodes | src/Grapio.Server/Grapio.Server/FeatureFlag.cs:52-59 | flags that are `Equals` have equal hash codes (under the same process seed) |
| Repository.IndexOf | src/Grapio.Server/Grapio.Server/FeatureFlagRepository.cs:21 | the position found holds the identity and no earlier record does; `None` means no record holds it |
| Repository.Lookup | src/Grapio.Server/Grapio.Server/FeatureFlagRepository.cs:88 | the record found is stored and has exactly the requested identity; `None` iff no stored record has it |
| Repository.Upsert | src/Grapio.Server/Grapio.Server/FeatureFlagRepository.cs:21-34 | the new flag is stored, every other record was already stored, and the count grows by one exactly when the identity was new |
| Repository.Remove | src/Grapio.Server/Grapio.Server/FeatureFlagRepository.cs:46-55 | only stored records remain, and the count drops by one exactly when the identity was present |
| Repository.Where | src/Grapio.Server/Grapio.Server/FeatureFlagRepository.cs:67 | the query keeps exactly the records that satisfy the predicate |
| Repository.ByKey | src/Grapio.Server/Grapio.Server/FeatureFlagRepository.cs:67 | a record is listed iff it is stored under the key |
| Repository.ByConsumer | src/Grapio.Server/Grapio.Server/FeatureFlagRepository.cs:77 | a record is listed iff it is stored for the consumer or for "*" |
| Repository.Identities | src/Grapio.Server/Grapio.Server/FeatureFlagRepository.cs:97-100 | one identity per record |
| Repository.UpsertThenLookup | src/Grapio.Server/Grapio.Server/FeatureFlagRepository.cs:21-34 | after an insert-or-update, the point lookup of its identity returns exactly the flag written |
| Repository.UpsertKeepsOtherIdentities | src/Grapio.Server/Grapio.Server/FeatureFlagRepository.cs:21-34 | an insert-or-update leaves the lookup of every other identity unchanged |
| Repository.LookupAppend | src/Grapio.Server/Grapio.Server/FeatureFlagRepository.cs:25 | appending a record does not move the position of any other identity |
| Repository.LookupFindsTheRecord | src/Grapio.Server/Grapio.Server/FeatureFlagRepository.cs:88 | under the primary key, every stored record is what its own identity looks up |
| Repository.UpsertPreservesUniqueIdentities | src/Grapio.Server/Grapio.Server/FeatureFlagRepository.cs:21-34 | insert-or-update keeps the (key, consumer) primary key unique |
| Repository.UpsertIdempotent | src/Grapio.Server/Grapio.Server/FeatureFlagRepository.cs:21-34 | writing the same flag twice is writing it once |
| Repository.RemoveThenLookup | src/Grapio.Server/Grapio.Server/FeatureFlagRepository.cs:46-55 | after a delete, the identity is no longer found |
| Repository.RemoveAbsentIsNoOp | src/Grapio.Server/Grapio.Server/FeatureFlagRepository.cs:48-52 | deleting an absent identity leaves the store as it was |
| Repository.RemoveKeepsOtherIdentities | src/Grapio.Server/Grapio.Server/FeatureFlagRepository.cs:46-55 | a delete leaves the lookup of every other identity unchanged |
| Repository.RemovePreservesUniqueIdentities | src/Grapio.Server/Grapio.Server/FeatureFlagRepository.cs:46-55 | a delete keeps the primary key unique |
| Repository.WhereConcat | src/Grapio.Server/Grapio.Server/FeatureFlagRepository.cs:67 | a query over two parts of the store is the concatenation of the two queries, in store order |
| Repository.IdentitiesAreDistinct | src/Grapio.Server/Grapio.Server/FeatureFlagRepository.cs:91-101 | the listed identities are pairwise distinct and are exactly the identities of the stored records |
| Repository.FeatureFlagRepository.constructor | src/Grapio.Server/Grapio.Server/FeatureFlagRepository.cs:13 | the repository opens over a table whose primary key is unique |
| Repository.FeatureFlagRepository.InsertOrUpdateFeatureFlag | src/Grapio.Server/Grapio.Server/FeatureFlagRepository.cs:15-36 | the new table is `Upsert` of the old one, and the primary key stays unique |
| Repository.FeatureFlagRepository.DeleteFeatureFlag | src/Grapio.Server/Grapio.Server/FeatureFlagRepository.cs:38-58 | an empty key and then an empty consumer are rejected before anything changes; otherwise the new table is `Remove` of the old one, and the primary key stays unique |
| Repository.FeatureFlagRepository.FetchFeatureFlagsByKey | src/Grapio.Server/Grapio.Server/FeatureFlagRepository.cs:60-68 | an empty key is rejected; otherwise exactly the records under the key |
| Repository.FeatureFlagRepository.FetchFeatureFlagsByConsumer | src/Grapio.Server/Grapio.Server/FeatureFlagRepository.cs:70-78 | an empty consumer is rejected; otherwise exactly the consumer's records and the universal ones |
| Repository.FeatureFlagRepository.FetchFeatureFlagByKeyAndConsumer | src/Grapio.Server/Grapio.Server/FeatureFlagRepository.cs:80-89 | an empty key and then an empty consumer are rejected; otherwise the record with that exact identity, or `None` exactly when there is none |
| Repository.FeatureFlagRepository.FetchFeatureFlags | src/Grapio.Server/Grapio.Server/FeatureFlagRepository.cs:91-101 | yields `Identities` of the table: the identity of every record, in store order, so by `IdentitiesAreDistinct` each identity once |
| Text.TrimBySlice | src/Grapio.Server/Grapio.Server/TypeDetector.cs:29 | `Trim` keeps the part of the value between a stripped prefix and a stripped suffix, and the kept part starts with the first character that is not white space |
| NumberParsing.ParseBool | src/Grapio.Server/Grapio.Server/TypeDetector.cs:24 | `Some(true)` iff the value, stripped of white space and NULs, is "true" ignoring case; `Some(false)` likewise for "false" |
| NumberParsing.ParseInt32 | src/Grapio.Server/Grapio.Server/TypeDetector.cs:25 | succeeds iff the trimmed value is an optional sign and at least one digit whose signed value fits in 32 bits (a trailing NUL tail is not modelled, see Left out); the result is in the 32-bit range |
| NumberParsing.NumberLiteralWithoutTrailingSignIsFloat | src/Grapio.Server/Grapio.Server/GrapioProviderService.cs:45-50 | when the last non-white character is not a sign, every literal the Double detector accepts is accepted by `Convert.ToDouble` |
| NumberParsing.TrailingSignIsNumberLiteral | src/Grapio.Server/Grapio.Server/TypeDetector.cs:26 | digits followed by a sign are a number literal under `NumberStyles.Number` |
| NumberParsing.TrailingSignIsNotFloat | src/Grapio.Server/Grapio.Server/GrapioProviderService.cs:45-50 | digits followed by a sign are refused by `Convert.ToDouble` |
| NumberParsing.DecimalDigitsValue | src/Grapio.Server/Grapio.Server/TypeDetector.cs:25 | the decimal rendering of a natural number has that number as its digit value |
| NumberParsing.ParseInt32ReadsDecimalString | src/Grapio.Server/Grapio.Server/TypeDetector.cs:25 | `int.TryParse` reads back the decimal rendering of every 32-bit integer |
| NumberParsing.Int32LiteralIsNumberLiteral | src/Grapio.Server/Grapio.Server/TypeDetector.cs:25-26 | every 32-bit integer literal also passes the Double detector |
| NumberParsing.WholeNumberBeyondInt32 | src/Grapio.Server/Grapio.Server/TypeDetector.cs:25-26 | a whole number beyond the 32-bit range is not an `int` but is a number literal |
| NumberParsing.Int32LiteralIsNotBool | src/Grapio.Server/Grapio.Server/TypeDetector.cs:24-25 | no 32-bit integer literal is a Boolean |
| NumberParsing.NumberLiteralIsNotBool | src/Grapio.Server/Grapio.Server/TypeDetector.cs:24-26 | no number literal is a Boolean |
| NumberParsing.NotScalarAt | src/Grapio.Server/Grapio.Server/TypeDetector.cs:24-26 | a value whose first non-white character cannot start "true", "false" or a number is none of Boolean, Integer or Double |
| TypeDetection.Classify | src/Grapio.Server/Grapio.Server/TypeDetector.cs:22-44 | the cascade never answers `None` |
| TypeDetection.ClassifyByDetectors | src/Grapio.Server/Grapio.Server/TypeDetector.cs:22-44 | the classification is the first non-`None` answer of the seven detectors in registration order |
| TypeDetection.FirstAnswer | src/Grapio.Server/Grapio.Server/TypeDetector.cs:46-57 | a non-`None` answer comes from some detector in the list; the answer is `None` iff every detector answers `None` |
| TypeDetection.StandardDetectorsClassify | src/Grapio.Server/Grapio.Server/TypeDetector.cs:22-57 | the detector list registered by the constructor answers as `Classify` does |
| TypeDetection.StructuredIsNotScalar | src/Grapio.Server/Grapio.Server/TypeDetector.cs:27-42 | a value passing a structured test is never Boolean, Integer or Double |
| TypeDetection.ClassifyCharacterisation | src/Grapio.Server/Grapio.Server/TypeDetector.cs:22-44 | each type is chosen iff its own test passes: Boolean iff `bool.TryParse` succeeds, Integer iff `int.TryParse` does, Double iff a number literal is not an `int`, Structured iff a structured test passes |
| TypeDetection.IntegerShadowsDouble | src/Grapio.Server/Grapio.Server/TypeDetector.cs:25-26 | an `int` literal is classified Integer although the Double detector would also accept it |
| TypeDetection.LargeWholeNumberIsDouble | src/Grapio.Server/Grapio.Server/TypeDetector.cs:25-26 | a whole number beyond 32 bits is classified Double |
| TypeDetection.DecimalStringIsInteger | src/Grapio.Server/Grapio.Server/TypeDetector.cs:25 | the rendering of every 32-bit integer is classified Integer |
| TypeDetection.BooleanWord | src/Grapio.Server/Grapio.Server/TypeDetector.cs:24 | "true" or "false" in any letter case is classified Boolean |
| TypeDetection.TrueExample | src/Grapio.Server/Grapio.Server.Tests/TypeDetectorTests.cs:24-29 | "true" is Boolean |
| TypeDetection.FalseExample | src/Grapio.Server/Grapio.Server.Tests/TypeDetectorTests.cs:32-37 | "false" is Boolean |
| TypeDetection.UpperCaseFalseExample | src/Grapio.Server/Grapio.Server/TypeDetector.cs:24 | "FALSE" is Boolean |
| TypeDetection.IntegerExample | src/Grapio.Server/Grapio.Server.Tests/TypeDetectorTests.cs:8-13 | "1" is Integer |
| TypeDetection.DecimalFraction | src/Grapio.Server/Grapio.Server/TypeDetector.cs:26 | digits, a '.' and digits are classified Double |
| TypeDetection.DoubleExample | src/Grapio.Server/Grapio.Server.Tests/TypeDetectorTests.cs:16-21 | "123.2568" is Double |
| TypeDetection.PlainText | src/Grapio.Server/Grapio.Server/TypeDetector.cs:43 | text that starts no Boolean, number or structure falls back to String |
| TypeDetection.NotStructuredText | src/Grapio.Server/Grapio.Server/TypeDetector.cs:27-42 | text not opening with '{', '[', '<' or '-' fails every structured test |
| TypeDetection.StringExample | src/Grapio.Server/Grapio.Server.Tests/TypeDetectorTests.cs:40-45 | "hello, world" is String |
| TypeDetection.BracketedStructure | src/Grapio.Server/Grapio.Server/TypeDetector.cs:27-42 | a value that opens and closes with '{' and '}', '[' and ']', or '<' and '>', or opens with "---", is Structured |
| TypeDetection.ObjectExample | src/Grapio.Server/Grapio.Server.Tests/TypeDetectorTests.cs:48-53 | "{}" is Structured |
| TypeDetection.ArrayExample | src/Grapio.Server/Grapio.Server.Tests/TypeDetectorTests.cs:56-61 | "[]" is Structured |
| TypeDetection.XmlExample | src/Grapio.Server/Grapio.Server.Tests/TypeDetectorTests.cs:64-69 | "<Document></Document>" is Structured |
| TypeDetection.YamlExample | src/Grapio.Server/Grapio.Server.Tests/TypeDetectorTests.cs:72-77 | "---" is Structured |
| TypeDetection.LeadingSpaceBeforeObject | src/Grapio.Server/Grapio.Server/TypeDetector.cs:29 | leading white space before '{' is ignored: " {}" is Structured |
| TypeDetection.TrailingSpaceAfterObject | src/Grapio.Server/Grapio.Server/TypeDetector.cs:29 | the closing check is untrimmed: "{} " is String |
| TypeDetection.LeadingSpaceBeforeArray | src/Grapio.Server/Grapio.Server/TypeDetector.cs:30 | the '[' check is untrimmed: " []" is String |
| TypeDetection.TrailingSignIsDouble | src/Grapio.Server/Grapio.Server/TypeDetector.cs:26 | digits followed by a sign, such as "5-", are classified Double |
| TypeDetection.TypeDetector.constructor | src/Grapio.Server/Grapio.Server/TypeDetector.cs:22-44 | registers exactly the seven detectors, in order |
| TypeDetection.TypeDetector.AddDetector | src/Grapio.Server/Grapio.Server/TypeDetector.cs:59 | appends the detector to the list |
| TypeDetection.TypeDetector.Detect | src/Grapio.Server/Grapio.Server/TypeDetector.cs:46-57 | the loop returns the first non-`None` answer; it is never `None` and equals `Classify`, so the exception after the loop is unreachable |
| Utf8.DecodeEncode | src/Grapio.Server/Grapio.Server/GrapioProviderService.cs:57-62 | the UTF-8 bytes of a structured value decode back to the value |
| Utf8.EncodeDecode | src/Grapio.Server/Grapio.Server/GrapioProviderService.cs:57-62 | characterises the strict decoder, which the source does not have: every well-formed byte string is the encoding of what it decodes to, so `DecodeEncode` pins the payload down |
| Utf8.DecodeFirstOfEncodeChar | src/Grapio.Server/Grapio.Server/GrapioProviderService.cs:60 | the decoder reads back the one- to four-byte encoding of a scalar value, whatever follows |
| Utf8.DecodeFirstIsEncodeChar | src/Grapio.Server/Grapio.Server/GrapioProviderService.cs:60 | a byte prefix the strict decoder accepts is the encoding of the scalar value it returns |
| ControlService.ScopingConflict | src/Grapio.Server/Grapio.Server/GrapioControlService.cs:53-69 | no refusal iff every stored record under the key is on the same side (universal or specific) as the request; a refusal carries the message of the rule that fired |
| ControlService.SetOutcome | src/Grapio.Server/Grapio.Server/GrapioControlService.cs:47-73 | an empty key is rejected; otherwise the reply succeeds iff the stored records under the key are all on the request's side, and a success carries "Successfully set (key,consumer)." |
| ControlService.SetKeepsScopingConsistent | src/Grapio.Server/Grapio.Server/GrapioControlService.cs:53-71 | every write the policy lets through keeps each key universal-only or specific-only |
| ControlService.RemoveKeepsScopingConsistent | src/Grapio.Server/Grapio.Server/GrapioControlService.cs:75-86 | an unset never breaks the scoping policy |
| ControlService.SetThenLookup | src/Grapio.Server/Grapio.Server/GrapioControlService.cs:47-73 | after a successful set, the point lookup returns the flag written; a refused or rejected set changes nothing |
| ControlService.UpdateOfStoredRecordAllowed | src/Grapio.Server/Grapio.Server/GrapioControlService.cs:53-72 | changing the value of an already stored (key, consumer) is never refused |
| ControlService.UniversalRefusedAfterSpecific | src/Grapio.Server/Grapio.Server/GrapioControlService.cs:53-60 | once a specific consumer holds a key, a universal set for it is refused with the first message |
| ControlService.SpecificRefusedAfterUniversal | src/Grapio.Server/Grapio.Server/GrapioControlService.cs:62-69 | once "*" holds a key, a specific set for it is refused with the second message |
| ControlService.PopulateKeepsTheFlag | src/Grapio.Server/Grapio.Server/GrapioControlService.cs:94-103 | a populated reply carries the whole flag; the unpopulated reply carries none |
| ControlService.RepliesListTheFlags | src/Grapio.Server/Grapio.Server/GrapioControlService.cs:88-92 | a stream of populated replies lists exactly the flags it was written from |
| ControlService.WriteFeatureFlagsToStream | src/Grapio.Server/Grapio.Server/GrapioControlService.cs:88-92 | writes one populated reply per flag, in order |
| ControlService.GrapioControlService.SetFeatureFlag | src/Grapio.Server/Grapio.Server/GrapioControlService.cs:47-73 | the reply is `SetOutcome` of the old store; the new store is the old one with the flag upserted exactly when the reply is a success |
| ControlService.GrapioControlService.UnsetFeatureFlag | src/Grapio.Server/Grapio.Server/GrapioControlService.cs:75-86 | an empty key or consumer is rejected and changes nothing; otherwise the reply always succeeds, present or not, and the flag is removed |
| ControlService.GrapioControlService.FetchFeatureFlagByKeyAndConsumer | src/Grapio.Server/Grapio.Server/GrapioControlService.cs:39-45 | the reply is populated iff the exact identity is stored, and then carries that record; otherwise it is the unpopulated reply |
| ControlService.GrapioControlService.FetchFeatureFlags | src/Grapio.Server/Grapio.Server/GrapioControlService.cs:7-21 | one (key, consumer) reply per stored record, in store order |
| ControlService.GrapioControlService.FetchFeatureFlagsByKey | src/Grapio.Server/Grapio.Server/GrapioControlService.cs:23-29 | an empty key is rejected; otherwise the stream holds exactly one populated reply per record stored under the key, in store order, so a flag is in it iff it is stored under the key |
| ControlService.GrapioControlService.FetchFeatureFlagsByConsumer | src/Grapio.Server/Grapio.Server/GrapioControlService.cs:31-37 | an empty consumer is rejected; otherwise the stream holds exactly one populated reply per record stored for the consumer or for "*", in store order, so a flag is in it iff it is stored for one of them |
| ProviderService.TypedReplyAsWritten | src/Grapio.Server/Grapio.Server/GrapioProviderService.cs:25-68 | a successful conversion keeps the key and carries a value of the detected type; the `NotSupportedException` with its message is raised iff the type is `None` |
| ProviderService.TrailingSignBreaksTheStream | src/Grapio.Server/Grapio.Server/GrapioProviderService.cs:45-50 | a stored "5-" is detected as Double and then refused by `Convert.ToDouble` |
| ProviderService.TypedReply | src/Grapio.Server/Grapio.Server/GrapioProviderService.cs:25-68 | the corrected conversion keeps the key and the detected type, and differs from the written one only for Double |
| ProviderService.ValueOf | src/Grapio.Server/Grapio.Server/GrapioProviderService.cs:25-62 | the delivered value has the detected type and gives back the stored string: the Boolean or `int` it parses to, the literal itself, the string, or bytes that decode to it |
| ProviderService.DetectedTypeConverts | src/Grapio.Server/Grapio.Server/GrapioProviderService.cs:19-21 | with the corrected conversion, every detected type converts and the reply carries `ValueOf` the stored string |
| ProviderService.TrueValue | src/Grapio.Server/Grapio.Server/GrapioProviderService.cs:33-38 | "true" is delivered as the Boolean true |
| ProviderService.FalseValue | src/Grapio.Server/Grapio.Server/GrapioProviderService.cs:33-38 | "false" is delivered as the Boolean false |
| ProviderService.DecimalStringValue | src/Grapio.Server/Grapio.Server/GrapioProviderService.cs:39-44 | the rendering of every 32-bit integer is delivered as that integer |
| ProviderService.TextValue | src/Grapio.Server/Grapio.Server/GrapioProviderService.cs:51-56 | plain text is delivered unchanged as a string |
| ProviderService.ReplyAsWrittenFails | src/Grapio.Server/Grapio.Server/GrapioProviderService.cs:19-50 | as written, a visible flag fails to convert iff it is detected as Double and `Convert.ToDouble` refuses it, with a `FormatException` for its value; every other flag gets the intended reply |
| ProviderService.Delivered | src/Grapio.Server/Grapio.Server/GrapioProviderService.cs:17-22 | the number of replies delivered is the position of the first visible flag whose conversion throws, or all of them when none does |
| ProviderService.TrailingSignTruncatesTheStream | src/Grapio.Server/Grapio.Server/GrapioProviderService.cs:17-22 | a stored "5-" among the visible flags ends the stream at or before it, so fewer replies arrive than the intended stream has |
| ProviderService.StreamEndsAt | src/Grapio.Server/Grapio.Server/GrapioProviderService.cs:17-22 | replies written one for one until a flag fails to convert are the delivered prefix of the intended stream, followed by that flag's `FormatException` |
| ProviderService.RefusedReply | src/Grapio.Server/Grapio.Server/GrapioProviderService.cs:45-50 | a flag that fails to convert as written fails with the `FormatException` of its value |
| ProviderService.GrapioProviderService.WriteFeatureFlagToStream | src/Grapio.Server/Grapio.Server/GrapioProviderService.cs:25-68 | the reply for the given type, or the exception the conversion or an unsupported type throws, as written |
| ProviderService.GrapioProviderService.FetchFeatureFlags | src/Grapio.Server/Grapio.Server/GrapioProviderService.cs:9-23 | an empty requester is rejected before anything is written; otherwise the intended replies of the visible flags, in store order, up to the first flag whose conversion throws, and then that `FormatException`; the replies written are a prefix of the intended stream, and all of it iff every flag converts |
| Configuration.Validate | src/Grapio.Server/Grapio.Server/GrapioConfigurationValidator.cs:9-12 | no error iff a data-source keyword occurs; the not-empty message iff the string is blank; the invalid message iff no keyword occurs; exactly one message per failed rule, the not-empty message first |
| Configuration.DataSourceIsNotBlank | src/Grapio.Server/Grapio.Server/GrapioConfigurationValidator.cs:9-11 | a string holding a keyword is never blank |
| Configuration.NoCapitalNoDataSource | src/Grapio.Server/Grapio.Server/GrapioConfigurationValidator.cs:11 | the keywords are case-sensitive: without a 'D' or an 'F' the string is invalid |
| Configuration.InvalidConnectionString | src/Grapio.Server/Grapio.Server.Tests/GrapioConfigurationValidatorTests.cs:10-23 | "invalid-connection-string" fails with "Connection string is invalid." only |
| Configuration.NoCapitalIsInvalid | src/Grapio.Server/Grapio.Server/GrapioConfigurationValidator.cs:9-12 | a string that is not blank and holds neither 'D' nor 'F', such as a lower-case keyword, fails with the invalid message only |
| Configuration.EmptyConnectionString | src/Grapio.Server/Grapio.Server/GrapioConfigurationValidator.cs:9-12 | the empty string collects both messages, in rule order |
| Configuration.DataSourceConnectionString | src/Grapio.Server/Grapio.Server/GrapioConfigurationValidator.cs:11 | "Data Source=grapio.db" is valid |

## Left out

- The database is not modelled. EF Core, SQLite, `SaveChangesAsync` and the migrations are replaced by a sequence of records. New records are appended, and queries list records in that order. A real query returns rows in an order the database chooses.
- gRPC transport, `async`/`await` and cancellation tokens are not modelled. Each stream is the sequence of replies written to it.
- Concurrent requests are not modelled. Two `SetFeatureFlag` calls racing between the check and the write could break the scoping policy in the real service. The model runs each call atomically.
- Logging is not modelled.
- The `ThrowIfNull` checks on the injected repository, context and logger are left out. Dependency injection always supplies them.
- Null strings are modelled only for the key and the value the `FeatureFlag` constructor checks. There a `None` consumer stands for an omitted argument, which defaults to "*". An explicitly passed null consumer, which the C# constructor stores as null, is not modelled. Every caller in the core passes proto3 strings, which are never null.
- `GrapioConfiguration` is not part of this model, so a null `ConnectionString` is not modelled either.
- ProviderService.ValueOf: delivers a Double as the accepted literal, not the `double` it parses to, because floating-point rounding is not modelled.
- NumberParsing.IsNumberLiteral: does not accept the culture's NaN and Infinity symbols, a trailing NUL, or white space between a number and its trailing sign. It also ignores culture-specific separators.
- NumberParsing.ParseInt32: refuses a tail of NUL characters after the number and its trailing white space ("5\0"), which `int.TryParse` accepts. The three number grammars leave that tail out alike, so they still agree with one another.
- NumberParsing.IsFloatLiteral: does not accept the culture's NaN and Infinity symbols or a trailing NUL tail, which `double.Parse` accepts.
- TypeDetection.Classify: is fixed to the invariant culture. The source reads the mutable `Culture` of the singleton, which defaults to the current culture; the tests set the invariant culture.
- ProviderService.TypedReplyAsWritten: is fixed to the invariant culture too. `Convert.ToInt32` and `Convert.ToDouble` read the current culture of the thread.
- The singleton `TypeDetector.Instance` is not modelled. The provider service is given its detector instead.
- TypeDetection.IsYamlLike: compares "---" ordinally. `StartsWith(string)` in .NET is culture-sensitive; this changes nothing for strings without ignorable characters.
- Text.FoldChar: folds ASCII letters only, and `Fold` compares character by character. `InvariantCultureIgnoreCase` is a linguistic comparison: it folds all Unicode letters, skips ignorable (zero-weight) code points, ASCII control characters such as NUL included, and treats canonically equivalent forms as equal. So keys "a\0" and "a" are `Equals` in .NET and hash alike, but differ in the model; `Equals` and `GetHashCode` are modelled only for text without ignorable characters, non-ASCII letters or alternative canonical forms.
- FeatureFlags.StringHash: stands for the invariant-culture comparer's hash, modelled as a polynomial hash of the folded string. The per-process random seed of `System.HashCode` is a parameter.
- Strings are sequences of Unicode scalar values. Lone UTF-16 surrogates, which `Encoding.UTF8` would replace by U+FFFD, are not modelled.
- The FluentValidation machinery (property names, severity, the validation result object) is reduced to the list of messages.
- The registry endpoint, start-up wiring and `Program` are outside the core.

## Findings

| source | as written | input that shows it | evidently intended | confidence | as-written member | corrected member |
|---|---|---|---|---|---|---|
| src/Grapio.Server/Grapio.Server/GrapioProviderService.cs:45-50 | The Double detector (TypeDetector.cs:26) parses with `NumberStyles.Number`, which allows a trailing sign. `Convert.ToDouble` parses with `Float \| AllowThousands`, which does not. A value with a trailing sign is therefore detected as Double and then makes the conversion throw `FormatException`, ending the requester's stream. | a stored value "5-" | every detected type converts: a Double is parsed with the grammar that detected it | not executed | ProviderService.TrailingSignTruncatesTheStream | ProviderService.DetectedTypeConverts |
