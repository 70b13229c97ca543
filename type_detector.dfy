/** `TypeDetector`: classifies a stored string into an OpenFeature type by a
    first-match cascade over an ordered list of detectors. The culture is fixed to the
    invariant culture. */
module TypeDetection {
  import opened Text
  import opened NumberParsing

  /** `OpenFeatureType`; `None` is what a detector returns when it does not match. */
  datatype OpenFeatureType = None | Boolean | Integer | Double | String | Structured

  /** The JSON-like test as written: the `{` case trims only for the start check, the
      `[` case trims neither side. */
  predicate IsJsonLike(value: string) {
    || (StartsWith(Trim(value), "{") && EndsWith(value, '}'))
    || (StartsWith(value, "[") && EndsWith(value, ']'))
  }

  /** The XML-like test: trimmed for the start check only. */
  predicate IsXmlLike(value: string) {
    StartsWith(Trim(value), "<") && EndsWith(value, '>')
  }

  /** The YAML-like test: a document marker after leading white space. */
  predicate IsYamlLike(value: string) {
    StartsWith(Trim(value), "---")
  }

  function BooleanDetector(value: string): OpenFeatureType {
    if ParseBool(value).Some? then Boolean else None
  }

  function IntegerDetector(value: string): OpenFeatureType {
    if ParseInt32(value).Some? then Integer else None
  }

  function DoubleDetector(value: string): OpenFeatureType {
    if IsNumberLiteral(value) then Double else None
  }

  function JsonDetector(value: string): OpenFeatureType {
    if IsJsonLike(value) then Structured else None
  }

  function XmlDetector(value: string): OpenFeatureType {
    if IsXmlLike(value) then Structured else None
  }

  function YamlDetector(value: string): OpenFeatureType {
    if IsYamlLike(value) then Structured else None
  }

  function StringDetector(value: string): OpenFeatureType {
    String
  }

  /** The detectors in the order the constructor registers them. */
  function StandardDetectors(): seq<string -> OpenFeatureType> {
    [BooleanDetector, IntegerDetector, DoubleDetector, JsonDetector, XmlDetector, YamlDetector, StringDetector]
  }

  /** The classification the cascade computes, written out rule by rule: Boolean before
      Integer before Double before the structured tests, with String as the fallback. */
  function Classify(value: string): (t: OpenFeatureType)
    ensures t != None
  {
    if ParseBool(value).Some? then Boolean
    else if ParseInt32(value).Some? then Integer
    else if IsNumberLiteral(value) then Double
    else if IsJsonLike(value) || IsXmlLike(value) || IsYamlLike(value) then Structured
    else String
  }

  /** `Classify` as the cascade of the detectors' answers. */
  lemma ClassifyByDetectors(value: string)
    ensures Classify(value) ==
      if BooleanDetector(value) != None then BooleanDetector(value)
      else if IntegerDetector(value) != None then IntegerDetector(value)
      else if DoubleDetector(value) != None then DoubleDetector(value)
      else if JsonDetector(value) != None then JsonDetector(value)
      else if XmlDetector(value) != None then XmlDetector(value)
      else if YamlDetector(value) != None then YamlDetector(value)
      else StringDetector(value)
  {
    var b, i, d := ParseBool(value).Some?, ParseInt32(value).Some?, IsNumberLiteral(value);
    var j, x, y := IsJsonLike(value), IsXmlLike(value), IsYamlLike(value);
    assert BooleanDetector(value) == if b then Boolean else None;
    assert IntegerDetector(value) == if i then Integer else None;
    assert DoubleDetector(value) == if d then Double else None;
    assert JsonDetector(value) == if j then Structured else None;
    assert XmlDetector(value) == if x then Structured else None;
    assert YamlDetector(value) == if y then Structured else None;
  }

  /** The answer of the first detector in `ds` that does not answer `None`. */
  function FirstAnswer(ds: seq<string -> OpenFeatureType>, value: string): (t: OpenFeatureType)
    ensures t != None ==> exists i :: 0 <= i < |ds| && ds[i](value) == t
    ensures t == None <==> forall i :: 0 <= i < |ds| ==> ds[i](value) == None
  {
    if ds == [] then None
    else if ds[0](value) != None then ds[0](value)
    else FirstAnswer(ds[1..], value)
  }

  lemma FirstAnswerCons(d: string -> OpenFeatureType, ds: seq<string -> OpenFeatureType>, value: string)
    ensures FirstAnswer([d] + ds, value) == if d(value) != None then d(value) else FirstAnswer(ds, value)
  {
    assert ([d] + ds)[1..] == ds;
  }

  /** The detector list answers as the rule-by-rule classification does. */
  lemma StandardDetectorsClassify(value: string)
    ensures FirstAnswer(StandardDetectors(), value) == Classify(value)
  {
    var s6 := [StringDetector];
    var s5 := [YamlDetector] + s6;
    var s4 := [XmlDetector] + s5;
    var s3 := [JsonDetector] + s4;
    var s2 := [DoubleDetector] + s3;
    var s1 := [IntegerDetector] + s2;
    var s0 := [BooleanDetector] + s1;
    assert s0 == StandardDetectors();
    FirstAnswerCons(StringDetector, [], value);
    assert s6 == [StringDetector] + [];
    FirstAnswerCons(YamlDetector, s6, value);
    FirstAnswerCons(XmlDetector, s5, value);
    FirstAnswerCons(JsonDetector, s4, value);
    FirstAnswerCons(DoubleDetector, s3, value);
    FirstAnswerCons(IntegerDetector, s2, value);
    FirstAnswerCons(BooleanDetector, s1, value);
    ClassifyByDetectors(value);
  }

  /** The first character `Trim` keeps is the first non-white one. */
  lemma FirstNonWhite(value: string)
    requires Trim(value) != []
    ensures var n := TrimStart(value, IsWhiteSpace);
      && n < |value| && Trim(value)[0] == value[n] && !IsWhiteSpace(value[n])
      && (forall j :: 0 <= j < n ==> IsWhiteSpace(value[j]))
      && (|Trim(value)| > 2 ==> n + 2 < |value| && Trim(value)[1] == value[n + 1] && Trim(value)[2] == value[n + 2])
  {
    TrimBySlice(value, IsWhiteSpace);
  }

  /** A value whose first non-white character is '{' or '<', or which begins with "--"
      after white space, is never a Boolean, an `int` or a number. */
  lemma OpeningSymbolIsNotScalar(value: string)
    requires var t := Trim(value);
      t != [] && (t[0] == '{' || t[0] == '<' || (|t| > 2 && t[0] == '-' && t[1] == '-'))
    ensures ParseBool(value).None? && ParseInt32(value).None? && !IsNumberLiteral(value)
  {
    FirstNonWhite(value);
    var n := TrimStart(value, IsWhiteSpace);
    NotScalarAt(value, n);
  }

  /** A value that passes one of the structured tests is never a Boolean, an `int` or a
      number: each test pins its first non-white character to '{', '[', '<' or "---". */
  lemma StructuredIsNotScalar(value: string)
    requires IsJsonLike(value) || IsXmlLike(value) || IsYamlLike(value)
    ensures ParseBool(value).None? && ParseInt32(value).None? && !IsNumberLiteral(value)
  {
    if StartsWith(value, "[") {
      NotScalarAt(value, 0);
    } else {
      var t := Trim(value);
      assert t != [] && (t[0] == '{' || t[0] == '<' || t[..3] == "---");
      if t[0] == '-' {
        assert t[1] == t[..3][1];
      }
      OpeningSymbolIsNotScalar(value);
    }
  }

  /** Each type is chosen exactly when its own test passes and no earlier one does; the
      order only matters between Integer and Double, since an `int` literal is also a
      number literal, and never between the scalar and the structured tests. */
  lemma ClassifyCharacterisation(value: string)
    ensures Classify(value) == Boolean <==> ParseBool(value).Some?
    ensures Classify(value) == Integer <==> ParseInt32(value).Some?
    ensures Classify(value) == Double <==> IsNumberLiteral(value) && ParseInt32(value).None?
    ensures Classify(value) == Structured <==> IsJsonLike(value) || IsXmlLike(value) || IsYamlLike(value)
  {
    if ParseInt32(value).Some? {
      Int32LiteralIsNotBool(value);
    }
    if IsNumberLiteral(value) {
      NumberLiteralIsNotBool(value);
    }
    if IsJsonLike(value) || IsXmlLike(value) || IsYamlLike(value) {
      StructuredIsNotScalar(value);
    }
  }

  /** Every 32-bit integer literal would also pass the Double test: Integer wins only
      because it is registered first. */
  lemma IntegerShadowsDouble(value: string)
    requires ParseInt32(value).Some?
    ensures Classify(value) == Integer && DoubleDetector(value) == Double
  {
    Int32LiteralIsNotBool(value);
    Int32LiteralIsNumberLiteral(value);
  }

  /** A whole number outside the 32-bit range is classified as Double. */
  lemma LargeWholeNumberIsDouble(d: string)
    requires d != [] && AllDigits(d) && DigitsValue(d) > Int32Max
    ensures Classify(d) == Double
  {
    WholeNumberBeyondInt32(d);
    NumberLiteralIsNotBool(d);
  }

  /** The rendering of every 32-bit integer is classified as Integer. */
  lemma DecimalStringIsInteger(n: int)
    requires Int32Min <= n <= Int32Max
    ensures Classify(DecimalString(n)) == Integer
  {
    ParseInt32ReadsDecimalString(n);
    Int32LiteralIsNotBool(DecimalString(n));
  }

  /** A string that reads as "true" or "false" once folded is a Boolean. */
  lemma BooleanWord(s: string)
    requires s != [] && !IsBoolTrimmed(s[0]) && !IsBoolTrimmed(s[|s| - 1])
    requires Fold(s) == "true" || Fold(s) == "false"
    ensures Classify(s) == Boolean
  {
    TrimByNoOp(s, IsBoolTrimmed);
  }

  /** "true" is a Boolean. */
  lemma TrueExample()
    ensures Classify("true") == Boolean
  {
    assert Fold("true") == "true";
    BooleanWord("true");
  }

  /** "false" is a Boolean, and so is "FALSE". */
  lemma FalseExample()
    ensures Classify("false") == Boolean
  {
    assert Fold("false") == "false";
    BooleanWord("false");
  }

  lemma UpperCaseFalseExample()
    ensures Classify("FALSE") == Boolean
  {
    assert Fold("FALSE") == "false";
    BooleanWord("FALSE");
  }

  /** "1" is an Integer, although it is also a number literal. */
  lemma IntegerExample()
    ensures Classify("1") == Integer
  {
    assert DecimalString(1) == "1";
    DecimalStringIsInteger(1);
  }

  /** Integral digits, a decimal point and fractional digits make a Double. */
  lemma DecimalFraction(i: string, f: string)
    requires i != [] && AllDigits(i) && f != [] && AllDigits(f)
    ensures Classify(i + "." + f) == Double
  {
    var s := i + "." + f;
    TrimByNoOp(s, IsNumberWhite);
    assert s[|i|] == '.' && !IsSign(s[0]);
    assert IntegerDigits(s) == s && !AllDigits(s);
    DecimalFractionIsUnsignedNumber(i, f);
    ClassifyCharacterisation(s);
  }

  lemma DecimalFractionIsUnsignedNumber(i: string, f: string)
    requires i != [] && AllDigits(i) && f != [] && AllDigits(f)
    ensures IsUnsignedNumber(i + "." + f)
  {
    var s := i + "." + f;
    assert s[|i|] == '.';
    assert FirstIndexOf(s, '.') == |i|;
    assert s[..|i|] == i && s[|i| + 1..] == f;
  }

  /** "123.2568" is a Double. */
  lemma DoubleExample()
    ensures Classify("123.2568") == Double
  {
    assert "123.2568" == "123" + "." + "2568";
    DecimalFraction("123", "2568");
  }

  /** A value with no surrounding white space whose first character starts neither a
      Boolean, a number nor a structure is a String. */
  lemma PlainText(s: string)
    requires s != [] && !IsWhiteSpace(s[0]) && !IsWhiteSpace(s[|s| - 1]) && s[0] != '\0'
    requires FoldChar(s[0]) != 't' && FoldChar(s[0]) != 'f'
    requires IsNonNumeric(s[0]) && s[0] != '{' && s[0] != '[' && s[0] != '<'
    ensures Classify(s) == String
  {
    NotScalarAt(s, 0);
    NotStructuredText(s);
  }

  lemma NotStructuredText(s: string)
    requires s != [] && !IsWhiteSpace(s[0]) && !IsWhiteSpace(s[|s| - 1])
    requires s[0] != '{' && s[0] != '[' && s[0] != '<' && s[0] != '-'
    ensures !IsJsonLike(s) && !IsXmlLike(s) && !IsYamlLike(s)
  {
    TrimByNoOp(s, IsWhiteSpace);
    assert s[..1] == [s[0]];
    assert |s| >= 3 ==> s[..3][0] == s[0];
  }

  /** "hello, world" matches no rule and falls back to String. */
  lemma StringExample()
    ensures Classify("hello, world") == String
  {
    PlainText("hello, world");
  }

  /** A value with no surrounding white space that opens and closes like an object, an
      array or an element, or opens with a document marker, is Structured. */
  lemma BracketedStructure(s: string)
    requires s != [] && !IsWhiteSpace(s[0]) && !IsWhiteSpace(s[|s| - 1])
    requires || (s[0] == '{' && s[|s| - 1] == '}') || (s[0] == '[' && s[|s| - 1] == ']')
             || (s[0] == '<' && s[|s| - 1] == '>') || (|s| >= 3 && s[..3] == "---")
    ensures Classify(s) == Structured
  {
    TrimByNoOp(s, IsWhiteSpace);
    assert Trim(s) == s;
    assert s[..1] == [s[0]];
    assert IsJsonLike(s) || IsXmlLike(s) || IsYamlLike(s);
    ClassifyCharacterisation(s);
  }

  /** The empty object is Structured. */
  lemma ObjectExample()
    ensures Classify("{}") == Structured
  {
    BracketedStructure("{}");
  }

  /** The empty array is Structured. */
  lemma ArrayExample()
    ensures Classify("[]") == Structured
  {
    BracketedStructure("[]");
  }

  /** An XML element is Structured. */
  lemma XmlExample()
    ensures Classify("<Document></Document>") == Structured
  {
    BracketedStructure("<Document></Document>");
  }

  /** A YAML document marker is Structured. */
  lemma YamlExample()
    ensures Classify("---") == Structured
  {
    BracketedStructure("---");
  }

  /** The structured tests trim only one side: leading white space is ignored before '{'... */
  lemma LeadingSpaceBeforeObject()
    ensures Classify(" {}") == Structured
  {
    TrimByStartsAt(" {}", IsWhiteSpace, 1);
    assert StartsWith(Trim(" {}"), "{") && EndsWith(" {}", '}');
    ClassifyCharacterisation(" {}");
  }

  /** ... trailing white space defeats the closing-symbol check ... */
  lemma TrailingSpaceAfterObject()
    ensures Classify("{} ") == String
  {
    NotScalarAt("{} ", 0);
    SpaceAfterObjectIsNotStructured();
  }

  lemma SpaceAfterObjectIsNotStructured()
    ensures !IsJsonLike("{} ") && !IsXmlLike("{} ") && !IsYamlLike("{} ")
  {
    var s := "{} ";
    TrimByStartsAt(s, IsWhiteSpace, 0);
    assert !EndsWith(s, '}') && !EndsWith(s, ']') && !EndsWith(s, '>');
    assert Trim(s)[0] == '{';
  }

  /** ... and leading white space is not ignored before '['. */
  lemma LeadingSpaceBeforeArray()
    ensures Classify(" []") == String
  {
    NotScalarAt(" []", 1);
    SpaceBeforeArrayIsNotStructured();
  }

  lemma SpaceBeforeArrayIsNotStructured()
    ensures !IsJsonLike(" []") && !IsXmlLike(" []") && !IsYamlLike(" []")
  {
    var s := " []";
    TrimByStartsAt(s, IsWhiteSpace, 1);
    var t := Trim(s);
    assert t[..1] == "[";
    assert s[..1] == " ";
    assert !EndsWith(s, '}') && !EndsWith(s, '>');
  }

  /** Digits followed by a trailing sign, such as "5-", are classified as Double. */
  lemma TrailingSignIsDouble(d: string, c: char)
    requires d != [] && AllDigits(d) && IsSign(c)
    ensures Classify(d + [c]) == Double
  {
    var s := d + [c];
    TrailingSignIsNumberLiteral(d, c);
    TrimByNoOp(s, IsNumberWhite);
    assert !IsSign(s[0]) && !IsDigit(s[|s| - 1]);
    assert IntegerDigits(s) == s;
    ClassifyCharacterisation(s);
  }

  /** `TypeDetector`: owns the ordered detector list. */
  class TypeDetector {
    var detectors: seq<string -> OpenFeatureType>

    ghost predicate Valid()
      reads this
    {
      detectors == StandardDetectors()
    }

    /** Registers the seven detectors in order. */
    constructor ()
      ensures Valid()
    {
      detectors := [];
      new;
      AddDetector(BooleanDetector);
      AddDetector(IntegerDetector);
      AddDetector(DoubleDetector);
      AddDetector(JsonDetector);
      AddDetector(XmlDetector);
      AddDetector(YamlDetector);
      AddDetector(StringDetector);
    }

    method AddDetector(detector: string -> OpenFeatureType)
      modifies this
      ensures detectors == old(detectors) + [detector]
    {
      detectors := detectors + [detector];
    }

    /** `Detect`: the first detector's answer that is not `None`. The final detector
        always answers, so the `NotSupportedException` after the loop is never thrown. */
    method Detect(value: string) returns (t: OpenFeatureType)
      requires Valid()
      ensures t == FirstAnswer(detectors, value)
      ensures t != None && t == Classify(value)
    {
      StandardDetectorsClassify(value);
      var i := 0;
      while i < |detectors|
        invariant 0 <= i <= |detectors|
        invariant FirstAnswer(detectors[i..], value) == FirstAnswer(detectors, value)
      {
        var detected := detectors[i](value);
        assert detectors[i..][0] == detectors[i];
        if detected != None {
          return detected;
        }
        assert detectors[i..][1..] == detectors[i + 1..];
        i := i + 1;
      }
      assert false;
    }
  }
}
