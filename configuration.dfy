/** `GrapioConfigurationValidator`: the rule on the SQLite connection string, checked at
    start-up. Both checks of the rule run (the rule-level cascade continues after a
    failure), so a blank string collects both messages. */
module Configuration {
  import opened Text

  /** The default message of `NotEmpty` for the `ConnectionString` property. */
  const NotEmptyMessage: string := "'Connection String' must not be empty."

  /** The message attached to the `Must` predicate. */
  const InvalidMessage: string := "Connection string is invalid."

  /** What `NotEmpty` rejects in a string: empty or white space only. */
  predicate IsBlank(s: string) {
    forall i :: 0 <= i < |s| ==> IsWhiteSpace(s[i])
  }

  /** The `Must` predicate: one of the SQLite data-source keywords, matched ordinally. */
  predicate HasDataSource(s: string) {
    Contains(s, "DataSource") || Contains(s, "Data Source") || Contains(s, "Filename")
  }

  /** The validation errors of a connection string, in rule order. */
  function Validate(connectionString: string): (errors: seq<string>)
    ensures errors == [] <==> HasDataSource(connectionString)
    ensures NotEmptyMessage in errors <==> IsBlank(connectionString)
    ensures InvalidMessage in errors <==> !HasDataSource(connectionString)
    ensures |errors| == (if IsBlank(connectionString) then 1 else 0) + (if HasDataSource(connectionString) then 0 else 1)
    ensures IsBlank(connectionString) ==> errors[0] == NotEmptyMessage
  {
    DataSourceIsNotBlank(connectionString);
    (if IsBlank(connectionString) then [NotEmptyMessage] else [])
    + (if HasDataSource(connectionString) then [] else [InvalidMessage])
  }

  /** A string holding a keyword is not blank: every keyword starts with a letter. */
  lemma DataSourceIsNotBlank(s: string)
    ensures HasDataSource(s) ==> !IsBlank(s)
  {
    OccurrenceIsNotBlank(s, "DataSource");
    OccurrenceIsNotBlank(s, "Data Source");
    OccurrenceIsNotBlank(s, "Filename");
  }

  lemma OccurrenceIsNotBlank(s: string, part: string)
    requires part != [] && !IsWhiteSpace(part[0])
    ensures Contains(s, part) ==> !IsBlank(s)
  {
    if Contains(s, part) {
      var i :| 0 <= i <= |s| - |part| && OccursAt(s, part, i);
      assert s[i] == s[i..i + |part|][0];
    }
  }

  /** A keyword needs its capital letter: a string with no 'D' and no 'F' is invalid. */
  lemma NoCapitalNoDataSource(s: string)
    requires forall i :: 0 <= i < |s| ==> s[i] != 'D' && s[i] != 'F'
    ensures !HasDataSource(s)
  {
    NoFirstLetterNoOccurrence(s, "DataSource");
    NoFirstLetterNoOccurrence(s, "Data Source");
    NoFirstLetterNoOccurrence(s, "Filename");
  }

  lemma NoFirstLetterNoOccurrence(s: string, part: string)
    requires part != [] && forall i :: 0 <= i < |s| ==> s[i] != part[0]
    ensures !Contains(s, part)
  {
    forall i | 0 <= i <= |s| - |part|
      ensures !OccursAt(s, part, i)
    {
      assert s[i..i + |part|][0] == s[i];
    }
  }

  /** A string that is not blank and holds neither a 'D' nor an 'F' fails with the
      invalid message only; a lower-case keyword such as "datasource=" is such a string. */
  lemma NoCapitalIsInvalid(s: string)
    requires !IsBlank(s)
    requires forall i :: 0 <= i < |s| ==> s[i] != 'D' && s[i] != 'F'
    ensures Validate(s) == [InvalidMessage]
  {
    NoCapitalNoDataSource(s);
  }

  /** "invalid-connection-string" fails with the invalid message only. */
  lemma InvalidConnectionString()
    ensures Validate("invalid-connection-string") == [InvalidMessage]
  {
    assert !IsWhiteSpace("invalid-connection-string"[0]);
    NoCapitalIsInvalid("invalid-connection-string");
  }

  /** An empty string collects both messages. */
  lemma EmptyConnectionString()
    ensures Validate("") == [NotEmptyMessage, InvalidMessage]
  {
    NoCapitalNoDataSource("");
  }

  /** A SQLite connection string with a data source is valid. */
  lemma DataSourceConnectionString()
    ensures Validate("Data Source=grapio.db") == []
  {
    var s := "Data Source=grapio.db";
    assert OccursAt(s, "Data Source", 0);
  }
}
