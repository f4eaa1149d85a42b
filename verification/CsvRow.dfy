/** `parse_csv_row`: comma-separated fields, quoted as in section 2 of RFC 4180. */
module CsvRow {
  import opened Base

  // ---------- The reader ----------

  /** The fields of a text that continues `field`, inside or outside quotes. */
  function Fields(inQuotes: bool, field: string, s: string): (r: seq<string>)
    ensures r != []
    decreases |s|
  {
    if s == "" then [field]
    else if s[0] == '"' then
      if !inQuotes then
        if field != "" then Fields(false, field + "\"", s[1..]) else Fields(true, "", s[1..])
      else if |s| > 1 && s[1] == '"' then Fields(true, field + "\"", s[2..])
      else Fields(false, field, s[1..])
    else if s[0] == ',' && !inQuotes then [field] + Fields(false, "", s[1..])
    else Fields(inQuotes, field + [s[0]], s[1..])
  }

  method ParseCsvRow(input: string) returns (fields: seq<string>)
    ensures fields == Fields(false, "", input)
  {
    fields := [];
    var field := "";
    var inQuotes := false;
    var i := 0;
    while i < |input|
      invariant 0 <= i <= |input|
      invariant Fields(false, "", input) == fields + Fields(inQuotes, field, input[i..])
    {
      var ch := input[i];
      RestFrom(input, i, 1);
      if ch == '"' {
        if !inQuotes {
          if field != "" {
            field := field + "\"";
          } else {
            inQuotes := true;
          }
        } else if i + 1 < |input| && input[i + 1] == '"' {
          RestFrom(input, i, 2);
          field := field + "\"";
          i := i + 1;
        } else {
          inQuotes := false;
        }
      } else if ch == ',' {
        if inQuotes {
          field := field + ",";
        } else {
          fields := fields + [field];
          field := "";
        }
      } else {
        field := field + [ch];
      }
      i := i + 1;
    }
    fields := fields + [field];
  }

  // ---------- Printers it undoes ----------

  function DoubleQuotes(s: string): string {
    if s == "" then "" else (if s[0] == '"' then "\"\"" else [s[0]]) + DoubleQuotes(s[1..])
  }

  function Quote(s: string): string {
    "\"" + DoubleQuotes(s) + "\""
  }

  /** Text that stands for itself without quotes. */
  predicate Raw(s: string) {
    ',' !in s && (s != "" ==> s[0] != '"')
  }

  /** One printed field, quoted or, where that is possible, as it is. */
  predicate Prints(printed: string, field: string) {
    printed == Quote(field) || (printed == field && Raw(field))
  }

  function JoinCommas(printed: seq<string>): string
    requires printed != []
  {
    if |printed| == 1 then printed[0] else printed[0] + "," + JoinCommas(printed[1..])
  }

  lemma {:induction false} InsideQuotes(field: string, s: string, rest: string)
    requires rest != "" ==> rest[0] != '"'
    ensures Fields(true, field, DoubleQuotes(s) + "\"" + rest) == Fields(false, field + s, rest)
    decreases |s|
  {
    var text := DoubleQuotes(s) + "\"" + rest;
    if s == "" {
      assert text == "\"" + rest && field + s == field;
    } else {
      var tail := DoubleQuotes(s[1..]) + "\"" + rest;
      InsideQuotes(field + [s[0]], s[1..], rest);
      assert field + [s[0]] + s[1..] == field + s;
      if s[0] == '"' {
        assert text == "\"\"" + tail;
      } else {
        assert text == [s[0]] + tail;
      }
    }
  }

  lemma {:induction false} OutsideQuotes(field: string, s: string, rest: string)
    requires ',' !in s && (field == "" && s != "" ==> s[0] != '"')
    ensures Fields(false, field, s + rest) == Fields(false, field + s, rest)
    decreases |s|
  {
    if s == "" {
      assert s + rest == rest && field + s == field;
    } else {
      assert (s + rest)[1..] == s[1..] + rest;
      OutsideQuotes(field + [s[0]], s[1..], rest);
      assert field + [s[0]] + s[1..] == field + s;
    }
  }

  /** One printed field is read back, whatever follows the comma. */
  lemma FieldReads(printed: string, field: string, rest: string)
    requires Prints(printed, field)
    requires rest != "" ==> rest[0] == ','
    ensures Fields(false, "", printed + rest) == Fields(false, field, rest)
  {
    assert "" + field == field;
    if printed == Quote(field) {
      var text := printed + rest;
      assert text == "\"" + (DoubleQuotes(field) + "\"" + rest);
      InsideQuotes("", field, rest);
    } else {
      OutsideQuotes("", field, rest);
    }
  }

  /** Every non-empty list of fields, in any mix of quoted and plain, is read back exactly. */
  lemma {:induction false} RowReadsBack(printed: seq<string>, fields: seq<string>)
    requires fields != [] && |printed| == |fields|
    requires forall i :: 0 <= i < |fields| ==> Prints(printed[i], fields[i])
    ensures Fields(false, "", JoinCommas(printed)) == fields
    decreases |fields|
  {
    if |fields| == 1 {
      FieldReads(printed[0], fields[0], "");
      assert printed[0] + "" == printed[0];
    } else {
      var rest := "," + JoinCommas(printed[1..]);
      FieldReads(printed[0], fields[0], rest);
      assert printed[0] + "," + JoinCommas(printed[1..]) == printed[0] + rest;
      assert rest[1..] == JoinCommas(printed[1..]);
      RowReadsBack(printed[1..], fields[1..]);
      assert [fields[0]] + fields[1..] == fields;
    }
  }

  lemma {:induction false} OpenToTheEnd(field: string, s: string)
    ensures Fields(true, field, DoubleQuotes(s)) == [field + s]
    decreases |s|
  {
    if s == "" {
      assert field + s == field;
    } else {
      var text := DoubleQuotes(s);
      OpenToTheEnd(field + [s[0]], s[1..]);
      assert field + [s[0]] + s[1..] == field + s;
      if s[0] == '"' {
        assert text == "\"\"" + DoubleQuotes(s[1..]);
      } else {
        assert text == [s[0]] + DoubleQuotes(s[1..]);
      }
    }
  }

  /** A last field whose closing quote is missing is read all the same. */
  lemma MissingQuote(field: string)
    ensures Fields(false, "", "\"" + DoubleQuotes(field)) == [field]
  {
    OpenToTheEnd("", field);
    assert ("\"" + DoubleQuotes(field))[1..] == DoubleQuotes(field) && "" + field == field;
  }

  /** What stands between the closing quote and the comma is part of the field. */
  lemma TextBehindQuote(field: string, more: string, rest: string)
    requires more != "" && more[0] != '"' && ',' !in more
    requires rest != "" ==> rest[0] == ','
    ensures Fields(false, "", Quote(field) + more + rest) == Fields(false, field + more, rest)
  {
    assert Quote(field) + more + rest == "\"" + (DoubleQuotes(field) + "\"" + (more + rest));
    InsideQuotes("", field, more + rest);
    assert "" + field == field;
    OutsideQuotes(field, more, rest);
  }

  // ---------- When a field needs quotes ----------

  lemma {:induction false} FirstFieldIsShort(inQuotes: bool, field: string, s: string)
    ensures |Fields(inQuotes, field, s)[0]| <= |field| + |s|
    decreases |s|
  {
    if s != "" {
      FirstFieldIsShort(false, field, s[1..]);
      FirstFieldIsShort(true, field, s[1..]);
      FirstFieldIsShort(inQuotes, field + [s[0]], s[1..]);
      if |s| > 1 {
        FirstFieldIsShort(inQuotes, field + [s[0]], s[2..]);
      }
    }
  }

  lemma {:induction false} CommaOutsideSplits(field: string, s: string)
    requires ',' in s && (field == "" ==> s[0] != '"')
    ensures |Fields(false, field, s)| >= 2
    decreases |s|
  {
    if s[0] != ',' {
      assert s == [s[0]] + s[1..];
      CommaOutsideSplits(field + [s[0]], s[1..]);
    }
  }

  /** A field may be printed without quotes exactly when it has no comma and starts with no quote. */
  lemma RawIff(s: string)
    ensures Fields(false, "", s) == [s] <==> Raw(s)
  {
    if Raw(s) {
      OutsideQuotes("", s, "");
      assert s + "" == s && "" + s == s;
    } else if s[0] == '"' {
      FirstFieldIsShort(true, "", s[1..]);
    } else {
      CommaOutsideSplits("", s);
    }
  }
}
