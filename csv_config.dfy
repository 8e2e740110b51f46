/** The CSV-driven configuration generator: a semicolon-separated parameter file becomes one
    parameter dictionary per data line, keyed by the header line's fields, and each dictionary
    names its output file by its `hostname` value. */
module CsvConfig {
  import opened Wrappers
  import opened Text

  /** The exceptions that end the conversion. */
  datatype CsvError =
    | NoHeader                        // IndexError: the content has no first line
    | MissingField(line: nat, field: nat)  // IndexError: data line `line` has no field `field`

  type Parameters = map<string, string>

  function Headers(lines: seq<string>): seq<string>
    requires lines != []
  {
    Split(lines[0], ';')
  }

  /** The dictionary after the inner loop has stored the first `n` header fields. */
  function RowDict(headers: seq<string>, values: seq<string>, n: nat): Parameters
    requires n <= |headers| && n <= |values|
    decreases n
  {
    if n == 0 then map[] else RowDict(headers, values, n - 1)[headers[n - 1] := values[n - 1]]
  }

  /** The dictionaries of data lines 1 .. n - 1, or the error of the first line among them
      that has fewer fields than the header. */
  function ParametersUpTo(lines: seq<string>, n: nat): (r: Result<seq<Parameters>, CsvError>)
    requires 1 <= n <= |lines|
    ensures r.Ok? ==> |r.value| == n - 1
    decreases n
  {
    if n == 1 then Ok([])
    else
      var before := ParametersUpTo(lines, n - 1);
      var headers := Headers(lines);
      var values := Split(lines[n - 1], ';');
      if before.Err? then before
      else if |values| < |headers| then Err(MissingField(n - 1, |values|))
      else Ok(before.value + [RowDict(headers, values, |headers|)])
  }

  /** Lines 19-26 as a value: one dictionary per line after the header, in order. */
  function CsvParameters(content: string): (r: Result<seq<Parameters>, CsvError>)
    ensures r.Ok? ==> |r.value| == |SplitLines(content)| - 1
    ensures content == [] ==> r == Err(NoHeader)
  {
    var lines := SplitLines(content);
    if lines == [] then Err(NoHeader) else ParametersUpTo(lines, |lines|)
  }

  /** Lines 19-26: the header fields, then per data line a dictionary filled field by field
      and appended to the parameter list. */
  method ConvertCsv(content: string) returns (result: Result<seq<Parameters>, CsvError>)
    ensures result == CsvParameters(content)
  {
    var csvLines := SplitLines(content);
    if |csvLines| == 0 {
      return Err(NoHeader);
    }
    var headers := Split(csvLines[0], ';');
    var configParameters: seq<Parameters> := [];
    var i := 1;
    while i < |csvLines|
      invariant 1 <= i <= |csvLines|
      invariant ParametersUpTo(csvLines, i) == Ok(configParameters)
    {
      var values := Split(csvLines[i], ';');
      var parameterDict: Parameters := map[];
      var h := 0;
      while h < |headers|
        invariant 0 <= h <= |headers| && h <= |values|
        invariant parameterDict == RowDict(headers, values, h)
      {
        if h == |values| {
          ParametersStep(csvLines, i);
          ParametersErrSticks(csvLines, i + 1);
          return Err(MissingField(i, h));
        }
        parameterDict := parameterDict[headers[h] := values[h]];
        h := h + 1;
      }
      ParametersStep(csvLines, i);
      configParameters := configParameters + [parameterDict];
      i := i + 1;
    }
    return Ok(configParameters);
  }

  /** One more data line: its dictionary is appended, or its error ends the conversion. */
  lemma ParametersStep(lines: seq<string>, n: nat)
    requires 1 <= n < |lines|
    ensures var before := ParametersUpTo(lines, n);
      var values := Split(lines[n], ';');
      ParametersUpTo(lines, n + 1) ==
        if before.Err? then before
        else if |values| < |Headers(lines)| then Err(MissingField(n, |values|))
        else Ok(before.value + [RowDict(Headers(lines), values, |Headers(lines)|)])
  {
  }

  /** Once a line is short, the whole conversion fails with that line's error. */
  lemma {:induction false} ParametersErrSticks(lines: seq<string>, n: nat)
    requires 1 <= n <= |lines| && ParametersUpTo(lines, n).Err?
    ensures ParametersUpTo(lines, |lines|) == ParametersUpTo(lines, n)
    decreases |lines| - n
  {
    if n < |lines| {
      ParametersErrSticks(lines, n + 1);
    }
  }

  /** The keys are exactly the header fields stored. */
  lemma {:induction false} RowDictKeys(headers: seq<string>, values: seq<string>, n: nat)
    requires n <= |headers| && n <= |values|
    ensures RowDict(headers, values, n).Keys == set h | 0 <= h < n :: headers[h]
    decreases n
  {
    if n > 0 {
      RowDictKeys(headers, values, n - 1);
    }
  }

  /** Each header maps to the field in the same column; when a header name repeats, the
      later column's field wins. */
  lemma {:induction false} RowDictLookup(headers: seq<string>, values: seq<string>, n: nat, h: nat)
    requires n <= |headers| && n <= |values| && h < n
    requires forall g :: h < g < n ==> headers[g] != headers[h]
    ensures headers[h] in RowDict(headers, values, n)
    ensures RowDict(headers, values, n)[headers[h]] == values[h]
    decreases n
  {
    if h < n - 1 {
      RowDictLookup(headers, values, n - 1, h);
    }
  }

  /** Fields beyond the header count are never read. */
  lemma {:induction false} RowDictIgnoresExtraFields(headers: seq<string>, values: seq<string>,
                                                     extra: seq<string>, n: nat)
    requires n <= |headers| && n <= |values|
    ensures RowDict(headers, values + extra, n) == RowDict(headers, values, n)
    decreases n
  {
    if n > 0 {
      RowDictIgnoresExtraFields(headers, values, extra, n - 1);
    }
  }

  /** The conversion succeeds exactly when no data line has fewer fields than the header, and
      then the dictionary of each data line is that line's row. */
  lemma {:induction false} ParametersOk(lines: seq<string>, n: nat)
    requires 1 <= n <= |lines|
    ensures ParametersUpTo(lines, n).Ok?
      <==> forall i :: 1 <= i < n ==> |Split(lines[i], ';')| >= |Headers(lines)|
    ensures ParametersUpTo(lines, n).Ok? ==> forall i :: 1 <= i < n ==>
      ParametersUpTo(lines, n).value[i - 1] == RowDict(Headers(lines), Split(lines[i], ';'), |Headers(lines)|)
    decreases n
  {
    if n > 1 {
      ParametersOk(lines, n - 1);
    }
  }

  /** A failed conversion names the first short data line and the first field it lacks. */
  lemma {:induction false} ParametersErrFirst(lines: seq<string>, n: nat)
    requires 1 <= n <= |lines| && ParametersUpTo(lines, n).Err?
    ensures var e := ParametersUpTo(lines, n).error;
      e.MissingField? && 1 <= e.line < n
      && e.field == |Split(lines[e.line], ';')| < |Headers(lines)|
      && forall i :: 1 <= i < e.line ==> |Split(lines[i], ';')| >= |Headers(lines)|
    decreases n
  {
    if ParametersUpTo(lines, n - 1).Err? {
      ParametersErrFirst(lines, n - 1);
    } else {
      ParametersOk(lines, n - 1);
    }
  }

  /** Line 42: `parameter['hostname'] + ".config"`; `None` where the key is missing and
      Python raises `KeyError`. */
  function ConfigFileName(parameter: Parameters): (r: Option<string>)
    ensures r.Some? <==> "hostname" in parameter
    ensures r.Some? ==>
      EndsWith(r.value, ".config") && r.value[..|r.value| - |".config"|] == parameter["hostname"]
  {
    if "hostname" in parameter then Some(parameter["hostname"] + ".config") else None
  }
}
