/** The endpoint line without '=': as written, extractQuery records a
    formatting error and then indexes the second SplitN part anyway, which
    does not exist, so the Go runtime panics and the error is never seen.
    The evidently intended parser reports the error instead. */
module Findings {
  import opened GoStrings
  import opened Spargo

  // ---------------------------------------------------------------------
  // As written: a concrete script that panics
  // ---------------------------------------------------------------------

  /** The bare keyword is an endpoint declaration without '='. */
  lemma BareEndpointIsMalformed()
    ensures Malformed("ENDPOINT")
  {
    var upper := ToUpper("ENDPOINT");
    assert upper == Endpoint;
    assert Contains(upper, Endpoint);
  }

  /** A marked script whose endpoint line has no '=' does not return at
      all: the parser stops on that line with an index out of range. */
  lemma EndpointWithoutEqualsPanics()
    ensures ExtractLines(["#!spargo", "ENDPOINT", "SELECT * {}"]) == IndexOutOfRange("ENDPOINT")
  {
    var lines := ["#!spargo", "ENDPOINT", "SELECT * {}"];
    BareEndpointIsMalformed();
    assert Classify(lines[0]) == Magic;
    assert lines[..2][..1] == lines[..1];
    assert lines[..1][..0] == [];
    assert FirstMalformed(lines[..1]) == 1;
    assert FirstMalformed(lines[..2]) == 1;
  }

  // ---------------------------------------------------------------------
  // Intended: the formatting error is returned
  // ---------------------------------------------------------------------

  /** The position of the last endpoint line without '=', or -1 if none
      (LastMalformedIsLast below). */
  function LastMalformed(lines: seq<string>): (m: int)
    ensures -1 <= m < |lines|
  {
    if lines == [] then -1
    else if Malformed(lines[|lines| - 1]) then |lines| - 1
    else LastMalformed(lines[..|lines| - 1])
  }

  lemma {:induction false} LastMalformedIsLast(lines: seq<string>)
    ensures LastMalformed(lines) >= 0 ==> Malformed(lines[LastMalformed(lines)])
    ensures forall j :: LastMalformed(lines) < j < |lines| ==> !Malformed(lines[j])
  {
    if lines != [] && !Malformed(lines[|lines| - 1]) {
      var prefix := lines[..|lines| - 1];
      LastMalformedIsLast(prefix);
      assert forall j :: 0 <= j < |prefix| ==> prefix[j] == lines[j];
    }
  }

  /** The formatting error the loop leaves behind: each endpoint line
      without '=' overwrites the error of the one before. */
  function FormatError(lines: seq<string>): Option<ParseError>
  {
    var m := LastMalformed(lines);
    if m < 0 then None else Some(EndpointFormatError(lines[m]))
  }

  /** extractQuery with the missing guard: an endpoint line without '='
      sets the formatting error and leaves the url alone, and the closing
      shebang check still overwrites the error. */
  function ExtractGuarded(lines: seq<string>): Extraction
  {
    var err := if HasShebang(lines) then FormatError(lines) else Some(ShebangError(""));
    Extraction(UrlOf(lines), QueryOf(lines), err)
  }

  /** The loop state of the guarded parser after reading the lines `done`. */
  ghost predicate GuardedScanned(done: seq<string>, shebang: string, url: string, queryString: string,
                                 err: Option<ParseError>)
  {
    (shebang == "" <==> !HasShebang(done)) &&
    url == UrlOf(done) &&
    queryString == QueryOf(done) &&
    err == FormatError(done)
  }

  lemma FormatErrorAppend(done: seq<string>, line: string)
    ensures FormatError(done + [line]) ==
      if Malformed(line) then Some(EndpointFormatError(line)) else FormatError(done)
  {
    assert (done + [line])[..|done|] == done;
  }

  /** Reading one more line, of any kind. */
  lemma GuardedScannedAppend(done: seq<string>, shebang: string, url: string, queryString: string,
                             err: Option<ParseError>, line: string)
    requires GuardedScanned(done, shebang, url, queryString, err)
    ensures Classify(line) == Blank ==> GuardedScanned(done + [line], shebang, url, queryString, err)
    ensures Classify(line) == Magic ==> GuardedScanned(done + [line], line, url, queryString, err)
    ensures Malformed(line) ==>
      GuardedScanned(done + [line], shebang, url, queryString, Some(EndpointFormatError(line)))
    ensures Classify(line) == EndpointDecl && '=' in line ==>
      GuardedScanned(done + [line], shebang, EndpointValue(line), queryString, err)
    ensures Classify(line) == QueryText ==>
      GuardedScanned(done + [line], shebang, url, queryString + line + "\n", err)
  {
    assert (done + [line])[..|done|] == done;
    QueryOfAppend(done, line);
    FormatErrorAppend(done, line);
  }

  /** extractQuery with the url assignment guarded by the length check:
      the same loop, which now always runs to the end of the script. */
  method ExtractQueryGuarded(sparqlFile: string) returns (result: Extraction)
    ensures result == ExtractGuarded(Split(sparqlFile, '\n'))
  {
    var lines := Split(sparqlFile, '\n');
    var shebang, url, queryString := "", "", "";
    var err: Option<ParseError> := None;
    for i := 0 to |lines|
      invariant GuardedScanned(lines[..i], shebang, url, queryString, err)
    {
      var line := lines[i];
      assert lines[..i + 1] == lines[..i] + [line];
      GuardedScannedAppend(lines[..i], shebang, url, queryString, err, line);
      if line == "" {
        // Pass.
      } else {
        var isShebang := MatchShebang(line, Shebang);
        if isShebang {
          shebang := line;
        } else if Contains(ToUpper(line), Endpoint) {
          var parts := SplitAtFirst(line, '=');
          if |parts| < 2 {
            err := Some(EndpointFormatError(line));
          } else {
            url := TrimSpace(parts[1]);
          }
        } else {
          queryString := queryString + line + "\n";
        }
      }
    }
    assert lines[..|lines|] == lines;
    if shebang == "" {
      err := Some(ShebangError(shebang));
    }
    return Extraction(url, queryString, err);
  }

  /** The guarded parser succeeds exactly when the script is marked and
      every endpoint line has '='. */
  lemma GuardedErrorIff(lines: seq<string>)
    ensures ExtractGuarded(lines).err.None? <==>
      (exists k :: 0 <= k < |lines| && lines[k] in Shebang) &&
      (forall k :: 0 <= k < |lines| ==> !Malformed(lines[k]))
  {
    HasShebangIff(lines);
    LastMalformedIsLast(lines);
  }

  /** In a marked script with an endpoint line without '=', the guarded
      parser reports the formatting error of the last such line instead of
      panicking. */
  lemma GuardedReportsFormatError(lines: seq<string>, k: nat)
    requires k < |lines| && lines[k] in Shebang
    requires exists j :: 0 <= j < |lines| && Malformed(lines[j])
    ensures var m := LastMalformed(lines);
      0 <= m && Malformed(lines[m]) &&
      ExtractGuarded(lines).err == Some(EndpointFormatError(lines[m])) &&
      forall j :: m < j < |lines| ==> !Malformed(lines[j])
  {
    HasShebangIff(lines);
    LastMalformedIsLast(lines);
  }

  /** On every script the written parser does not panic on, the guarded
      one returns the same triple. */
  lemma GuardedAgreesWithoutMalformed(lines: seq<string>)
    ensures ExtractLines(lines).Returned? ==> ExtractLines(lines).result == ExtractGuarded(lines)
  {
    PanicsOnFirstMalformed(lines);
    LastMalformedIsLast(lines);
  }

  /** An endpoint line without '=' leaves the url of the guarded parser as
      it was before that line. */
  lemma GuardedMalformedKeepsUrl(lines: seq<string>, line: string)
    requires Malformed(line)
    ensures ExtractGuarded(lines + [line]).url == ExtractGuarded(lines).url
  {
    assert (lines + [line])[..|lines|] == lines;
  }

  /** Without a magic line the shebang error wins over any formatting error. */
  lemma GuardedShebangErrorWins(lines: seq<string>)
    requires forall k :: 0 <= k < |lines| ==> lines[k] !in Shebang
    ensures ExtractGuarded(lines).err == Some(ShebangError(""))
  {
    HasShebangIff(lines);
  }
}
