/** The .sparql script parser of the spargo command: recognising the
    magic first line, the ENDPOINT declaration and the query text in a
    script that is piped to spargo or given to it as an interpreter. */
module Spargo {
  import opened GoStrings

  datatype Option<T> = None | Some(value: T)

  /** The magic lines that mark a script as a spargo script. */
  const Shebang: seq<string> := ["#!spargo", "#!/usr/bin/spargo"]

  /** The keyword that marks the endpoint declaration line. */
  const Endpoint: string := "ENDPOINT"

  /** The two errors the parser can build. */
  datatype ParseError =
    | ShebangError(shebang: string)
    | EndpointFormatError(line: string)
  {
    function Message(): string
    {
      match this
      case ShebangError(s) => "shebang '" + s + "' is empty or incorrect"
      case EndpointFormatError(l) => "incorrect endpoint formatting: " + l
    }
  }

  /** The triple the parser returns: endpoint url, query text and error. */
  datatype Extraction = Extraction(url: string, query: string, err: Option<ParseError>)

  /** Either the parser returns, or the Go runtime panics because an
      endpoint line without '=' was indexed past its single split part. */
  datatype Outcome =
    | Returned(result: Extraction)
    | IndexOutOfRange(line: string)

  // ---------------------------------------------------------------------
  // matchShebang
  // ---------------------------------------------------------------------

  /** Linear search with an early exit: is `needle` one of the entries? */
  method MatchShebang(needle: string, slice: seq<string>) returns (found: bool)
    ensures found <==> needle in slice
  {
    for i := 0 to |slice|
      invariant needle !in slice[..i]
    {
      if slice[i] == needle {
        return true;
      }
    }
    return false;
  }

  /** Only the two exact magic lines are recognised: nothing is trimmed,
      so a magic line saved with a Windows line ending is not one. */
  lemma ShebangIsExact(line: string)
    ensures line in Shebang <==> line == "#!spargo" || line == "#!/usr/bin/spargo"
    ensures "#!spargo\r" !in Shebang && " #!spargo" !in Shebang
  {
  }

  // ---------------------------------------------------------------------
  // Specification of extractQuery, one line at a time
  // ---------------------------------------------------------------------

  /** The four kinds of line, tested in this order: empty, magic,
      endpoint declaration, query text. */
  datatype LineKind = Blank | Magic | EndpointDecl | QueryText

  function Classify(line: string): LineKind
  {
    if line == "" then Blank
    else if line in Shebang then Magic
    else if Contains(ToUpper(line), Endpoint) then EndpointDecl
    else QueryText
  }

  /** An endpoint declaration with no '=': SplitN yields one part only. */
  predicate Malformed(line: string)
  {
    Classify(line) == EndpointDecl && '=' !in line
  }

  /** The url an endpoint declaration names: the trimmed text after its first '='. */
  function EndpointValue(line: string): string
    requires '=' in line
  {
    TrimSpace(SplitAtFirst(line, '=')[1])
  }

  /** The position of the first malformed endpoint line, or |lines| if
      none (FirstMalformedIsFirst below). */
  function FirstMalformed(lines: seq<string>): nat
  {
    if lines == [] then 0
    else
      var k := FirstMalformed(lines[..|lines| - 1]);
      if k < |lines| - 1 then k
      else if Malformed(lines[|lines| - 1]) then |lines| - 1
      else |lines|
  }

  lemma {:induction false} FirstMalformedIsFirst(lines: seq<string>)
    ensures FirstMalformed(lines) <= |lines|
    ensures forall j :: 0 <= j < FirstMalformed(lines) ==> !Malformed(lines[j])
    ensures FirstMalformed(lines) < |lines| ==> Malformed(lines[FirstMalformed(lines)])
  {
    if lines != [] {
      var prefix := lines[..|lines| - 1];
      FirstMalformedIsFirst(prefix);
      assert forall j :: 0 <= j < |prefix| ==> prefix[j] == lines[j];
    }
  }

  /** Some line is one of the magic lines. */
  predicate HasShebang(lines: seq<string>)
  {
    lines != [] && (lines[|lines| - 1] in Shebang || HasShebang(lines[..|lines| - 1]))
  }

  /** The query-text lines, in their original order. */
  function QueryLines(lines: seq<string>): seq<string>
  {
    if lines == [] then []
    else
      var last := lines[|lines| - 1];
      QueryLines(lines[..|lines| - 1]) + (if Classify(last) == QueryText then [last] else [])
  }

  /** Each line followed by a newline, concatenated. */
  function Terminated(ls: seq<string>): string
  {
    if ls == [] then "" else Terminated(ls[..|ls| - 1]) + ls[|ls| - 1] + "\n"
  }

  function QueryOf(lines: seq<string>): string
  {
    Terminated(QueryLines(lines))
  }

  /** The value of the last well-formed endpoint declaration, or "". */
  function UrlOf(lines: seq<string>): string
  {
    if lines == [] then ""
    else
      var last := lines[|lines| - 1];
      if Classify(last) == EndpointDecl && '=' in last then EndpointValue(last)
      else UrlOf(lines[..|lines| - 1])
  }

  /** What extractQuery does with the lines of a script. */
  function ExtractLines(lines: seq<string>): Outcome
  {
    var k := FirstMalformed(lines);
    if k < |lines| then IndexOutOfRange(lines[k])
    else
      var err := if HasShebang(lines) then None else Some(ShebangError(""));
      Returned(Extraction(UrlOf(lines), QueryOf(lines), err))
  }

  /** What extractQuery does with a script text. */
  function Extract(sparqlFile: string): Outcome
  {
    ExtractLines(Split(sparqlFile, '\n'))
  }

  // ---------------------------------------------------------------------
  // extractQuery
  // ---------------------------------------------------------------------

  /** The loop state of extractQuery after reading the lines `done`, none
      of which was a malformed endpoint line. */
  ghost predicate Scanned(done: seq<string>, shebang: string, url: string, queryString: string)
  {
    (shebang == "" <==> !HasShebang(done)) &&
    url == UrlOf(done) &&
    queryString == QueryOf(done) &&
    FirstMalformed(done) == |done|
  }

  lemma QueryOfAppend(done: seq<string>, line: string)
    ensures QueryOf(done + [line]) == QueryOf(done) + (if Classify(line) == QueryText then line + "\n" else "")
  {
    assert (done + [line])[..|done|] == done;
    var kept := QueryLines(done);
    assert QueryLines(done + [line]) == kept + (if Classify(line) == QueryText then [line] else []);
    if Classify(line) == QueryText {
      assert (kept + [line])[..|kept|] == kept;
      assert Terminated(kept + [line]) == Terminated(kept) + line + "\n";
    } else {
      assert kept + [] == kept;
    }
  }

  /** Reading one more line that is not a malformed endpoint line. */
  lemma ScannedAppend(done: seq<string>, shebang: string, url: string, queryString: string, line: string)
    requires Scanned(done, shebang, url, queryString)
    requires !Malformed(line)
    ensures Classify(line) == Blank ==> Scanned(done + [line], shebang, url, queryString)
    ensures Classify(line) == Magic ==> Scanned(done + [line], line, url, queryString)
    ensures Classify(line) == EndpointDecl ==> Scanned(done + [line], shebang, EndpointValue(line), queryString)
    ensures Classify(line) == QueryText ==> Scanned(done + [line], shebang, url, queryString + line + "\n")
  {
    assert (done + [line])[..|done|] == done;
    QueryOfAppend(done, line);
    FirstMalformedAppend(done, line);
  }

  lemma FirstMalformedAppend(done: seq<string>, line: string)
    requires FirstMalformed(done) == |done|
    ensures FirstMalformed(done + [line]) == if Malformed(line) then |done| else |done| + 1
  {
    assert (done + [line])[..|done|] == done;
  }

  /** The first malformed endpoint line decides the outcome. */
  lemma ExtractAtMalformed(lines: seq<string>, i: nat)
    requires i < |lines| && FirstMalformed(lines[..i]) == i && Malformed(lines[i])
    ensures ExtractLines(lines) == IndexOutOfRange(lines[i])
  {
    FirstMalformedIsFirst(lines[..i]);
    FirstMalformedIsFirst(lines);
    assert forall j :: 0 <= j < i ==> lines[..i][j] == lines[j];
  }

  /** Splits the script into lines and reads them in order, keeping the
      last magic line, the last endpoint url and the query text so far. */
  method ExtractQuery(sparqlFile: string) returns (outcome: Outcome)
    ensures outcome == Extract(sparqlFile)
  {
    var lines := Split(sparqlFile, '\n');
    var shebang, url, queryString := "", "", "";
    var err: Option<ParseError> := None;
    for i := 0 to |lines|
      invariant Scanned(lines[..i], shebang, url, queryString)
      invariant err == None
    {
      var line := lines[i];
      assert lines[..i + 1] == lines[..i] + [line];
      if line == "" {
        ScannedAppend(lines[..i], shebang, url, queryString, line);
      } else {
        var isShebang := MatchShebang(line, Shebang);
        if isShebang {
          ScannedAppend(lines[..i], shebang, url, queryString, line);
          shebang := line;
        } else if Contains(ToUpper(line), Endpoint) {
          var parts := SplitAtFirst(line, '=');
          if |parts| < 2 {
            err := Some(EndpointFormatError(line));
            // The next statement indexes parts[1] of a one-element
            // split, so the Go runtime panics before err is returned.
            ExtractAtMalformed(lines, i);
            return IndexOutOfRange(line);
          }
          ScannedAppend(lines[..i], shebang, url, queryString, line);
          url := TrimSpace(parts[1]);
        } else {
          ScannedAppend(lines[..i], shebang, url, queryString, line);
          queryString := queryString + line + "\n";
        }
      }
    }
    assert lines[..|lines|] == lines;
    if shebang == "" {
      err := Some(ShebangError(shebang));
    }
    return Returned(Extraction(url, queryString, err));
  }

  // ---------------------------------------------------------------------
  // Properties of extractQuery
  // ---------------------------------------------------------------------

  lemma {:induction false} HasShebangIff(lines: seq<string>)
    ensures HasShebang(lines) <==> exists k :: 0 <= k < |lines| && lines[k] in Shebang
  {
    if lines != [] {
      var prefix := lines[..|lines| - 1];
      HasShebangIff(prefix);
      if HasShebang(prefix) {
        var k :| 0 <= k < |prefix| && prefix[k] in Shebang;
        assert lines[k] in Shebang;
      }
      forall k | 0 <= k < |lines| - 1 && lines[k] in Shebang
        ensures HasShebang(prefix)
      {
        assert prefix[k] in Shebang;
      }
    }
  }

  /** The returned error is set exactly when no line of the script is a
      magic line, wherever in the script that line stands. */
  lemma ErrorIffNoShebang(lines: seq<string>)
    ensures ExtractLines(lines).Returned? ==>
      (ExtractLines(lines).result.err.Some? <==> forall k :: 0 <= k < |lines| ==> lines[k] !in Shebang)
  {
    HasShebangIff(lines);
  }

  /** The only error ever returned is the shebang error, and since it is
      built only when no magic line was seen its message quotes an empty
      shebang; the endpoint formatting error is never returned. The url
      and query are returned in full alongside the error. */
  lemma OnlyShebangErrorReturned(lines: seq<string>)
    ensures var o := ExtractLines(lines);
      o.Returned? && o.result.err.Some? ==> o.result.err.value == ShebangError("")
    ensures var o := ExtractLines(lines);
      o.Returned? ==> o.result.url == UrlOf(lines) && o.result.query == QueryOf(lines)
  {
  }

  lemma ShebangErrorMessage()
    ensures ShebangError("").Message() == "shebang '' is empty or incorrect"
  {
  }

  /** The parser panics exactly when some line is an endpoint declaration
      without '=', and it panics on the first such line. */
  lemma PanicsOnFirstMalformed(lines: seq<string>)
    ensures var o := ExtractLines(lines);
      (o.IndexOutOfRange? <==> exists k :: 0 <= k < |lines| && Malformed(lines[k])) &&
      (o.IndexOutOfRange? ==>
        exists k :: 0 <= k < |lines| && o.line == lines[k] && Malformed(lines[k]) &&
          forall j :: 0 <= j < k ==> !Malformed(lines[j]))
  {
    FirstMalformedIsFirst(lines);
    var k := FirstMalformed(lines);
    var o := ExtractLines(lines);
    if k < |lines| {
      assert 0 <= k < |lines| && o.line == lines[k] && Malformed(lines[k]) &&
        forall j :: 0 <= j < k ==> !Malformed(lines[j]);
    }
  }

  /** A magic line on any line of the script, not only the first, is enough. */
  lemma ShebangOnAnyLine(lines: seq<string>, k: nat)
    requires |lines| >= 1
    requires forall i :: 0 <= i < |lines| ==> '\n' !in lines[i]
    requires k < |lines| && lines[k] in Shebang
    ensures var o := Extract(Join(lines, '\n')); o.Returned? ==> o.result.err == None
  {
    SplitJoin(lines, '\n');
    HasShebangIff(lines);
  }

  /** A line is an endpoint declaration whenever it spells ENDPOINT in any
      mix of upper and lower case, unless it is a magic line. */
  lemma EndpointAnyCase(pre: string, word: string, post: string)
    requires ToUpper(word) == Endpoint
    requires pre + word + post !in Shebang
    ensures Classify(pre + word + post) == EndpointDecl
  {
    var line := pre + word + post;
    ToUpperAppend(pre + word, post);
    ToUpperAppend(pre, word);
    assert ToUpper(line)[|pre|..|pre| + |Endpoint|] == Endpoint;
    assert OccursAt(ToUpper(line), Endpoint, |pre|);
    ContainsIff(ToUpper(line), Endpoint);
  }

  /** Only the empty line is skipped: a line of white space is query text. */
  lemma WhiteSpaceLineIsQueryText(line: string)
    requires line != "" && AllSpace(line)
    ensures Classify(line) == QueryText
  {
    assert !IsSpace('#');
    assert line[0] != '#';
    var upper := ToUpper(line);
    ContainsIff(upper, Endpoint);
    forall i | 0 <= i && i + |Endpoint| <= |upper|
      ensures !OccursAt(upper, Endpoint, i)
    {
      assert IsSpace(upper[i]);
      assert upper[i..i + |Endpoint|][0] == upper[i];
    }
  }

  /** The endpoint value is the trimmed text after the first '=', later
      '=' characters included. */
  lemma EndpointValueAfterFirstEquals(key: string, value: string)
    requires '=' !in key
    ensures EndpointValue(key + "=" + value) == TrimSpace(value)
  {
    SplitAtFirstOfJoined(key, value, '=');
  }

  /** The url is the value of the last endpoint declaration... */
  lemma {:induction false} UrlFromLastEndpoint(lines: seq<string>, k: nat)
    requires k < |lines| && Classify(lines[k]) == EndpointDecl && '=' in lines[k]
    requires forall j :: k < j < |lines| ==> Classify(lines[j]) != EndpointDecl || '=' !in lines[j]
    ensures UrlOf(lines) == EndpointValue(lines[k])
  {
    if k < |lines| - 1 {
      var prefix := lines[..|lines| - 1];
      assert prefix[k] == lines[k];
      UrlFromLastEndpoint(prefix, k);
    }
  }

  /** ...and empty when there is none. */
  lemma {:induction false} UrlEmptyWithoutEndpoint(lines: seq<string>)
    requires forall j :: 0 <= j < |lines| ==> Classify(lines[j]) != EndpointDecl
    ensures UrlOf(lines) == ""
  {
    if lines != [] {
      UrlEmptyWithoutEndpoint(lines[..|lines| - 1]);
    }
  }

  /** The query keeps exactly the query-text lines... */
  lemma {:induction false} QueryLinesMembers(lines: seq<string>, x: string)
    ensures x in QueryLines(lines) <==> x in lines && Classify(x) == QueryText
  {
    if lines != [] {
      var prefix := lines[..|lines| - 1];
      QueryLinesMembers(prefix, x);
      assert lines == prefix + [lines[|lines| - 1]];
    }
  }

  /** ...in their original order. */
  lemma {:induction false} QueryLinesAppend(a: seq<string>, b: seq<string>)
    ensures QueryLines(a + b) == QueryLines(a) + QueryLines(b)
  {
    if b != [] {
      var b' := b[..|b| - 1];
      QueryLinesAppend(a, b');
      assert (a + b)[..|a + b| - 1] == a + b';
    } else {
      assert a + b == a;
    }
  }

  lemma {:induction false} TerminatedIsJoin(ls: seq<string>)
    ensures Terminated(ls) == Join(ls + [""], '\n')
  {
    if ls != [] {
      var p := ls[..|ls| - 1];
      var x := ls[|ls| - 1];
      TerminatedIsJoin(p);
      JoinAppend(ls, [""], '\n');
      if p != [] {
        assert ls == p + [x];
        JoinAppend(p, [x], '\n');
        JoinAppend(p, [""], '\n');
      }
    }
  }

  /** Every kept line is non-empty and, in a split script, newline-free. */
  lemma {:induction false} QueryLinesClean(lines: seq<string>)
    requires forall i :: 0 <= i < |lines| ==> '\n' !in lines[i]
    ensures forall i :: 0 <= i < |QueryLines(lines)| ==>
      QueryLines(lines)[i] != "" && '\n' !in QueryLines(lines)[i]
  {
    if lines != [] {
      var prefix := lines[..|lines| - 1];
      QueryLinesClean(prefix);
    }
  }

  /** Splitting the query text at newlines gives back the query-text lines
      of the script, in order, followed by the "" after the final newline. */
  lemma QueryRoundTrip(lines: seq<string>)
    requires forall i :: 0 <= i < |lines| ==> '\n' !in lines[i]
    ensures Split(QueryOf(lines), '\n') == QueryLines(lines) + [""]
  {
    var ls := QueryLines(lines);
    QueryLinesClean(lines);
    assert forall i :: 0 <= i < |ls + [""]| ==> '\n' !in (ls + [""])[i];
    TerminatedIsJoin(ls);
    SplitJoin(ls + [""], '\n');
  }

  lemma {:induction false} TerminatedShape(ls: seq<string>)
    requires forall i :: 0 <= i < |ls| ==> ls[i] != "" && '\n' !in ls[i]
    ensures var t := Terminated(ls);
      (t == "" || t[|t| - 1] == '\n') &&
      (t != "" ==> t[0] != '\n') &&
      forall i :: 0 <= i < |t| - 1 && t[i] == '\n' ==> t[i + 1] != '\n'
  {
    if ls != [] {
      var p := ls[..|ls| - 1];
      var x := ls[|ls| - 1];
      TerminatedShape(p);
      var tp := Terminated(p);
      var t := tp + x + "\n";
      assert x[0] != '\n';
      forall i | 0 <= i < |t| - 1 && t[i] == '\n' ensures t[i + 1] != '\n' {
        if i < |tp| - 1 {
          assert t[i] == tp[i] && t[i + 1] == tp[i + 1];
        } else if i == |tp| - 1 {
          assert t[i + 1] == x[0];
        }
      }
    }
  }

  /** The query text is empty or ends in a newline, never starts with a
      newline and never holds an empty line. */
  lemma QueryShape(lines: seq<string>)
    requires forall i :: 0 <= i < |lines| ==> '\n' !in lines[i]
    ensures var q := QueryOf(lines);
      (q == "" || q[|q| - 1] == '\n') &&
      (q != "" ==> q[0] != '\n') &&
      forall i :: 0 <= i < |q| - 1 && q[i] == '\n' ==> q[i + 1] != '\n'
  {
    QueryLinesClean(lines);
    TerminatedShape(QueryLines(lines));
  }

  // ---------------------------------------------------------------------
  // The same properties read off the script text
  // ---------------------------------------------------------------------

  /** For a script text, the error is set iff none of its lines is a magic line. */
  lemma ScriptErrorIffNoShebang(sparqlFile: string)
    ensures Extract(sparqlFile).Returned? ==>
      (Extract(sparqlFile).result.err.Some? <==> !HasShebang(Split(sparqlFile, '\n')))
    ensures HasShebang(Split(sparqlFile, '\n')) <==>
      exists k :: 0 <= k < |Split(sparqlFile, '\n')| && Split(sparqlFile, '\n')[k] in Shebang
  {
    HasShebangIff(Split(sparqlFile, '\n'));
  }

  /** For a script text, splitting the returned query at newlines gives its
      query-text lines in order, followed by one "". */
  lemma ScriptQueryRoundTrip(sparqlFile: string)
    ensures Extract(sparqlFile).Returned? ==>
      Split(Extract(sparqlFile).result.query, '\n') == QueryLines(Split(sparqlFile, '\n')) + [""]
  {
    var lines := Split(sparqlFile, '\n');
    SplitPartsAreSeparatorFree(sparqlFile, '\n');
    OnlyShebangErrorReturned(lines);
    QueryRoundTrip(lines);
  }

  /** For a script text, the returned query is empty or ends in a newline,
      never starts with one and never holds an empty line. */
  lemma ScriptQueryShape(sparqlFile: string)
    ensures Extract(sparqlFile).Returned? ==>
      var q := Extract(sparqlFile).result.query;
      (q == "" || q[|q| - 1] == '\n') &&
      (q != "" ==> q[0] != '\n') &&
      forall i :: 0 <= i < |q| - 1 && q[i] == '\n' ==> q[i + 1] != '\n'
  {
    var lines := Split(sparqlFile, '\n');
    SplitPartsAreSeparatorFree(sparqlFile, '\n');
    OnlyShebangErrorReturned(lines);
    QueryShape(lines);
  }
}
