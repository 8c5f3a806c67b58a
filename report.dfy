/**
 * Parsing the style checker's report. Each non-blank line of its standard
 * output has the shape `path:line:column:message`; the first three colons
 * delimit fields and the message keeps any colons of its own. A diagnostic
 * keeps the line number and the message, both as text.
 */
module Report {
  import opened Wrappers
  import opened Strings

  /** One reported violation: the line number and the message, as the checker printed them. */
  datatype Diagnostic = Diagnostic(lineno: string, description: string)

  /** The characters `str.strip()` removes: space, tab, newline, vertical tab, form feed, carriage return. */
  predicate IsSpace(c: char) {
    c == ' ' || '\t' <= c <= '\r'
  }

  /** A line that `strip()` turns into the empty string. */
  predicate IsBlank(line: string) {
    forall i :: 0 <= i < |line| ==> IsSpace(line[i])
  }

  /** The checker's output format for one violation. */
  function FormatLine(path: string, lineno: string, column: string, description: string): string {
    path + [':'] + lineno + [':'] + column + [':'] + description
  }

  /**
   * The three `split(':', 1)` unpackings applied to one line: the path and
   * the column are dropped. A line with fewer than three colons has no
   * diagnostic (in the plugin the unpacking raises).
   */
  function ParseLine(line: string): Option<Diagnostic> {
    match SplitOnce(line, ':')
    case None => None
    case Some((_, rest)) =>
      match SplitOnce(rest, ':')
      case None => None
      case Some((lineno, rest')) =>
        match SplitOnce(rest', ':')
        case None => None
        case Some((_, description)) => Some(Diagnostic(lineno, description))
  }

  /**
   * The failure condition: a line parses exactly when it holds at least three
   * colons, and the line number it gives is colon-free.
   */
  lemma ParseLineColons(line: string)
    ensures ParseLine(line).Some? <==> multiset(line)[':'] >= 3
    ensures ParseLine(line).Some? ==> ':' !in ParseLine(line).value.lineno
  {
    SplitOnceSpec(line, ':');
    match SplitOnce(line, ':')
    case None =>
    case Some((path, rest)) =>
      SplitOnceSpec(rest, ':');
      assert multiset(line) == multiset(path) + multiset([':']) + multiset(rest);
      match SplitOnce(rest, ':')
      case None =>
      case Some((lineno, rest')) =>
        SplitOnceSpec(rest', ':');
        assert multiset(rest) == multiset(lineno) + multiset([':']) + multiset(rest');
        match SplitOnce(rest', ':')
        case None =>
        case Some((column, description)) =>
          assert multiset(rest') == multiset(column) + multiset([':']) + multiset(description);
  }

  /** Round trip: a well-formed report line gives back its line number and its message verbatim. */
  lemma ParseFormat(path: string, lineno: string, column: string, description: string)
    requires ':' !in path && ':' !in lineno && ':' !in column
    ensures ParseLine(FormatLine(path, lineno, column, description)) == Some(Diagnostic(lineno, description))
  {
    var rest' := column + [':'] + description;
    var rest := lineno + [':'] + rest';
    assert FormatLine(path, lineno, column, description) == path + [':'] + rest;
    SplitOnceAt(path, ':', rest);
    SplitOnceAt(lineno, ':', rest');
    SplitOnceAt(column, ':', description);
  }

  /** Conversely, every line that parses is a well-formed report line for what it gave. */
  lemma ParseLineShape(line: string)
    requires ParseLine(line).Some?
    ensures var d := ParseLine(line).value;
            exists path, column :: ':' !in path && ':' !in column &&
              line == FormatLine(path, d.lineno, column, d.description)
  {
    var first := SplitOnce(line, ':');
    var second := SplitOnce(first.value.1, ':');
    var third := SplitOnce(second.value.1, ':');
    var path, lineno, column, description := first.value.0, second.value.0, third.value.0, third.value.1;
    SplitOnceSpec(line, ':');
    SplitOnceSpec(first.value.1, ':');
    SplitOnceSpec(second.value.1, ':');
    assert ParseLine(line) == Some(Diagnostic(lineno, description));
    FormatNested(path, lineno, column, description);
  }

  /** `FormatLine` read as three nested splits. */
  lemma FormatNested(path: string, lineno: string, column: string, description: string)
    ensures FormatLine(path, lineno, column, description)
         == path + [':'] + (lineno + [':'] + (column + [':'] + description))
  {
  }

  /** A formatted line holds a colon, so it is never blank, and it holds a newline only if a field does. */
  lemma FormatLineChars(path: string, lineno: string, column: string, description: string)
    ensures !IsBlank(FormatLine(path, lineno, column, description))
    ensures '\n' in FormatLine(path, lineno, column, description) <==>
              '\n' in path || '\n' in lineno || '\n' in column || '\n' in description
  {
    var line := FormatLine(path, lineno, column, description);
    assert line[|path|] == ':';
    assert multiset(line) == multiset(path) + multiset([':']) + multiset(lineno) + multiset([':'])
                           + multiset(column) + multiset([':']) + multiset(description);
  }

  /** The lines that the loop does not skip, in their order. */
  function NonBlank(lines: seq<string>): (r: seq<string>)
    ensures |r| <= |lines|
    ensures forall k :: 0 <= k < |r| ==> !IsBlank(r[k])
  {
    if lines == [] then []
    else
      var kept := NonBlank(lines[..|lines| - 1]);
      var last := lines[|lines| - 1];
      if IsBlank(last) then kept else kept + [last]
  }

  /**
   * The report loop: blank lines are skipped, every other line adds one
   * diagnostic at the end, and the first malformed line stops the parse
   * (the failure carries that line).
   */
  function ParseLines(lines: seq<string>): Result<seq<Diagnostic>, string> {
    if lines == [] then Success([])
    else
      match ParseLines(lines[..|lines| - 1])
      case Failure(line) => Failure(line)
      case Success(ds) =>
        var last := lines[|lines| - 1];
        if IsBlank(last) then Success(ds)
        else
          match ParseLine(last)
          case None => Failure(last)
          case Some(d) => Success(ds + [d])
  }

  /** Every line of `lines` is a well-formed report line. */
  predicate AllWellFormed(lines: seq<string>) {
    forall k :: 0 <= k < |lines| ==> ParseLine(lines[k]).Some?
  }

  /** The parse succeeds exactly when every non-blank line is well formed. */
  lemma {:induction false} ParseLinesSucceeds(lines: seq<string>)
    ensures ParseLines(lines).Success? <==> AllWellFormed(NonBlank(lines))
  {
    if lines != [] {
      var init := lines[..|lines| - 1];
      var last := lines[|lines| - 1];
      ParseLinesSucceeds(init);
      var nb0 := NonBlank(init);
      var nb := NonBlank(lines);
      if !IsBlank(last) {
        assert nb == nb0 + [last];
        assert AllWellFormed(nb) <==> AllWellFormed(nb0) && ParseLine(last).Some? by {
          assert nb[|nb0|] == last;
          assert forall k :: 0 <= k < |nb0| ==> nb[k] == nb0[k];
        }
      }
    }
  }

  /**
   * A successful parse yields one diagnostic per non-blank line, the k-th
   * diagnostic coming from the k-th non-blank line: order is preserved.
   */
  lemma {:induction false} ParseLinesInOrder(lines: seq<string>)
    requires ParseLines(lines).Success?
    ensures var nb, ds := NonBlank(lines), ParseLines(lines).value;
            |ds| == |nb| && forall k :: 0 <= k < |nb| ==> ParseLine(nb[k]) == Some(ds[k])
  {
    if lines != [] {
      var init := lines[..|lines| - 1];
      var last := lines[|lines| - 1];
      ParseLinesInOrder(init);
      var nb0 := NonBlank(init);
      if !IsBlank(last) {
        assert NonBlank(lines) == nb0 + [last];
      }
    }
  }

  /**
   * A failed parse names the first malformed line: everything before it
   * parses, the line itself is not blank and does not parse.
   */
  lemma {:induction false} ParseLinesFailure(lines: seq<string>)
    requires ParseLines(lines).Failure?
    ensures exists i :: 0 <= i < |lines| && lines[i] == ParseLines(lines).error &&
              !IsBlank(lines[i]) && ParseLine(lines[i]).None? &&
              ParseLines(lines[..i]).Success?
  {
    var init := lines[..|lines| - 1];
    if ParseLines(init).Failure? {
      ParseLinesFailure(init);
      var i :| 0 <= i < |init| && init[i] == ParseLines(init).error &&
               !IsBlank(init[i]) && ParseLine(init[i]).None? && ParseLines(init[..i]).Success?;
      assert init[..i] == lines[..i];
      assert lines[i] == init[i];
    } else {
      assert lines[..|lines| - 1] == init;
    }
  }

  /** Once a prefix has failed, the lines after it change nothing. */
  lemma {:induction false} ParseLinesFailureSticks(lines: seq<string>, i: nat)
    requires i <= |lines|
    requires ParseLines(lines[..i]).Failure?
    ensures ParseLines(lines) == ParseLines(lines[..i])
    decreases |lines| - i
  {
    if i < |lines| {
      var init := lines[..|lines| - 1];
      assert init[..i] == lines[..i];
      ParseLinesFailureSticks(init, i);
    } else {
      assert lines[..i] == lines;
    }
  }

  /**
   * The plugin's loop over `stdout.split("\n")`, with its three
   * unpackings written out; it returns what `ParseLines` describes.
   */
  method ParseReport(stdout: string) returns (r: Result<seq<Diagnostic>, string>)
    ensures r == ParseLines(Split(stdout, '\n'))
  {
    var lines := Split(stdout, '\n');
    var l: seq<Diagnostic> := [];
    for i := 0 to |lines|
      invariant ParseLines(lines[..i]) == Success(l)
    {
      var line := lines[i];
      ParseLinesSnoc(lines, i);
      if IsBlank(line) {
        continue;
      }
      var parsed := ParseLine(line);
      if parsed.None? {
        assert ParseLines(lines[..i + 1]) == Failure(line);
        ParseLinesFailureSticks(lines, i + 1);
        return Failure(line);
      }
      l := l + [parsed.value];
    }
    assert lines[..|lines|] == lines;
    r := Success(l);
  }

  /** One more line of input: `ParseLines` on a prefix one line longer. */
  lemma ParseLinesSnoc(lines: seq<string>, i: nat)
    requires i < |lines|
    ensures ParseLines(lines[..i + 1]) ==
              match ParseLines(lines[..i])
              case Failure(line) => Failure(line)
              case Success(ds) =>
                if IsBlank(lines[i]) then Success(ds)
                else
                  match ParseLine(lines[i])
                  case None => Failure(lines[i])
                  case Some(d) => Success(ds + [d])
  {
    assert lines[..i + 1][..i] == lines[..i];
  }

  /** A report of one non-blank, well-formed line gives exactly that line's diagnostic. */
  lemma OneLineReport(line: string)
    requires '\n' !in line && !IsBlank(line) && ParseLine(line).Some?
    ensures ParseLines(Split(line, '\n')) == Success([ParseLine(line).value])
  {
    var lines := Split(line, '\n');
    assert lines == [line];
    assert lines[..0] == [];
    assert ParseLines(lines[..0]) == Success([]);
    var none: seq<Diagnostic> := [];
    assert none + [ParseLine(line).value] == [ParseLine(line).value];
  }

  /** The final newline the checker prints adds nothing to the report. */
  lemma TrailingNewline(stdout: string)
    ensures ParseLines(Split(stdout + "\n", '\n')) == ParseLines(Split(stdout, '\n'))
  {
    SplitTrailing(stdout, '\n');
    var lines := Split(stdout, '\n');
    assert (lines + [""])[..|lines|] == lines;
    assert IsBlank("");
  }

  /**
   * A report of a single violation, with or without the final newline,
   * gives exactly that violation's line number and message.
   */
  lemma SingleViolationReport(path: string, lineno: string, column: string, description: string)
    requires ':' !in path && ':' !in lineno && ':' !in column
    requires '\n' !in path && '\n' !in lineno && '\n' !in column && '\n' !in description
    ensures var line := FormatLine(path, lineno, column, description);
            ParseLines(Split(line, '\n')) == Success([Diagnostic(lineno, description)]) &&
            ParseLines(Split(line + "\n", '\n')) == Success([Diagnostic(lineno, description)])
  {
    var line := FormatLine(path, lineno, column, description);
    ParseFormat(path, lineno, column, description);
    FormatLineChars(path, lineno, column, description);
    OneLineReport(line);
    TrailingNewline(line);
  }
}
