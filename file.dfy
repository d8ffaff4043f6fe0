/**
 * The `file` package: turning comma-separated lines into entries. Reading the
 * file itself is not modelled; the loop runs over the lines it would yield.
 */
module File {
  import opened Wrappers
  import opened GoStrings
  import opened Types

  /** The three texts of a line, before the tag text is split into tags. */
  datatype Fields = Fields(jpText: string, engText: string, tags: string)

  /** A line that does not split into exactly three fields; carries the field count and the line. */
  datatype ParseError = FieldCount(count: nat, line: string)

  /**
   * What LineToEntry reads from a line: it fails exactly when the line does
   * not have two commas, reporting how many fields it has; otherwise the
   * three fields hold no comma and the line is them joined by commas.
   */
  function LineFields(line: string): (r: Result<Fields, ParseError>)
    ensures r.Failure? <==> Occurrences(line, ',') != 2
    ensures r.Failure? ==> r.error == FieldCount(Occurrences(line, ',') + 1, line)
    ensures r.Success? ==>
      && ',' !in r.value.jpText && ',' !in r.value.engText && ',' !in r.value.tags
      && line == r.value.jpText + "," + r.value.engText + "," + r.value.tags
  {
    var fields := Split(line, ',');
    if |fields| != 3 then
      Failure(FieldCount(|fields|, line))
    else
      assert fields[0] in fields && fields[1] in fields && fields[2] in fields;
      assert fields == [fields[0], fields[1], fields[2]];
      JoinSplit(line, ',');
      JoinThree(fields[0], fields[1], fields[2], ',');
      Success(Fields(fields[0], fields[1], fields[2]))
  }

  /** Three comma-free texts joined by commas read back as those three fields. */
  lemma LineFieldsOfJoined(jpText: string, engText: string, tags: string)
    requires ',' !in jpText && ',' !in engText && ',' !in tags
    ensures LineFields(jpText + "," + engText + "," + tags) == Success(Fields(jpText, engText, tags))
  {
    var parts := [jpText, engText, tags];
    JoinThree(jpText, engText, tags, ',');
    SplitJoin(parts, ',');
  }

  /** `e` is the entry NewEntry builds from `f`. */
  ghost predicate Represents(e: Entry, f: Fields)
    reads e.Tags
  {
    e.Japanese == f.jpText && e.English == f.engText && e.Tags.Valid() && e.Tags.Tags == Tokens(f.tags)
  }

  /**
   * LineToEntry: an error when the line does not split into three fields,
   * otherwise a new entry built from the three fields.
   */
  method LineToEntry(line: string) returns (r: Result<Entry, ParseError>)
    ensures r.Failure? <==> LineFields(line).Failure?
    ensures r.Failure? ==> r.error == LineFields(line).error
    ensures r.Success? ==> Represents(r.value, LineFields(line).value) && fresh(r.value) && fresh(r.value.Tags)
  {
    var fields := Split(line, ',');
    if |fields| != 3 {
      return Failure(FieldCount(|fields|, line));
    }
    var e := new Entry(fields[0], fields[1], fields[2]);
    return Success(e);
  }

  /**
   * Round trip: the line an entry prints reads back as the same texts and the
   * same tags, provided no text or tag contains a comma and no tag starts or
   * ends with white space.
   */
  lemma EntryLineRoundTrip(jpText: string, engText: string, tags: set<string>)
    requires ',' !in jpText && ',' !in engText
    requires forall t :: t in tags ==> IsTag(t) && ',' !in t
    requires SurvivesTrim(tags)
    ensures var r := LineFields(jpText + "," + engText + "," + Rendered(tags));
      && r == Success(Fields(jpText, engText, Rendered(tags)))
      && Tokens(r.value.tags) == tags
  {
    RenderedIsJoin(tags);
    var L := StringOrder.Listing(tags);
    assert forall p :: p in L ==> ',' !in p;
    JoinExcludes(L, ' ', ',');
    LineFieldsOfJoined(jpText, engText, Rendered(tags));
    TokensOfRendered(tags);
  }

  /** The test case "まち,city / town,": a trailing comma gives an entry with no tags. */
  lemma TrailingCommaNoTags(line: string)
    requires line == "まち,city / town,"
    ensures LineFields(line) == Success(Fields("まち", "city / town", ""))
    ensures Tokens(LineFields(line).value.tags) == {}
  {
    assert line == "まち" + "," + "city / town" + "," + "";
    LineFieldsOfJoined("まち", "city / town", "");
    assert Split("", ' ') == [""];
  }

  /** The lines that CSVToEntries parses: all but the empty ones, in order. */
  function NonEmptyLines(lines: seq<string>): seq<string>
  {
    if lines == [] then []
    else if lines[0] == "" then NonEmptyLines(lines[1..])
    else [lines[0]] + NonEmptyLines(lines[1..])
  }

  /** The fields of each non-empty line in order, or the error of the first line that fails. */
  function ParseLines(lines: seq<string>): Result<seq<Fields>, ParseError>
  {
    if lines == [] then Success([])
    else if lines[0] == "" then ParseLines(lines[1..])
    else match LineFields(lines[0])
      case Failure(e) => Failure(e)
      case Success(f) =>
        match ParseLines(lines[1..])
        case Failure(e) => Failure(e)
        case Success(fs) => Success([f] + fs)
  }

  /** Parsing succeeds exactly when every non-empty line has two commas. */
  lemma {:induction false} ParseLinesSucceeds(lines: seq<string>)
    ensures ParseLines(lines).Success? <==>
      forall i :: 0 <= i < |lines| && lines[i] != "" ==> Occurrences(lines[i], ',') == 2
  {
    if lines != [] {
      ParseLinesSucceeds(lines[1..]);
      assert forall i :: 0 < i < |lines| ==> lines[i] == lines[1..][i - 1];
    }
  }

  /** On success there is one entry per non-empty line, in line order. */
  lemma {:induction false} ParseLinesInOrder(lines: seq<string>)
    requires ParseLines(lines).Success?
    ensures var fs := ParseLines(lines).value;
      && |fs| == |NonEmptyLines(lines)|
      && forall k :: 0 <= k < |fs| ==> LineFields(NonEmptyLines(lines)[k]) == Success(fs[k])
  {
    if lines != [] {
      ParseLinesInOrder(lines[1..]);
    }
  }

  /** On failure the error is that of the first non-empty line that does not parse. */
  lemma {:induction false} ParseLinesFailsFast(lines: seq<string>)
    requires ParseLines(lines).Failure?
    ensures exists i :: (0 <= i < |lines| && lines[i] != ""
      && LineFields(lines[i]) == Failure(ParseLines(lines).error)
      && forall j :: 0 <= j < i ==> lines[j] == "" || LineFields(lines[j]).Success?)
  {
    if lines[0] != "" && LineFields(lines[0]).Failure? {
      assert lines[0] != "" && LineFields(lines[0]) == Failure(ParseLines(lines).error);
    } else {
      ParseLinesFailsFast(lines[1..]);
      var i :| 0 <= i < |lines[1..]| && lines[1..][i] != ""
        && LineFields(lines[1..][i]) == Failure(ParseLines(lines[1..]).error)
        && forall j :: 0 <= j < i ==> lines[1..][j] == "" || LineFields(lines[1..][j]).Success?;
      assert lines[i + 1] == lines[1..][i];
      assert forall j :: 1 <= j <= i ==> lines[j] == lines[1..][j - 1];
    }
  }

  /** Prepends already parsed fields to the outcome of parsing the remaining lines. */
  function Then(done: seq<Fields>, rest: Result<seq<Fields>, ParseError>): Result<seq<Fields>, ParseError>
  {
    match rest
    case Failure(e) => Failure(e)
    case Success(fs) => Success(done + fs)
  }

  /**
   * The line loop of CSVToEntries over the lines of a file: empty lines are
   * skipped, each other line becomes an entry, in order, and the first line
   * that does not parse ends the loop with its error and no entries. Each
   * entry has its own new tag set.
   */
  method CSVToEntries(lines: seq<string>) returns (r: Result<seq<Entry>, ParseError>)
    ensures r.Failure? <==> ParseLines(lines).Failure?
    ensures r.Failure? ==> r.error == ParseLines(lines).error
    ensures r.Success? ==>
      && |r.value| == |ParseLines(lines).value|
      && (forall k :: 0 <= k < |r.value| ==> Represents(r.value[k], ParseLines(lines).value[k]))
      && (forall k :: 0 <= k < |r.value| ==> fresh(r.value[k]) && fresh(r.value[k].Tags))
      && (forall k, l :: 0 <= k < l < |r.value| ==> r.value[k].Tags != r.value[l].Tags)
  {
    var entries: seq<Entry> := [];
    ghost var parsed: seq<Fields> := [];
    var i := 0;
    assert lines[0..] == lines;
    assert Then([], ParseLines(lines)) == ParseLines(lines) by {
      if ParseLines(lines).Success? { assert [] + ParseLines(lines).value == ParseLines(lines).value; }
    }
    while i < |lines|
      invariant 0 <= i <= |lines|
      invariant |entries| == |parsed|
      invariant ParseLines(lines) == Then(parsed, ParseLines(lines[i..]))
      invariant forall k :: 0 <= k < |entries| ==> Represents(entries[k], parsed[k])
      invariant forall k :: 0 <= k < |entries| ==> fresh(entries[k]) && fresh(entries[k].Tags)
      invariant forall k, l :: 0 <= k < l < |entries| ==> entries[k].Tags != entries[l].Tags
    {
      var t := lines[i];
      ParseLinesStep(lines, i);
      if t == "" {
        i := i + 1;
        continue;
      }
      var e := LineToEntry(t);
      if e.Failure? {
        return Failure(e.error);
      }
      ThenAppend(parsed, LineFields(t).value, ParseLines(lines[i + 1..]));
      entries := entries + [e.value];
      parsed := parsed + [LineFields(t).value];
      i := i + 1;
    }
    assert lines[i..] == [];
    assert parsed + [] == parsed;
    return Success(entries);
  }

  /** Parsing the lines from `i` on, one line at a time. */
  lemma ParseLinesStep(lines: seq<string>, i: nat)
    requires i < |lines|
    ensures lines[i] == "" ==> ParseLines(lines[i..]) == ParseLines(lines[i + 1..])
    ensures lines[i] != "" && LineFields(lines[i]).Failure? ==>
      ParseLines(lines[i..]) == Failure(LineFields(lines[i]).error)
    ensures lines[i] != "" && LineFields(lines[i]).Success? ==>
      ParseLines(lines[i..]) == Then([LineFields(lines[i]).value], ParseLines(lines[i + 1..]))
  {
    assert lines[i..][1..] == lines[i + 1..];
  }

  lemma ThenAppend(done: seq<Fields>, f: Fields, rest: Result<seq<Fields>, ParseError>)
    ensures Then(done, Then([f], rest)) == Then(done + [f], rest)
  {
    if rest.Success? {
      assert done + ([f] + rest.value) == (done + [f]) + rest.value;
    }
  }
}
