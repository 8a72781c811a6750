/**
 * Snapshots of the tracked tree: the path -> object-hash dictionary that
 * GitObserver.GetFilesWithHashes builds from the text printed by
 * `git ls-tree -r HEAD`, one `<mode> SP <type> SP <object> TAB <file>` line
 * per tracked file.
 */
module Snapshots {
  import opened Wrappers
  import opened Strings

  ghost predicate Distinct(xs: seq<string>)
  {
    forall i, j :: 0 <= i < j < |xs| ==> xs[i] != xs[j]
  }

  /** A .NET Dictionary<string, string>: its entries, and its keys in the
      order they were first inserted, which is the order in which a
      dictionary that never had a key removed enumerates them. */
  datatype Dictionary = Dictionary(keys: seq<string>, entries: map<string, string>)
  {
    ghost predicate Valid()
    {
      Distinct(keys) && forall k :: k in entries <==> k in keys
    }

    /** The indexer `d[key] = value`: overwrites the value of a key already
        present (which keeps its place) or appends a new key. */
    function Set(key: string, value: string): (r: Dictionary)
      ensures r.entries == entries[key := value]
      ensures r.keys == if key in entries then keys else keys + [key]
      ensures Valid() ==> r.Valid()
    {
      if key in entries then Dictionary(keys, entries[key := value])
      else Dictionary(keys + [key], entries[key := value])
    }
  }

  const Empty: Dictionary := Dictionary([], map[])

  /** One accepted listing line: the file and the hash recorded for it. */
  datatype Entry = Entry(path: string, hash: string)

  /** The per-line step of GetFilesWithHashes: split on ' ' into at most three
      parts, require three, split the third on '\t' and require exactly two
      pieces, the hash and the file. Mode and type are not looked at. */
  function ParseLine(line: string): Option<Entry>
  {
    var parts := SplitMax(line, " ", 3);
    if |parts| >= 3 then
      var hashAndFile := Split(parts[2], "\t");
      if |hashAndFile| == 2 then Some(Entry(hashAndFile[1], hashAndFile[0])) else None
    else None
  }

  /** A line in the format `git ls-tree` prints. */
  function FormatLine(mode: string, kind: string, hash: string, path: string): string
  {
    mode + " " + kind + " " + hash + "\t" + path
  }

  /** The fields the parser can take apart again: mode and type hold no
      space, hash and path no tab. */
  predicate Separable(mode: string, kind: string, hash: string, path: string)
  {
    ' ' !in mode && ' ' !in kind && '\t' !in hash && '\t' !in path
  }

  /** A formatted line parses back to its path and hash, whatever its mode
      and type. */
  lemma ParseFormattedLine(mode: string, kind: string, hash: string, path: string)
    requires Separable(mode, kind, hash, path)
    ensures ParseLine(FormatLine(mode, kind, hash, path)) == Some(Entry(path, hash))
  {
    var rest := hash + "\t" + path;
    var line := FormatLine(mode, kind, hash, path);
    assert line == mode + [' '] + (kind + [' '] + rest);
    SplitMaxFirst(mode, ' ', kind + [' '] + rest, 3);
    SplitMaxFirst(kind, ' ', rest, 2);
    assert SplitMax(line, " ", 3) == [mode, kind, rest];
    SplitFirst(hash, '\t', path);
    SplitMaxNoSeparator(path, '\t', |path| + 1);
  }

  /** A line cut into three parts on ' ' is the three parts joined by
      spaces, and only the last part may contain a space. */
  lemma SplitThreeParts(line: string)
    requires |SplitMax(line, " ", 3)| >= 3
    ensures var parts := SplitMax(line, " ", 3);
      |parts| == 3 && line == parts[0] + " " + parts[1] + " " + parts[2]
      && ' ' !in parts[0] && ' ' !in parts[1]
  {
    var parts := SplitMax(line, " ", 3);
    JoinSplitMax(line, " ", 3);
    SplitMaxPiecesFree(line, ' ', 3);
    assert parts[1..][1..] == [parts[2]];
    assert Join(parts[1..], " ") == parts[1] + " " + parts[2];
  }

  /** A string that splits on '\t' into two pieces is those pieces joined by
      a tab, and neither piece contains a tab. */
  lemma SplitTwoPieces(s: string)
    requires |Split(s, "\t")| == 2
    ensures var pieces := Split(s, "\t");
      s == pieces[0] + "\t" + pieces[1] && '\t' !in pieces[0] && '\t' !in pieces[1]
  {
    JoinSplitMax(s, "\t", |s| + 1);
    SplitMaxPiecesFree(s, '\t', |s| + 1);
    var pieces := Split(s, "\t");
    assert pieces[1..] == [pieces[1]];
  }

  /** Conversely, every line the parser accepts is such a formatted line:
      no other line contributes to a snapshot. */
  lemma ParsedLineIsFormatted(line: string) returns (mode: string, kind: string)
    requires ParseLine(line).Some?
    ensures var e := ParseLine(line).value;
      Separable(mode, kind, e.hash, e.path) && line == FormatLine(mode, kind, e.hash, e.path)
  {
    var parts := SplitMax(line, " ", 3);
    SplitThreeParts(line);
    SplitTwoPieces(parts[2]);
    mode, kind := parts[0], parts[1];
  }

  /** RemoveEmptyEntries: the non-empty pieces, in order. */
  function NonEmpty(pieces: seq<string>): (r: seq<string>)
    ensures forall x :: x in r ==> x != "" && x in pieces
    ensures forall x :: x in pieces && x != "" ==> x in r
    ensures |r| <= |pieces|
  {
    if pieces == [] then []
    else if pieces[0] == "" then NonEmpty(pieces[1..])
    else [pieces[0]] + NonEmpty(pieces[1..])
  }

  /** `output.Split('\n', StringSplitOptions.RemoveEmptyEntries)`. */
  function Lines(output: string): (r: seq<string>)
    ensures forall line :: line in r ==> line != "" && '\n' !in line
    ensures forall line :: line in Split(output, "\n") && line != "" ==> line in r
  {
    SplitPiecesFree(output, '\n');
    NonEmpty(Split(output, "\n"))
  }

  /** RemoveEmptyEntries works piece by piece: filtering a concatenation
      filters each part and keeps their order. */
  lemma {:induction false} NonEmptyAppend(a: seq<string>, b: seq<string>)
    ensures NonEmpty(a + b) == NonEmpty(a) + NonEmpty(b)
    decreases |a|
  {
    if a == [] {
      assert a + b == b;
    } else {
      assert (a + b)[0] == a[0] && (a + b)[1..] == a[1..] + b;
      NonEmptyAppend(a[1..], b);
      if a[0] != "" {
        assert NonEmpty(a + b) == [a[0]] + (NonEmpty(a[1..]) + NonEmpty(b));
      }
    }
  }

  /** The lines of a text made of '\n'-free segments joined by '\n' are
      exactly its non-empty segments, in order. */
  lemma LinesOfJoin(segments: seq<string>)
    requires |segments| >= 1
    requires forall segment :: segment in segments ==> '\n' !in segment
    ensures Lines(Join(segments, "\n")) == NonEmpty(segments)
  {
    assert forall i :: 0 <= i < |segments| ==> segments[i] in segments;
    SplitJoin(segments, '\n');
  }

  /** A blank line anywhere in a listing (two '\n' in a row) is skipped:
      the loop visits the same lines as without it. */
  lemma BlankLineIgnored(before: seq<string>, after: seq<string>)
    requires |before + after| >= 1
    requires forall segment :: segment in before + after ==> '\n' !in segment
    ensures Lines(Join(before + [""] + after, "\n")) == Lines(Join(before + after, "\n"))
  {
    var with := before + [""] + after;
    assert forall segment :: segment in with ==> segment == "" || segment in before + after;
    LinesOfJoin(with);
    LinesOfJoin(before + after);
    NonEmptySkipsBlank(before, after);
  }

  /** RemoveEmptyEntries drops an empty piece wherever it stands. */
  lemma NonEmptySkipsBlank(before: seq<string>, after: seq<string>)
    ensures NonEmpty(before + [""] + after) == NonEmpty(before + after)
  {
    NonEmptyAppend(before + [""], after);
    NonEmptyAppend(before, [""]);
    NonEmptyAppend(before, after);
    assert NonEmpty([""]) == [];
  }

  /** The parse of every line, in order. */
  function ParseLines(lines: seq<string>): seq<Option<Entry>>
  {
    seq(|lines|, i requires 0 <= i < |lines| => ParseLine(lines[i]))
  }

  /** One step of the loop: an accepted line sets its file's hash, a
      rejected line leaves the dictionary as it is. */
  function Add(d: Dictionary, parsed: Option<Entry>): Dictionary
  {
    match parsed
    case None => d
    case Some(e) => d.Set(e.path, e.hash)
  }

  /** The dictionary the loop has built after the given parsed lines. */
  function Build(parsed: seq<Option<Entry>>): Dictionary
    decreases |parsed|
  {
    if parsed == [] then Empty
    else Add(Build(parsed[..|parsed| - 1]), parsed[|parsed| - 1])
  }

  /** Whatever the lines, the dictionary keeps each key once and lists
      exactly the keys it holds. */
  lemma {:induction false} BuildValid(parsed: seq<Option<Entry>>)
    ensures Build(parsed).Valid()
    decreases |parsed|
  {
    if parsed != [] {
      BuildValid(parsed[..|parsed| - 1]);
    }
  }

  /** The snapshot of a listing. */
  function ParseListing(output: string): (d: Dictionary)
    ensures d.Valid()
  {
    BuildValid(ParseLines(Lines(output)));
    Build(ParseLines(Lines(output)))
  }

  /** The parsed line is accepted and names `path`. */
  predicate Names(parsed: Option<Entry>, path: string)
  {
    parsed.Some? && parsed.value.path == path
  }

  /** A path is in the snapshot exactly when some accepted line names it. */
  lemma {:induction false} BuildDomain(parsed: seq<Option<Entry>>, path: string)
    ensures path in Build(parsed).entries <==> exists i :: 0 <= i < |parsed| && Names(parsed[i], path)
    decreases |parsed|
  {
    if parsed != [] {
      var n := |parsed| - 1;
      var prefix := parsed[..n];
      BuildDomain(prefix, path);
      assert forall i :: 0 <= i < n ==> prefix[i] == parsed[i];
      if path in Build(parsed).entries && !Names(parsed[n], path) {
        assert path in Build(prefix).entries;
      }
    }
  }

  /** When several lines name the same path, the last of them decides its hash. */
  lemma {:induction false} LastLineWins(parsed: seq<Option<Entry>>, i: nat)
    requires i < |parsed| && parsed[i].Some?
    requires forall j :: i < j < |parsed| ==> !Names(parsed[j], parsed[i].value.path)
    ensures var e := parsed[i].value;
      e.path in Build(parsed).entries && Build(parsed).entries[e.path] == e.hash
    decreases |parsed|
  {
    var n := |parsed| - 1;
    if i < n {
      var prefix := parsed[..n];
      assert prefix[i] == parsed[i];
      assert forall j :: i < j < n ==> prefix[j] == parsed[j];
      LastLineWins(prefix, i);
    }
  }

  /** A rejected line, wherever it stands among the parsed lines, leaves the
      built dictionary as it would be without it. */
  lemma {:induction false} BuildSkipsNone(before: seq<Option<Entry>>, after: seq<Option<Entry>>)
    ensures Build(before + [None] + after) == Build(before + after)
    decreases |after|
  {
    if after == [] {
      assert before + [None] + after == before + [None];
      assert before + after == before;
      BuildSnoc(before, None);
    } else {
      var n := |after| - 1;
      BuildSkipsNone(before, after[..n]);
      assert after == after[..n] + [after[n]];
      assert before + [None] + after == (before + [None] + after[..n]) + [after[n]];
      assert before + after == (before + after[..n]) + [after[n]];
      BuildSnoc(before + [None] + after[..n], after[n]);
      BuildSnoc(before + after[..n], after[n]);
    }
  }

  /** One more line is one more step of the loop. */
  lemma BuildSnoc(parsed: seq<Option<Entry>>, next: Option<Entry>)
    ensures Build(parsed + [next]) == Add(Build(parsed), next)
  {
    assert (parsed + [next])[..|parsed|] == parsed;
  }

  /** A line the parser rejects changes nothing, wherever it stands. */
  lemma RejectedLineSkipped(before: seq<string>, line: string, after: seq<string>)
    requires ParseLine(line).None?
    ensures Build(ParseLines(before + [line] + after)) == Build(ParseLines(before + after))
  {
    assert ParseLines(before + [line] + after) == ParseLines(before) + [None] + ParseLines(after);
    assert ParseLines(before + after) == ParseLines(before) + ParseLines(after);
    BuildSkipsNone(ParseLines(before), ParseLines(after));
  }

  /** A listing made of nothing but line breaks (the empty listing of an
      empty repository, or the empty output of a failed command) yields the
      empty snapshot. */
  lemma {:induction false} BlankListing(output: string)
    requires forall i :: 0 <= i < |output| ==> output[i] == '\n'
    ensures Lines(output) == [] && ParseListing(output) == Empty
    decreases |output|
  {
    if output == "" {
      assert Split(output, "\n") == [""];
    } else {
      var rest := output[1..];
      assert output == "" + ['\n'] + rest;
      SplitMaxFirst("", '\n', rest, |output| + 1);
      SplitMaxSaturates(rest, "\n", |output|, |rest| + 1);
      assert Split(output, "\n") == [""] + Split(rest, "\n");
      BlankListing(rest);
    }
  }

  /** One `git ls-tree` record. */
  datatype Record = Record(mode: string, kind: string, hash: string, path: string)

  function Format(r: Record): string
  {
    FormatLine(r.mode, r.kind, r.hash, r.path)
  }

  /** The text of a listing of the given records. */
  function Listing(records: seq<Record>): string
  {
    Join(seq(|records|, i requires 0 <= i < |records| => Format(records[i])), "\n")
  }

  predicate Printable(r: Record)
  {
    Separable(r.mode, r.kind, r.hash, r.path)
    && '\n' !in r.mode && '\n' !in r.kind && '\n' !in r.hash && '\n' !in r.path
  }

  function Paths(records: seq<Record>): seq<string>
  {
    seq(|records|, i requires 0 <= i < |records| => records[i].path)
  }

  lemma {:induction false} NonEmptyKeepsAll(pieces: seq<string>)
    requires forall i :: 0 <= i < |pieces| ==> pieces[i] != ""
    ensures NonEmpty(pieces) == pieces
    decreases |pieces|
  {
    if pieces != [] {
      NonEmptyKeepsAll(pieces[1..]);
      assert pieces == [pieces[0]] + pieces[1..];
    }
  }

  /** The lines of a listing are its formatted records. */
  lemma ListingLines(records: seq<Record>)
    requires forall i :: 0 <= i < |records| ==> Printable(records[i])
    ensures Lines(Listing(records)) == seq(|records|, i requires 0 <= i < |records| => Format(records[i]))
  {
    var lines := seq(|records|, i requires 0 <= i < |records| => Format(records[i]));
    if records == [] {
      assert Listing(records) == "";
      assert Split("", "\n") == [""];
    } else {
      forall i | 0 <= i < |lines| ensures '\n' !in lines[i] && lines[i] != "" {
        var r := records[i];
        assert lines[i] == r.mode + " " + r.kind + " " + r.hash + "\t" + r.path;
        assert lines[i][|r.mode|] == ' ';
      }
      LinesOfJoin(lines);
      NonEmptyKeepsAll(lines);
    }
  }

  /** Every line is accepted, and no two name the same file. */
  ghost predicate AllAcceptedDistinct(parsed: seq<Option<Entry>>)
  {
    && (forall i :: 0 <= i < |parsed| ==> parsed[i].Some?)
    && (forall i, j :: 0 <= i < j < |parsed| ==> parsed[i].value.path != parsed[j].value.path)
  }

  /** A last line that is accepted and names a file not seen before appends
      that file. */
  lemma BuildAppendsNew(parsed: seq<Option<Entry>>, e: Entry)
    requires parsed != [] && parsed[|parsed| - 1] == Some(e)
    requires e.path !in Build(parsed[..|parsed| - 1]).entries
    ensures Build(parsed) == Dictionary(Build(parsed[..|parsed| - 1]).keys + [e.path],
                                        Build(parsed[..|parsed| - 1]).entries[e.path := e.hash])
  {
  }

  /** Lines that each name a different file give a snapshot whose keys are
      those files, in line order. */
  lemma {:induction false} BuildKeysInOrder(parsed: seq<Option<Entry>>)
    requires AllAcceptedDistinct(parsed)
    ensures |Build(parsed).keys| == |parsed|
    ensures forall i :: 0 <= i < |parsed| ==> Build(parsed).keys[i] == parsed[i].value.path
    decreases |parsed|
  {
    if parsed != [] {
      var n := |parsed| - 1;
      var prefix := parsed[..n];
      assert forall i :: 0 <= i < n ==> prefix[i] == parsed[i];
      assert AllAcceptedDistinct(prefix);
      BuildKeysInOrder(prefix);
      var d := Build(prefix);
      BuildValid(prefix);
      var last := parsed[n].value;
      assert last.path !in d.keys by {
        forall i | 0 <= i < n ensures d.keys[i] != last.path {
          assert d.keys[i] == parsed[i].value.path;
        }
      }
      BuildAppendsNew(parsed, last);
    }
  }

  /** Lines that each name a different file give a snapshot that holds
      exactly those files, in line order, each with its line's hash. */
  lemma BuildDistinct(parsed: seq<Option<Entry>>)
    requires AllAcceptedDistinct(parsed)
    ensures |Build(parsed).keys| == |parsed|
    ensures forall i :: 0 <= i < |parsed| ==>
      && Build(parsed).keys[i] == parsed[i].value.path
      && parsed[i].value.path in Build(parsed).entries
      && Build(parsed).entries[parsed[i].value.path] == parsed[i].value.hash
  {
    BuildKeysInOrder(parsed);
    forall i | 0 <= i < |parsed|
      ensures parsed[i].value.path in Build(parsed).entries
      ensures Build(parsed).entries[parsed[i].value.path] == parsed[i].value.hash
    {
      LastLineWins(parsed, i);
    }
  }

  /** Every line of a listing parses back to its record's path and hash. */
  lemma ListingParses(records: seq<Record>)
    requires forall i :: 0 <= i < |records| ==> Printable(records[i])
    ensures var parsed := ParseLines(Lines(Listing(records)));
      |parsed| == |records|
      && forall i :: 0 <= i < |records| ==> parsed[i] == Some(Entry(records[i].path, records[i].hash))
  {
    ListingLines(records);
    var lines := Lines(Listing(records));
    forall i | 0 <= i < |lines|
      ensures ParseLine(lines[i]) == Some(Entry(records[i].path, records[i].hash))
    {
      var r := records[i];
      ParseFormattedLine(r.mode, r.kind, r.hash, r.path);
    }
  }

  /** Round trip through `git ls-tree`: listing records whose files are all
      different and parsing the text gives back exactly those records'
      files, in listing order, with their hashes. */
  lemma ListingRoundTrip(records: seq<Record>)
    requires forall i :: 0 <= i < |records| ==> Printable(records[i])
    requires Distinct(Paths(records))
    ensures ParseListing(Listing(records)).keys == Paths(records)
    ensures forall i :: 0 <= i < |records| ==>
      records[i].path in ParseListing(Listing(records)).entries
      && ParseListing(Listing(records)).entries[records[i].path] == records[i].hash
  {
    ListingParses(records);
    var parsed := ParseLines(Lines(Listing(records)));
    assert AllAcceptedDistinct(parsed) by {
      forall i, j | 0 <= i < j < |parsed| ensures parsed[i].value.path != parsed[j].value.path {
        assert Paths(records)[i] != Paths(records)[j];
      }
    }
    BuildDistinct(parsed);
    assert ParseListing(Listing(records)) == Build(parsed);
  }
}
