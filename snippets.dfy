/**
 * SnippetsController.Search: a case-insensitive substring search over the
 * Markdown files of the snippet store. Enumerating and reading the files is
 * an input here: the files the enumeration of `*.md` yields, in its order,
 * each with its name and its text.
 */
module Snippets {
  import opened Wrappers
  import opened Strings

  datatype Snippet = Snippet(id: string, text: string)

  datatype SearchResult = SearchResult(matchedLine: string, snippet: Snippet)

  /** One enumerated file: its name within the store and its text. */
  datatype StoredFile = StoredFile(name: string, content: string)

  /** char.IsWhiteSpace: the Unicode space, line and paragraph separators,
      the control characters U+0009 to U+000D, and U+0085. */
  predicate IsWhiteSpace(c: char)
  {
    || '\t' <= c <= '\r' || c == ' ' || c == '\U{0085}' || c == '\U{00A0}' || c == '\U{1680}'
    || '\U{2000}' <= c <= '\U{200A}' || c == '\U{2028}' || c == '\U{2029}'
    || c == '\U{202F}' || c == '\U{205F}' || c == '\U{3000}'
  }

  /** string.IsNullOrWhiteSpace; None stands for null. */
  predicate IsNullOrWhiteSpace(s: Option<string>)
  {
    s.None? || forall i :: 0 <= i < |s.value| ==> IsWhiteSpace(s.value[i])
  }

  /** The case folding under which two characters compare equal: ASCII
      letters fold to upper case, every other character is left alone. */
  function FoldCase(c: char): (r: char)
    ensures !('a' <= r <= 'z')
    ensures 'a' <= c <= 'z' ==> 'A' <= r <= 'Z'
    ensures r != c ==> 'a' <= c <= 'z' && r as int == c as int - 32
  {
    if 'a' <= c <= 'z' then (c as int - 'a' as int + 'A' as int) as char else c
  }

  /** `query` occurs at position i of `line`, ignoring case. */
  predicate MatchesAt(line: string, query: string, i: int)
    requires 0 <= i <= |line| - |query|
  {
    forall k :: 0 <= k < |query| ==> FoldCase(line[i + k]) == FoldCase(query[k])
  }

  /** line.Contains(query, StringComparison.OrdinalIgnoreCase), tried at
      each position from the left. */
  function ContainsIgnoreCase(line: string, query: string): (r: bool)
    ensures r <==> exists i :: 0 <= i <= |line| - |query| && MatchesAt(line, query, i)
    decreases |line|
  {
    if |line| < |query| then false
    else if MatchesAt(line, query, 0) then true
    else
      var rest := line[1..];
      assert forall i :: 0 <= i <= |rest| - |query| ==> (MatchesAt(rest, query, i) <==> MatchesAt(line, query, i + 1));
      assert forall i :: 0 <= i <= |line| - |query| && MatchesAt(line, query, i) ==> i == 0 || MatchesAt(rest, query, i - 1);
      ContainsIgnoreCase(rest, query)
  }

  /** `lines.FirstOrDefault(line => line.Contains(query, OrdinalIgnoreCase))`:
      the first line containing the query, or None (null) if none does. */
  function FirstMatch(lines: seq<string>, query: string): (r: Option<string>)
    ensures r.None? <==> forall i :: 0 <= i < |lines| ==> !ContainsIgnoreCase(lines[i], query)
    ensures r.Some? ==>
      exists i :: 0 <= i < |lines| && lines[i] == r.value && ContainsIgnoreCase(lines[i], query)
        && forall j :: 0 <= j < i ==> !ContainsIgnoreCase(lines[j], query)
    decreases |lines|
  {
    if lines == [] then None
    else if ContainsIgnoreCase(lines[0], query) then Some(lines[0])
    else
      var r := FirstMatch(lines[1..], query);
      assert forall i :: 1 <= i < |lines| ==> lines[i] == lines[1..][i - 1];
      r
  }

  /** The position of the last occurrence of `c` in `s`. */
  function LastIndexOf(s: string, c: char): (r: Option<nat>)
    ensures r.None? <==> c !in s
    ensures r.Some? ==> r.value < |s| && s[r.value] == c && c !in s[r.value + 1..]
    decreases |s|
  {
    if s == [] then None
    else if s[|s| - 1] == c then Some(|s| - 1)
    else
      var r := LastIndexOf(s[..|s| - 1], c);
      assert s == s[..|s| - 1] + [s[|s| - 1]];
      r
  }

  /** Path.GetFileNameWithoutExtension of a file name: everything before
      its last '.', or the whole name if it has none. */
  function FileNameWithoutExtension(name: string): (r: string)
    ensures '.' !in name ==> r == name
    ensures '.' in name ==> |r| < |name| && name[..|r|] == r && name[|r|] == '.' && '.' !in name[|r| + 1..]
  {
    match LastIndexOf(name, '.')
    case None => name
    case Some(i) => name[..i]
  }

  /** Save stores a snippet as `<id>.md`; stripping the extension from that
      file name gives the id back, whatever characters the id holds. Whether
      Search lists the file at all depends on where Path.Combine puts it. */
  lemma IdOfSavedFile(id: string)
    ensures FileNameWithoutExtension(id + ".md") == id
  {
    var name := id + ".md";
    assert name[|id|] == '.' && name[|id| + 1..] == "md";
  }

  function ToSnippet(f: StoredFile): Snippet
  {
    Snippet(FileNameWithoutExtension(f.name), f.content)
  }

  /** The lines of a text: text.Split(Environment.NewLine). */
  function TextLines(text: string, newline: string): seq<string>
    requires newline != ""
  {
    Split(text, newline)
  }

  /** The `Select` step: the search result for one file, whose match is the
      first line containing the query, or None (null) when no line does. */
  function Candidate(f: StoredFile, query: string, newline: string): Option<SearchResult>
    requires newline != ""
  {
    var snippet := ToSnippet(f);
    match FirstMatch(TextLines(snippet.text, newline), query)
    case None => None
    case Some(line) => Some(SearchResult(line, snippet))
  }

  /** The `Where(result => result.Match != null)` step: the present values, in order. */
  function KeepPresent<T>(xs: seq<Option<T>>): seq<T>
    decreases |xs|
  {
    if xs == [] then []
    else (if xs[0].Some? then [xs[0].value] else []) + KeepPresent(xs[1..])
  }

  /** Every position moved one place on. */
  function Shift(positions: seq<nat>): (r: seq<nat>)
    ensures |r| == |positions| && forall k :: 0 <= k < |r| ==> r[k] == positions[k] + 1
  {
    seq(|positions|, k requires 0 <= k < |positions| => positions[k] + 1)
  }

  /** The positions of the present values, in order. */
  function PresentPositions<T>(xs: seq<Option<T>>): (idx: seq<nat>)
    ensures forall k :: 0 <= k < |idx| ==> idx[k] < |xs|
    decreases |xs|
  {
    if xs == [] then []
    else
      (if xs[0].Some? then [0] else []) + Shift(PresentPositions(xs[1..]))
  }

  /** Value k of the filtered sequence is the present value at position idx[k]. */
  lemma {:induction false} KeepPresentAt<T>(xs: seq<Option<T>>)
    ensures var idx := PresentPositions(xs);
      |idx| == |KeepPresent(xs)|
      && forall k :: 0 <= k < |idx| ==> xs[idx[k]] == Some(KeepPresent(xs)[k])
    decreases |xs|
  {
    if xs != [] {
      var tail := xs[1..];
      KeepPresentAt(tail);
      var rest := PresentPositions(tail);
      var idx := PresentPositions(xs);
      var head := if xs[0].Some? then [xs[0].value] else [];
      var r := KeepPresent(xs);
      assert r == head + KeepPresent(tail);
      forall k | 0 <= k < |idx| ensures xs[idx[k]] == Some(r[k]) {
        if k >= |head| {
          assert idx[k] == rest[k - |head|] + 1;
          assert xs[idx[k]] == tail[rest[k - |head|]];
        }
      }
    }
  }

  /** Each position lies strictly before the next. */
  ghost predicate Increasing(positions: seq<nat>)
  {
    forall k, l :: 0 <= k < l < |positions| ==> positions[k] < positions[l]
  }

  /** The positions increase strictly: each present value is kept once, in order. */
  lemma {:induction false} PresentPositionsIncreasing<T>(xs: seq<Option<T>>)
    ensures Increasing(PresentPositions(xs))
    decreases |xs|
  {
    if xs != [] {
      var rest := PresentPositions(xs[1..]);
      PresentPositionsIncreasing(xs[1..]);
      var head: seq<nat> := if xs[0].Some? then [0] else [];
      var idx := PresentPositions(xs);
      assert idx == head + Shift(rest);
      forall k, l | 0 <= k < l < |idx| ensures idx[k] < idx[l] {
        if k >= |head| {
          assert rest[k - |head|] < rest[l - |head|];
        }
      }
    }
  }

  /** A position is listed exactly when the value there is present. */
  lemma {:induction false} PresentPositionsExact<T>(xs: seq<Option<T>>)
    ensures forall i :: 0 <= i < |xs| ==> (i in PresentPositions(xs) <==> xs[i].Some?)
    decreases |xs|
  {
    if xs != [] {
      var tail := xs[1..];
      PresentPositionsExact(tail);
      var rest := PresentPositions(tail);
      var head: seq<nat> := if xs[0].Some? then [0] else [];
      var idx := PresentPositions(xs);
      assert idx == head + Shift(rest);
      forall i | 1 <= i < |xs| ensures i in idx <==> xs[i].Some? {
        assert xs[i] == tail[i - 1];
        if i in idx {
          var k :| 0 <= k < |idx| && idx[k] == i;
          assert rest[k - |head|] == i - 1;
        }
      }
    }
  }

  /** SnippetsController.Search, with the enumerated files and
      Environment.NewLine ("\n" or "\r\n") as inputs. */
  function Search(request: Option<string>, files: seq<StoredFile>, newline: string): (r: seq<SearchResult>)
    requires newline == "\n" || newline == "\r\n"
    ensures IsNullOrWhiteSpace(request) ==> r == []
  {
    if IsNullOrWhiteSpace(request) then []
    else KeepPresent(seq(|files|, i requires 0 <= i < |files| => Candidate(files[i], request.value, newline)))
  }

  /** Some line of the file's text contains the query, ignoring case. */
  predicate Mentions(f: StoredFile, query: string, newline: string)
    requires newline != ""
  {
    exists line :: line in TextLines(f.content, newline) && ContainsIgnoreCase(line, query)
  }

  /** A file mentions the query exactly when a first matching line exists. */
  lemma MentionsIffFound(f: StoredFile, query: string, newline: string)
    requires newline != ""
    ensures Mentions(f, query, newline) <==> FirstMatch(TextLines(f.content, newline), query).Some?
  {
    var lines := TextLines(f.content, newline);
    if FirstMatch(lines, query).None? {
      forall line | line in lines ensures !ContainsIgnoreCase(line, query) {
        var i :| 0 <= i < |lines| && lines[i] == line;
      }
    }
  }

  /** For a query that is not blank, the results are the files that mention
      it, each once and in enumeration order: result k comes from file idx[k],
      carries that file's snippet, and its match is the first line of the file
      that contains the query. */
  lemma SearchFindsMentioningFiles(request: Option<string>, files: seq<StoredFile>, newline: string)
    returns (idx: seq<nat>)
    requires newline == "\n" || newline == "\r\n"
    requires !IsNullOrWhiteSpace(request)
    ensures var r := Search(request, files, newline);
      |idx| == |r|
      && (forall k :: 0 <= k < |idx| ==>
            idx[k] < |files| && r[k].snippet == ToSnippet(files[idx[k]])
            && FirstMatch(TextLines(files[idx[k]].content, newline), request.value) == Some(r[k].matchedLine))
      && (forall k, l :: 0 <= k < l < |idx| ==> idx[k] < idx[l])
      && (forall i :: 0 <= i < |files| ==> (i in idx <==> Mentions(files[i], request.value, newline)))
  {
    var query := request.value;
    var candidates := seq(|files|, i requires 0 <= i < |files| => Candidate(files[i], query, newline));
    var r := Search(request, files, newline);
    assert r == KeepPresent(candidates);
    idx := PresentPositions(candidates);
    KeepPresentAt(candidates);
    PresentPositionsIncreasing(candidates);
    PresentPositionsExact(candidates);
    forall k | 0 <= k < |idx|
      ensures r[k].snippet == ToSnippet(files[idx[k]])
      ensures FirstMatch(TextLines(files[idx[k]].content, newline), query) == Some(r[k].matchedLine)
    {
      assert Candidate(files[idx[k]], query, newline) == Some(r[k]);
    }
    forall i | 0 <= i < |files| ensures i in idx <==> Mentions(files[i], query, newline) {
      assert candidates[i] == Candidate(files[i], query, newline);
      MentionsIffFound(files[i], query, newline);
    }
  }
}
