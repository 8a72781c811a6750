/**
 * The comparison GitObserver.GetChanges makes between the known snapshot
 * and the current one: LINQ's Except, Intersect and Where over the two
 * dictionaries' keys, then Added entries followed by Modified entries.
 */
module Changes {
  import opened Wrappers
  import opened Snapshots

  datatype ChangeType = Added | Modified

  /** A reported change; the C# class carries the type as the string
      "Added" or "Modified". */
  datatype Change = Change(changeType: ChangeType, path: string)

  /** `first.Except(second)`: the elements of `first` not in `second`, in
      order, each once (an element seen is added to the excluded set). */
  function Except(first: seq<string>, second: set<string>): (r: seq<string>)
    ensures forall p :: p in r <==> p in first && p !in second
    ensures Distinct(r)
    decreases |first|
  {
    if first == [] then []
    else if first[0] in second then Except(first[1..], second)
    else [first[0]] + Except(first[1..], second + {first[0]})
  }

  /** `first.Intersect(second)`: the elements of `first` that are in
      `second`, in the order of `first`, each once (an element found is
      removed from the set). */
  function Intersect(first: seq<string>, second: set<string>): (r: seq<string>)
    ensures forall p :: p in r <==> p in first && p in second
    ensures Distinct(r)
    decreases |first|
  {
    if first == [] then []
    else if first[0] in second then [first[0]] + Intersect(first[1..], second - {first[0]})
    else Intersect(first[1..], second)
  }

  /** Dictionary.TryGetValue; None stands for the null left in `out`. */
  function TryGetValue(m: map<string, string>, key: string): (r: Option<string>)
    ensures r.Some? <==> key in m
    ensures r.Some? ==> r.value == m[key]
  {
    if key in m then Some(m[key]) else None
  }

  /** The local function IsFileModified: the two hashes differ. */
  predicate IsFileModified(known: map<string, string>, current: map<string, string>, file: string)
  {
    TryGetValue(known, file) != TryGetValue(current, file)
  }

  /** `.Where(IsFileModified)`: the modified files, in order. */
  function WhereModified(files: seq<string>, known: map<string, string>, current: map<string, string>): (r: seq<string>)
    ensures forall p :: p in r <==> p in files && IsFileModified(known, current, p)
    ensures Distinct(files) ==> Distinct(r)
    decreases |files|
  {
    if files == [] then []
    else if IsFileModified(known, current, files[0]) then [files[0]] + WhereModified(files[1..], known, current)
    else WhereModified(files[1..], known, current)
  }

  /** `.Select(file => new Change { ChangeType = t, Path = file })`. */
  function Tag(t: ChangeType, files: seq<string>): seq<Change>
  {
    seq(|files|, i requires 0 <= i < |files| => Change(t, files[i]))
  }

  /** `addedFiles`: the current keys not known, in the current listing's
      order, each as an Added change. */
  function AddedFiles(known: Dictionary, current: Dictionary): seq<Change>
  {
    Tag(Added, Except(current.keys, known.entries.Keys))
  }

  /** `modifiedFiles`: the known keys still current whose hash changed, in
      the known listing's order, each as a Modified change. */
  function ModifiedFiles(known: Dictionary, current: Dictionary): seq<Change>
  {
    Tag(Modified, WhereModified(Intersect(known.keys, current.entries.Keys), known.entries, current.entries))
  }

  /** `addedFiles.Concat(modifiedFiles)`. */
  function Diff(known: Dictionary, current: Dictionary): seq<Change>
  {
    AddedFiles(known, current) + ModifiedFiles(known, current)
  }

  /** What a change means, stated on the two snapshots alone. */
  predicate Classified(known: map<string, string>, current: map<string, string>, c: Change)
  {
    match c.changeType
    case Added => c.path in current && c.path !in known
    case Modified => c.path in known && c.path in current && known[c.path] != current[c.path]
  }

  lemma TagMembership(t: ChangeType, files: seq<string>, c: Change)
    ensures c in Tag(t, files) <==> c.changeType == t && c.path in files
  {
    if c.changeType == t && c.path in files {
      var i :| 0 <= i < |files| && files[i] == c.path;
      assert Tag(t, files)[i] == c;
    }
  }

  /** A change is reported exactly when it classifies a path correctly:
      Added for a path only the current snapshot has, Modified for a path
      both have with different hashes. */
  lemma DiffClassifies(known: Dictionary, current: Dictionary, c: Change)
    requires known.Valid() && current.Valid()
    ensures c in Diff(known, current) <==> Classified(known.entries, current.entries, c)
  {
    TagMembership(Added, Except(current.keys, known.entries.Keys), c);
    TagMembership(Modified, WhereModified(Intersect(known.keys, current.entries.Keys), known.entries, current.entries), c);
  }

  /** Each path is reported at most once, so never both Added and Modified. */
  lemma DiffPathsDistinct(known: Dictionary, current: Dictionary)
    requires known.Valid() && current.Valid()
    ensures var r := Diff(known, current);
      forall i, j :: 0 <= i < j < |r| ==> r[i].path != r[j].path
  {
    var added := Except(current.keys, known.entries.Keys);
    var modified := WhereModified(Intersect(known.keys, current.entries.Keys), known.entries, current.entries);
    var r := Diff(known, current);
    var a := |added|;
    forall i, j | 0 <= i < j < |r| ensures r[i].path != r[j].path {
      if j < a {
        assert r[i].path == added[i] && r[j].path == added[j];
      } else if i >= a {
        assert r[i].path == modified[i - a] && r[j].path == modified[j - a];
      } else {
        assert r[i].path == added[i] && r[j].path == modified[j - a];
        assert added[i] in added && modified[j - a] in modified;
      }
    }
  }

  /** Every Added change comes before every Modified change. */
  lemma DiffAddedFirst(known: Dictionary, current: Dictionary)
    ensures var r := Diff(known, current);
      forall i, j :: 0 <= i < j < |r| && r[j].changeType == Added ==> r[i].changeType == Added
  {
    var a := |AddedFiles(known, current)|;
    var r := Diff(known, current);
    assert forall k :: 0 <= k < |r| ==> (r[k].changeType == Added <==> k < a);
  }

  /** A file the known snapshot has and the current one lacks produces no
      change: deletions are not reported. */
  lemma DeletionsInvisible(known: Dictionary, current: Dictionary, path: string)
    requires known.Valid() && current.Valid()
    requires path in known.entries && path !in current.entries
    ensures forall c :: c in Diff(known, current) ==> c.path != path
  {
    forall c | c in Diff(known, current) ensures c.path != path {
      DiffClassifies(known, current, c);
    }
  }

  /** Comparing a snapshot with itself reports nothing. */
  lemma DiffSelfEmpty(d: Dictionary)
    requires d.Valid()
    ensures Diff(d, d) == []
  {
    if Diff(d, d) != [] {
      DiffClassifies(d, d, Diff(d, d)[0]);
    }
  }

  /** Against an empty current snapshot nothing is reported: every known
      file looks deleted, and deletions are not reported. */
  lemma DiffToEmpty(known: Dictionary)
    requires known.Valid()
    ensures Diff(known, Empty) == []
  {
    if Diff(known, Empty) != [] {
      DiffClassifies(known, Empty, Diff(known, Empty)[0]);
    }
  }

  lemma {:induction false} ExceptDisjoint(first: seq<string>, second: set<string>)
    requires Distinct(first)
    requires forall p :: p in first ==> p !in second
    ensures Except(first, second) == first
    decreases |first|
  {
    if first != [] {
      var rest := first[1..];
      assert forall i, j :: 0 <= i < j < |rest| ==> rest[i] == first[i + 1] && rest[j] == first[j + 1];
      assert first[0] !in rest by {
        forall i | 0 <= i < |rest| ensures rest[i] != first[0] { assert rest[i] == first[i + 1]; }
      }
      ExceptDisjoint(rest, second + {first[0]});
      assert first == [first[0]] + rest;
    }
  }

  /** Against an empty known snapshot every current file is reported as
      Added, in the order of the current snapshot. */
  lemma DiffFromEmpty(current: Dictionary)
    requires current.Valid()
    ensures Diff(Empty, current) == Tag(Added, current.keys)
  {
    assert Empty.entries.Keys == {};
    ExceptDisjoint(current.keys, {});
    assert AddedFiles(Empty, current) == Tag(Added, current.keys);
    assert Intersect(Empty.keys, current.entries.Keys) == [];
    assert ModifiedFiles(Empty, current) == [];
  }
}
