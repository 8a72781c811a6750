/**
 * GitObserver: the hosted service that keeps the last snapshot of the
 * watched repository in `knownFiles` and, on every timer tick, pulls,
 * takes a new snapshot, reports what was added or modified and replaces
 * the known snapshot. Running git is an oracle here: each method receives
 * the text the listing command printed.
 */
module GitWatcher {
  import opened Strings
  import opened Snapshots
  import opened Changes

  /** The snapshots of the given listings. */
  function ParseAll(listings: seq<string>): seq<Dictionary>
  {
    seq(|listings|, i requires 0 <= i < |listings| => ParseListing(listings[i]))
  }

  /** The batches that successive polls publish, starting from the known
      snapshot `known`, one poll per new snapshot. */
  function Publications(known: Dictionary, snapshots: seq<Dictionary>): (r: seq<seq<Change>>)
    ensures |r| == |snapshots|
    decreases |snapshots|
  {
    if snapshots == [] then []
    else [Diff(known, snapshots[0])] + Publications(snapshots[0], snapshots[1..])
  }

  /** The known snapshot after those polls: the last one taken, whatever it held. */
  function KnownAfter(known: Dictionary, snapshots: seq<Dictionary>): Dictionary
  {
    if snapshots == [] then known else snapshots[|snapshots| - 1]
  }

  class GitObserver {
    var knownFiles: Dictionary

    ghost predicate Valid()
      reads this
    {
      knownFiles.Valid()
    }

    /** The field initialiser `myKnownFiles = []`. */
    constructor ()
      ensures Valid() && knownFiles == Empty
    {
      knownFiles := Empty;
    }

    /** GetFilesWithHashes, given the text `git ls-tree -r HEAD` printed. */
    method GetFilesWithHashes(output: string) returns (fileHashes: Dictionary)
      ensures fileHashes == ParseListing(output)
    {
      var lines := NonEmpty(Split(output, "\n"));
      fileHashes := Empty;
      for i := 0 to |lines|
        invariant fileHashes == Build(ParseLines(lines)[..i])
      {
        var line := lines[i];
        assert ParseLines(lines)[..i + 1][..i] == ParseLines(lines)[..i];
        var parts := SplitMax(line, " ", 3);
        if |parts| >= 3 {
          var hashAndFile := Split(parts[2], "\t");
          if |hashAndFile| == 2 {
            var file := hashAndFile[1];
            var hash := hashAndFile[0];
            fileHashes := fileHashes.Set(file, hash);
          }
        }
      }
      assert ParseLines(lines)[..|lines|] == ParseLines(lines);
    }

    /** One poll. The pull's output is not used; `listing` is what the
        listing command printed after it, failed or not. The Modified list
        is computed against the known snapshot before it is replaced. */
    method GetChanges(listing: string) returns (changes: seq<Change>)
      requires Valid()
      modifies this
      ensures Valid()
      ensures changes == Diff(old(knownFiles), ParseListing(listing))
      ensures knownFiles == ParseListing(listing)
    {
      var currentFiles := GetFilesWithHashes(listing);
      var addedFiles := AddedFiles(knownFiles, currentFiles);
      var modifiedFiles := ModifiedFiles(knownFiles, currentFiles);
      knownFiles := currentFiles;
      changes := addedFiles + modifiedFiles;
    }

    /** StartAsync: the initial snapshot, then one poll per tick until
        cancellation; `tickListings` holds the listing of each tick that
        fired and `published` the batches handed to the publisher on the
        "store-updates" channel. */
    method StartAsync(initialListing: string, tickListings: seq<string>) returns (published: seq<seq<Change>>)
      modifies this
      ensures Valid()
      ensures published == Publications(ParseListing(initialListing), ParseAll(tickListings))
      ensures knownFiles == KnownAfter(ParseListing(initialListing), ParseAll(tickListings))
    {
      knownFiles := GetFilesWithHashes(initialListing);
      ghost var initial := knownFiles;
      ghost var snapshots := ParseAll(tickListings);
      published := [];
      var i := 0;
      while i < |tickListings|
        invariant 0 <= i <= |tickListings| == |snapshots|
        invariant Valid()
        invariant knownFiles == KnownAfter(initial, snapshots[..i])
        invariant published == Publications(initial, snapshots[..i])
      {
        var changes := GetChanges(tickListings[i]);
        PublishNext(initial, snapshots, i, published, changes);
        published := published + [changes];
        i := i + 1;
      }
      assert snapshots[..i] == snapshots;
    }
  }

  /** One more tick appends one batch, computed against the snapshot the
      earlier ticks left behind. */
  lemma {:induction false} PublicationsSnoc(known: Dictionary, snapshots: seq<Dictionary>, next: Dictionary)
    ensures Publications(known, snapshots + [next]) ==
      Publications(known, snapshots) + [Diff(KnownAfter(known, snapshots), next)]
    decreases |snapshots|
  {
    if snapshots != [] {
      var first, rest := snapshots[0], snapshots[1..];
      var longer := snapshots + [next];
      assert longer[0] == first && longer[1..] == rest + [next];
      PublicationsSnoc(first, rest, next);
      assert KnownAfter(first, rest) == KnownAfter(known, snapshots) by {
        if rest != [] {
          assert rest[|rest| - 1] == snapshots[|snapshots| - 1];
        }
      }
    }
  }

  /** The loop step of StartAsync: the batch of tick i, computed against the
      snapshot the earlier ticks left, extends the published batches, and
      snapshot i becomes the known one. */
  lemma PublishNext(initial: Dictionary, snapshots: seq<Dictionary>, i: nat,
                    published: seq<seq<Change>>, changes: seq<Change>)
    requires i < |snapshots|
    requires published == Publications(initial, snapshots[..i])
    requires changes == Diff(KnownAfter(initial, snapshots[..i]), snapshots[i])
    ensures published + [changes] == Publications(initial, snapshots[..i + 1])
    ensures KnownAfter(initial, snapshots[..i + 1]) == snapshots[i]
  {
    PublicationsSnoc(initial, snapshots[..i], snapshots[i]);
    assert snapshots[..i + 1] == snapshots[..i] + [snapshots[i]];
  }

  /** Poll number i compares snapshot i with snapshot i - 1 (or with the
      initial snapshot for the first tick). */
  lemma {:induction false} PublicationAt(known: Dictionary, snapshots: seq<Dictionary>, i: nat)
    requires i < |snapshots|
    ensures Publications(known, snapshots)[i] ==
      Diff(if i == 0 then known else snapshots[i - 1], snapshots[i])
    decreases i
  {
    if i > 0 {
      PublicationAt(snapshots[0], snapshots[1..], i - 1);
    }
  }

  /** While the tree does not change, no poll reports anything. */
  lemma UnchangedTreePublishesNothing(d: Dictionary, ticks: nat)
    requires d.Valid()
    ensures var r := Publications(d, seq(ticks, _ => d));
      |r| == ticks && forall i :: 0 <= i < ticks ==> r[i] == []
  {
    var snapshots := seq(ticks, _ => d);
    DiffSelfEmpty(d);
    forall i | 0 <= i < ticks ensures Publications(d, snapshots)[i] == [] {
      PublicationAt(d, snapshots, i);
    }
  }

  /** The known snapshot is replaced even when the listing command fails.
      A failed listing whose output is empty gives the empty snapshot
      (Snapshots.BlankListing); that tick reports nothing (nothing is added,
      deletions are not reported), and the next tick reports every tracked
      file as Added. */
  lemma FailedListingResetsBaseline(known: Dictionary, current: Dictionary)
    requires known.Valid() && current.Valid()
    ensures Publications(known, [Empty, current]) == [[], Tag(Added, current.keys)]
  {
    DiffToEmpty(known);
    DiffFromEmpty(current);
    assert [Empty, current][1..] == [current];
  }
}
