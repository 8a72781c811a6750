/**
 * The two .NET string operations the core relies on: String.Split with a
 * separator (optionally capped at a number of pieces) and its inverse,
 * String.Join.
 */
module Strings {

  /** String.Split(separator, count): the string is scanned left to right and
      every occurrence of `sep` ends a piece, until `count - 1` pieces have been
      cut off; the rest of the string, separators included, is the last piece.
      Empty pieces are kept. */
  function SplitMax(s: string, sep: string, count: nat): (r: seq<string>)
    requires sep != "" && count >= 1
    ensures 1 <= |r| <= count
    decreases |s|
  {
    if count == 1 || |s| < |sep| then [s]
    else if s[..|sep|] == sep then [""] + SplitMax(s[|sep|..], sep, count - 1)
    else
      var rest := SplitMax(s[1..], sep, count);
      [[s[0]] + rest[0]] + rest[1..]
  }

  /** String.Split(separator) without a count: every occurrence ends a piece
      (a string of length n has at most n + 1 pieces, so the cap never bites). */
  function Split(s: string, sep: string): seq<string>
    requires sep != ""
  {
    SplitMax(s, sep, |s| + 1)
  }

  /** String.Join(sep, pieces), the inverse of Split. */
  function Join(pieces: seq<string>, sep: string): string
  {
    if |pieces| == 0 then ""
    else if |pieces| == 1 then pieces[0]
    else pieces[0] + sep + Join(pieces[1..], sep)
  }

  /** Splitting loses nothing: joining the pieces back gives the string. */
  lemma {:induction false} JoinSplitMax(s: string, sep: string, count: nat)
    requires sep != "" && count >= 1
    ensures Join(SplitMax(s, sep, count), sep) == s
    decreases |s|
  {
    if count == 1 || |s| < |sep| {
    } else if s[..|sep|] == sep {
      JoinSplitMax(s[|sep|..], sep, count - 1);
      assert s == sep + s[|sep|..];
    } else {
      JoinSplitMax(s[1..], sep, count);
      JoinPrepend(s[0], SplitMax(s[1..], sep, count), sep);
      assert s == [s[0]] + s[1..];
    }
  }

  /** Gluing a character onto the first piece glues it onto the joined string. */
  lemma JoinPrepend(c: char, pieces: seq<string>, sep: string)
    requires |pieces| >= 1
    ensures Join([[c] + pieces[0]] + pieces[1..], sep) == [c] + Join(pieces, sep)
  {
    var glued := [[c] + pieces[0]] + pieces[1..];
    assert glued[1..] == pieces[1..];
  }

  /** Once the cap exceeds the length of the string, it no longer matters. */
  lemma {:induction false} SplitMaxSaturates(s: string, sep: string, m: nat, n: nat)
    requires sep != "" && m >= |s| + 1 && n >= |s| + 1
    ensures SplitMax(s, sep, m) == SplitMax(s, sep, n)
    decreases |s|
  {
    if m == 1 || n == 1 || |s| < |sep| {
    } else if s[..|sep|] == sep {
      SplitMaxSaturates(s[|sep|..], sep, m - 1, n - 1);
    } else {
      SplitMaxSaturates(s[1..], sep, m, n);
    }
  }

  /** No piece of `r` before index `n` contains `c`. */
  ghost predicate FreeBefore(r: seq<string>, c: char, n: int)
  {
    forall i :: 0 <= i < n && i < |r| ==> c !in r[i]
  }

  /** With a one-character separator, no piece but the last contains it, and
      the last neither when the cap is not reached. */
  lemma {:induction false} SplitMaxPiecesFree(s: string, c: char, count: nat)
    requires count >= 1
    ensures FreeBefore(SplitMax(s, [c], count), c, |SplitMax(s, [c], count)| - 1)
    ensures count >= |s| + 1 ==> FreeBefore(SplitMax(s, [c], count), c, |SplitMax(s, [c], count)|)
    decreases |s|
  {
    var r := SplitMax(s, [c], count);
    if count == 1 || |s| < 1 {
    } else if s[..1] == [c] {
      SplitMaxPiecesFree(s[1..], c, count - 1);
      var rest := SplitMax(s[1..], [c], count - 1);
      assert r == [""] + rest;
      forall i | 0 <= i < |r| && (i < |r| - 1 || count >= |s| + 1) ensures c !in r[i] {
        if i > 0 {
          assert r[i] == rest[i - 1];
        } else {
          assert r[0] == [];
        }
      }
    } else {
      SplitMaxPiecesFree(s[1..], c, count);
      var rest := SplitMax(s[1..], [c], count);
      assert r == [[s[0]] + rest[0]] + rest[1..];
      assert s[0] != c;
      forall i | 0 <= i < |r| && (i < |r| - 1 || count >= |s| + 1) ensures c !in r[i] {
        if i > 0 {
          assert r[i] == rest[i];
        } else {
          assert r[0] == [s[0]] + rest[0];
        }
      }
    }
  }

  /** Every piece of a full split is free of the (one-character) separator. */
  lemma SplitPiecesFree(s: string, c: char)
    ensures forall piece :: piece in Split(s, [c]) ==> c !in piece
  {
    SplitMaxPiecesFree(s, c, |s| + 1);
    var r := Split(s, [c]);
    forall piece | piece in r ensures c !in piece {
      var i :| 0 <= i < |r| && r[i] == piece;
    }
  }

  /** A string without the separator splits into itself. */
  lemma {:induction false} SplitMaxNoSeparator(s: string, c: char, count: nat)
    requires count >= 1 && c !in s
    ensures SplitMax(s, [c], count) == [s]
    decreases |s|
  {
    if count == 1 || |s| < 1 {
    } else {
      assert s[..1] != [c] by { assert s[0] != c; }
      SplitMaxNoSeparator(s[1..], c, count);
      assert s == [s[0]] + s[1..];
    }
  }

  /** The first piece ends at the first separator. */
  lemma {:induction false} SplitMaxFirst(a: string, c: char, b: string, count: nat)
    requires count >= 2 && c !in a
    ensures SplitMax(a + [c] + b, [c], count) == [a] + SplitMax(b, [c], count - 1)
    decreases |a|
  {
    var s := a + [c] + b;
    if |a| == 0 {
      assert s[..1] == [c] && s[1..] == b;
    } else {
      assert s[..1] != [c] by { assert s[0] == a[0] != c; }
      assert s[1..] == a[1..] + [c] + b;
      SplitMaxFirst(a[1..], c, b, count);
      assert [s[0]] + a[1..] == a;
    }
  }

  /** The same for a full split. */
  lemma SplitFirst(a: string, c: char, b: string)
    requires c !in a
    ensures Split(a + [c] + b, [c]) == [a] + Split(b, [c])
  {
    var s := a + [c] + b;
    SplitMaxFirst(a, c, b, |s| + 1);
    SplitMaxSaturates(b, [c], |s|, |b| + 1);
  }

  /** Splitting a joined sequence of separator-free pieces gives the pieces back. */
  lemma {:induction false} SplitJoin(pieces: seq<string>, c: char)
    requires |pieces| >= 1
    requires forall i :: 0 <= i < |pieces| ==> c !in pieces[i]
    ensures Split(Join(pieces, [c]), [c]) == pieces
    decreases |pieces|
  {
    if |pieces| == 1 {
      SplitMaxNoSeparator(pieces[0], c, |pieces[0]| + 1);
    } else {
      SplitJoin(pieces[1..], c);
      SplitFirst(pieces[0], c, Join(pieces[1..], [c]));
      assert pieces == [pieces[0]] + pieces[1..];
    }
  }
}
