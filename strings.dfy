/**
 Splitting a string on a single separator character the way the JDK's
 `String.split` does when it is given a one-character, non-meta pattern and
 no limit: every piece between two separators is kept, leading and interior
 empty pieces included, and only the empty pieces at the END are dropped.
 A string that holds no separator at all is returned whole, so the empty
 string splits into one empty piece.
 */
module Strings {

  /** `k` copies of the separator. */
  function Seps(sep: char, k: nat): (r: string)
    ensures |r| == k && forall i :: 0 <= i < k ==> r[i] == sep
  {
    seq(k, _ => sep)
  }

  /** `m` empty pieces. */
  function Empties(m: nat): (r: seq<string>)
    ensures |r| == m && forall i :: 0 <= i < m ==> r[i] == ""
  {
    seq(m, _ => "")
  }

  /** No piece holds the separator. */
  predicate Unseparated(xs: seq<string>, sep: char)
  {
    forall i :: 0 <= i < |xs| ==> sep !in xs[i]
  }

  /** The pieces, joined back together with one separator between each two. */
  function Join(xs: seq<string>, sep: char): string
  {
    if |xs| == 0 then ""
    else if |xs| == 1 then xs[0]
    else xs[0] + [sep] + Join(xs[1..], sep)
  }

  /** Every text between two consecutive separators (or an end of `s`),
      empty ones included: one piece more than there are separators. */
  function SplitAll(s: string, sep: char): (r: seq<string>)
    ensures |r| >= 1
    ensures forall i :: 0 <= i < |r| ==> sep !in r[i]
    decreases |s|
  {
    if s == [] then [""]
    else if s[0] == sep then [""] + SplitAll(s[1..], sep)
    else
      var rest := SplitAll(s[1..], sep);
      [[s[0]] + rest[0]] + rest[1..]
  }

  /** Nothing is lost by `SplitAll`: joining its pieces gives `s` back. */
  lemma {:induction false} JoinSplitAll(s: string, sep: char)
    ensures Join(SplitAll(s, sep), sep) == s
    decreases |s|
  {
    if s != [] {
      var rest := SplitAll(s[1..], sep);
      JoinSplitAll(s[1..], sep);
      if s[0] == sep {
        assert ([""] + rest)[1..] == rest;
      } else {
        var r := [[s[0]] + rest[0]] + rest[1..];
        assert r[1..] == rest[1..];
        assert s == [s[0]] + s[1..];
      }
    }
  }

  /** The longest prefix of `xs` that does not end in an empty piece. */
  function DropTrailingEmpty(xs: seq<string>): (r: seq<string>)
    ensures |r| <= |xs| && r == xs[..|r|]
    ensures forall i :: |r| <= i < |xs| ==> xs[i] == ""
    ensures r == [] || r[|r| - 1] != ""
  {
    if |xs| == 0 || xs[|xs| - 1] != "" then xs
    else DropTrailingEmpty(xs[..|xs| - 1])
  }

  /** `String.split` on a single separator with the default limit of zero. */
  function Split(s: string, sep: char): (r: seq<string>)
    ensures IsSplitOf(r, s, sep)
  {
    if sep !in s then [s]
    else
      var all := SplitAll(s, sep);
      var r := DropTrailingEmpty(all);
      SplitIsSplitOf(s, sep, all, r);
      r
  }

  /**
   What `Split` promises, stated without computing it: the pieces hold no
   separator; joined back together they are a prefix of `s` and what is left
   of `s` is separators only (nothing trimmed, nothing reordered); no input
   splits into nothing except a non-empty run of separators; and a last piece
   is empty only when `s` itself is empty.
   */
  predicate IsSplitOf(r: seq<string>, s: string, sep: char)
  {
    && Unseparated(r, sep)
    && |Join(r, sep)| <= |s|
    && s[..|Join(r, sep)|] == Join(r, sep)
    && (forall i :: |Join(r, sep)| <= i < |s| ==> s[i] == sep)
    && (r == [] ==> s != "")
    && (r != [] && r[|r| - 1] == "" ==> r == [""] && s == "")
  }

  lemma SplitIsSplitOf(s: string, sep: char, all: seq<string>, r: seq<string>)
    requires sep in s
    requires all == SplitAll(s, sep) && r == DropTrailingEmpty(all)
    ensures IsSplitOf(r, s, sep)
  {
    var m := |all| - |r|;
    JoinSplitAll(s, sep);
    assert all == r + Empties(m);
    if r == [] {
      JoinEmpties(m, sep);
      assert s == Seps(sep, m - 1);
    } else {
      JoinAppendEmpties(r, m, sep);
    }
  }

  /** Appending one piece adds one separator and the piece. */
  lemma {:induction false} JoinSnoc(xs: seq<string>, y: string, sep: char)
    requires xs != []
    ensures Join(xs + [y], sep) == Join(xs, sep) + [sep] + y
    decreases |xs|
  {
    if |xs| == 1 {
      assert (xs + [y])[1..] == [y];
    } else {
      assert (xs + [y])[1..] == xs[1..] + [y];
      JoinSnoc(xs[1..], y, sep);
    }
  }

  /** Trailing empty pieces come back as trailing separators. */
  lemma {:induction false} JoinAppendEmpties(xs: seq<string>, m: nat, sep: char)
    requires xs != []
    ensures Join(xs + Empties(m), sep) == Join(xs, sep) + Seps(sep, m)
    decreases m
  {
    if m == 0 {
      assert xs + Empties(0) == xs;
    } else {
      assert xs + Empties(m) == (xs + Empties(m - 1)) + [""];
      JoinAppendEmpties(xs, m - 1, sep);
      JoinSnoc(xs + Empties(m - 1), "", sep);
      assert Seps(sep, m) == Seps(sep, m - 1) + [sep];
    }
  }

  lemma JoinEmpties(m: nat, sep: char)
    requires m >= 1
    ensures Join(Empties(m), sep) == Seps(sep, m - 1)
  {
    assert Empties(m) == [""] + Empties(m - 1);
    JoinAppendEmpties([""], m - 1, sep);
  }

  /** A piece without separators splits into itself. */
  lemma {:induction false} SplitAllNoSep(x: string, sep: char)
    requires sep !in x
    ensures SplitAll(x, sep) == [x]
    decreases |x|
  {
    if x != [] {
      SplitAllNoSep(x[1..], sep);
      assert x == [x[0]] + x[1..];
    }
  }

  /** Splitting stops at the first separator. */
  lemma {:induction false} SplitAllAppend(s: string, x: string, t: string, sep: char)
    requires sep !in x && s == x + [sep] + t
    ensures SplitAll(s, sep) == [x] + SplitAll(t, sep)
    decreases |x|
  {
    if x == [] {
      assert s[1..] == t;
    } else {
      assert s[1..] == x[1..] + [sep] + t;
      SplitAllAppend(s[1..], x[1..], t, sep);
      assert x == [x[0]] + x[1..];
    }
  }

  /** `SplitAll` undoes `Join` for any non-empty list of separator-free pieces. */
  lemma {:induction false} SplitAllJoin(xs: seq<string>, sep: char)
    requires |xs| >= 1
    requires Unseparated(xs, sep)
    ensures SplitAll(Join(xs, sep), sep) == xs
    decreases |xs|
  {
    if |xs| == 1 {
      SplitAllNoSep(xs[0], sep);
    } else {
      SplitAllJoin(xs[1..], sep);
      SplitAllAppend(Join(xs, sep), xs[0], Join(xs[1..], sep), sep);
      assert xs == [xs[0]] + xs[1..];
    }
  }

  /** Round trip: splitting the joined pieces gives the pieces back, provided
      there is at least one, none holds the separator, and the last one is
      not empty (unless it is the only one). */
  lemma SplitJoin(xs: seq<string>, sep: char)
    requires |xs| >= 1
    requires Unseparated(xs, sep)
    requires |xs| == 1 || xs[|xs| - 1] != ""
    ensures Split(Join(xs, sep), sep) == xs
  {
    if |xs| > 1 {
      assert Join(xs, sep)[|xs[0]|] == sep;
      SplitAllJoin(xs, sep);
    }
  }

  /** Two pieces around one separator, the second not empty, come back as they are. */
  lemma SplitTwo(a: string, b: string, sep: char)
    requires sep !in a && sep !in b && b != ""
    ensures Split(a + [sep] + b, sep) == [a, b]
  {
    assert Join([a, b], sep) == a + [sep] + b;
    SplitJoin([a, b], sep);
  }

  /** The round trip holds for separator-free pieces exactly when the
      condition of `SplitJoin` does: the empty list and a list ending in an
      empty piece (after another one) do not survive it. */
  lemma SplitJoinIff(xs: seq<string>, sep: char)
    requires Unseparated(xs, sep)
    ensures Split(Join(xs, sep), sep) == xs <==> |xs| >= 1 && (|xs| == 1 || xs[|xs| - 1] != "")
  {
    if |xs| >= 1 && (|xs| == 1 || xs[|xs| - 1] != "") {
      SplitJoin(xs, sep);
    } else if xs == [] {
      assert Split(Join(xs, sep), sep) == [""];
    } else {
      SplitJoinTrailingEmpty(xs, sep);
    }
  }

  /** A trailing empty piece after another one is lost by the round trip. */
  lemma SplitJoinTrailingEmpty(xs: seq<string>, sep: char)
    requires |xs| > 1 && xs[|xs| - 1] == ""
    ensures Split(Join(xs, sep), sep) != xs
  {
  }

  /** A string of separators only splits into no pieces at all. */
  lemma SplitOnlySeps(k: nat, sep: char)
    requires k > 0
    ensures Split(Seps(sep, k), sep) == []
  {
    assert Seps(sep, k)[0] == sep;
    JoinEmpties(k + 1, sep);
    SplitAllJoin(Empties(k + 1), sep);
    var d := DropTrailingEmpty(Empties(k + 1));
    assert d == [];
  }

  /** Separators after the last non-empty piece are dropped. */
  lemma SplitDropsTrailingSeps(xs: seq<string>, k: nat, sep: char)
    requires |xs| >= 1 && Unseparated(xs, sep) && xs[|xs| - 1] != ""
    requires k > 0
    ensures Split(Join(xs, sep) + Seps(sep, k), sep) == xs
  {
    var j := Join(xs, sep);
    var all := xs + Empties(k);
    assert (j + Seps(sep, k))[|j|] == sep;
    JoinAppendEmpties(xs, k, sep);
    assert Unseparated(all, sep);
    SplitAllJoin(all, sep);
    var d := DropTrailingEmpty(all);
    assert all[|xs| - 1] != "";
    assert |d| == |xs|;
  }

  /** `IsSplitOf` pins the pieces down: `Split` is the only list it admits. */
  lemma SplitUnique(r: seq<string>, s: string, sep: char)
    requires IsSplitOf(r, s, sep)
    ensures r == Split(s, sep)
  {
    var j := Join(r, sep);
    var k := |s| - |j|;
    assert s == j + Seps(sep, k);
    if r == [] {
      assert s == Seps(sep, k) && k > 0;
      SplitOnlySeps(k, sep);
    } else if r[|r| - 1] == "" {
    } else if k == 0 {
      assert s == j;
      SplitJoin(r, sep);
    } else {
      SplitDropsTrailingSeps(r, k, sep);
    }
  }
}
