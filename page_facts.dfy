/**
 * What a page of the reader is, stated without the scan: which lines it
 * holds, how long it is, how blank lines show up on it, and how consecutive
 * pages tile the file.
 */
module PageFacts {
  import opened Text
  import opened Paginator

  /** The raw position of the `j`-th (0-based) non-blank line of `lines`. */
  function NonBlankPos(lines: seq<string>, j: nat): (p: nat)
    requires j < |NonBlank(lines)|
    ensures p < |lines| && !IsBlank(lines[p])
    ensures |NonBlank(lines[..p])| == j && NonBlank(lines)[j] == lines[p]
    decreases |lines|
  {
    var t := lines[1..];
    var p := if IsBlank(lines[0]) then 1 + NonBlankPos(t, j)
             else if j == 0 then 0
             else 1 + NonBlankPos(t, j - 1);
    assert p > 0 ==> lines[..p][0] == lines[0] && lines[..p][1..] == t[..p - 1];
    p
  }

  /** The `j`-th run is the `j`-th non-blank line with the blank lines right after it. */
  lemma {:induction false} RunAt(lines: seq<string>, j: nat)
    requires j < |NonBlank(lines)|
    ensures var p := NonBlankPos(lines, j);
            j < |Runs(lines)| && Runs(lines)[j] == Run(lines[p], LeadingBlanks(lines[p + 1..]))
    decreases |lines|
  {
    RunsMatchNonBlank(lines);
    var t := lines[1..];
    var p := NonBlankPos(lines, j);
    if IsBlank(lines[0]) {
      RunAt(t, j);
      var q := NonBlankPos(t, j);
      assert p == 1 + q;
      assert lines[p] == t[q] && lines[p + 1..] == t[q + 1..];
      assert Runs(lines) == Runs(t);
    } else if j > 0 {
      RunAt(t, j - 1);
      var q := NonBlankPos(t, j - 1);
      assert p == 1 + q;
      assert lines[p] == t[q] && lines[p + 1..] == t[q + 1..];
      assert Runs(lines) == [Run(lines[0], LeadingBlanks(t))] + Runs(t);
      assert Runs(lines)[j] == Runs(t)[j - 1];
    } else {
      assert p == 0 && lines[p + 1..] == t;
      assert Runs(lines) == [Run(lines[0], LeadingBlanks(t))] + Runs(t);
    }
  }

  /**
   * Every line of page `pageNumber` is the non-blank line whose 0-based
   * non-blank index is `StartLine + i`, verbatim, followed, when marking, by one
   * "  n" for every blank line directly after it in the file.
   */
  lemma PageAt(lines: seq<string>, pageNumber: int, pageSize: int, mark: bool, i: nat)
    requires pageNumber >= 1 && pageSize >= 1
    requires i < pageSize && StartLine(pageNumber, pageSize) + i < |NonBlank(lines)|
    ensures var p := NonBlankPos(lines, StartLine(pageNumber, pageSize) + i);
            && i < |Page(lines, pageNumber, pageSize, mark)|
            && Page(lines, pageNumber, pageSize, mark)[i] ==
               lines[p] + (if mark then Marks(LeadingBlanks(lines[p + 1..])) else "")
  {
    var s := StartLine(pageNumber, pageSize);
    RunsMatchNonBlank(lines);
    RunAt(lines, s + i);
    assert Window(Runs(lines), s, pageSize) == Runs(lines)[s..Min(s + pageSize, |Runs(lines)|)];
  }

  /** With marking off, a page is exactly a window of the non-blank lines. */
  lemma PageWithoutMarks(lines: seq<string>, pageNumber: int, pageSize: int)
    requires pageNumber >= 1 && pageSize >= 1
    ensures Page(lines, pageNumber, pageSize, false) ==
            Window(NonBlank(lines), StartLine(pageNumber, pageSize), pageSize)
  {
    var s := StartLine(pageNumber, pageSize);
    RunsMatchNonBlank(lines);
    var w := Window(Runs(lines), s, pageSize);
    var page := Page(lines, pageNumber, pageSize, false);
    var v := Window(NonBlank(lines), s, pageSize);
    assert |page| == |w| == |v|;
    forall j | 0 <= j < |page|
      ensures page[j] == v[j]
    {
      assert page[j] == Show(w[j], false) == w[j].text;
    }
  }

  /**
   * A page holds at most `pageSize` lines; it is short only when the file has
   * fewer than `StartLine + pageSize` non-blank lines, and empty exactly when
   * it starts at or past the last non-blank line.
   */
  lemma PageLength(lines: seq<string>, pageNumber: int, pageSize: int, mark: bool)
    requires pageNumber >= 1 && pageSize >= 1
    ensures var n := |NonBlank(lines)|;
            var s := StartLine(pageNumber, pageSize);
            var len := |Page(lines, pageNumber, pageSize, mark)|;
            && len <= pageSize
            && (len < pageSize <==> n < s + pageSize)
            && (len == 0 <==> n <= s)
            && (s < n ==> len == Min(pageSize, n - s))
  {
    RunsMatchNonBlank(lines);
  }

  /**
   * A blank line leaves the page as it was, except that with marking on, a
   * non-empty page and the scan still inside the window, it appends one
   * "  n" to the page's last line; nothing else changes.
   */
  lemma PageAppendBlank(lines: seq<string>, b: string, pageNumber: int, pageSize: int, mark: bool)
    requires pageNumber >= 1 && pageSize >= 1 && IsBlank(b)
    ensures var page := Page(lines, pageNumber, pageSize, mark);
            Page(lines + [b], pageNumber, pageSize, mark) ==
            if mark && page != [] && |NonBlank(lines)| <= StartLine(pageNumber, pageSize) + pageSize
            then MarkLast(page) else page
  {
    var s := StartLine(pageNumber, pageSize);
    var rs := Runs(lines);
    assert Runs(lines + [b]) == Bump(rs) by {
      RunsSnoc(lines, b);
    }
    assert |rs| == |NonBlank(lines)| by {
      RunsMatchNonBlank(lines);
    }
    if |rs| <= s + pageSize {
      WindowBump(rs, s, pageSize, mark);
    } else {
      WindowBumpPast(rs, s, pageSize);
    }
  }

  /** Once the file has `StartLine + pageSize` non-blank lines, what follows from the next non-blank line on is irrelevant. */
  lemma PageIgnoresTail(lines: seq<string>, rest: seq<string>, pageNumber: int, pageSize: int, mark: bool)
    requires pageNumber >= 1 && pageSize >= 1
    requires |NonBlank(lines)| >= StartLine(pageNumber, pageSize) + pageSize
    requires rest == [] || !IsBlank(rest[0])
    ensures Page(lines + rest, pageNumber, pageSize, mark) == Page(lines, pageNumber, pageSize, mark)
  {
    RunsAppend(lines, rest);
    RunsMatchNonBlank(lines);
    WindowOfPrefix(Runs(lines), Runs(rest), StartLine(pageNumber, pageSize), pageSize);
  }

  /** Pages 1 .. `count`, unmarked, one after the other. */
  function PagesUpTo(lines: seq<string>, count: nat, pageSize: int): seq<string>
    requires pageSize >= 1
  {
    if count == 0 then [] else PagesUpTo(lines, count - 1, pageSize) + Page(lines, count, pageSize, false)
  }

  /** Windows 1 .. `count` of `xs`, each `size` long and starting where the previous one ended. */
  function Tiles<T>(xs: seq<T>, count: nat, size: nat): seq<T>
    requires size >= 1
  {
    if count == 0 then [] else Tiles(xs, count - 1, size) + Window(xs, StartLine(count, size), size)
  }

  /** The first `count` windows of `xs` cover a prefix of it, without gaps, overlaps or reordering. */
  lemma {:induction false} TilesArePrefix<T>(xs: seq<T>, count: nat, size: nat)
    requires size >= 1
    ensures Tiles(xs, count, size) == xs[..Min(count * size, |xs|)]
  {
    if count > 0 {
      var s := StartLine(count, size);
      var x, e := Min(s, |xs|), Min(count * size, |xs|);
      assert s + size == count * size && x <= e;
      assert Tiles(xs, count - 1, size) == xs[..x] by {
        TilesArePrefix(xs, count - 1, size);
      }
      PrefixSplit(xs, x, e);
    }
  }

  /** Unmarked pages are the windows of the non-blank lines. */
  lemma {:induction false} PagesAreTiles(lines: seq<string>, count: nat, pageSize: int)
    requires pageSize >= 1
    ensures PagesUpTo(lines, count, pageSize) == Tiles(NonBlank(lines), count, pageSize)
  {
    if count > 0 {
      PagesAreTiles(lines, count - 1, pageSize);
      PageWithoutMarks(lines, count, pageSize);
    }
  }

  /**
   * Reading pages 1, 2, ..., `count` in turn yields the first `count * pageSize`
   * non-blank lines, each once and in file order; with enough pages, all of them.
   */
  lemma PagesConcat(lines: seq<string>, count: nat, pageSize: int)
    requires pageSize >= 1
    ensures PagesUpTo(lines, count, pageSize) == NonBlank(lines)[..Min(count * pageSize, |NonBlank(lines)|)]
    ensures count * pageSize >= |NonBlank(lines)| ==> PagesUpTo(lines, count, pageSize) == NonBlank(lines)
  {
    var nb := NonBlank(lines);
    PagesAreTiles(lines, count, pageSize);
    TilesArePrefix(nb, count, pageSize);
    assert nb[..|nb|] == nb;
  }

  lemma PrefixSplit<T>(xs: seq<T>, a: nat, b: nat)
    requires a <= b <= |xs|
    ensures xs[..a] + xs[a..b] == xs[..b]
  {
  }

  /** Blank-line folding on `["a", "", "b"]` with page size 2, unmarked and marked, and the next page. */
  lemma PageExamples()
    ensures Page(["a", "", "b"], 1, 2, true) == ["a  n", "b"]
    ensures Page(["a", "", "b"], 1, 2, false) == ["a", "b"]
    ensures Page(["a", "", "b"], 2, 2, true) == []
  {
    var f := ["a", "", "b"];
    assert "a"[0] == 'a' && "b"[0] == 'b' && !IsSpace('a') && !IsSpace('b');
    assert !IsBlank("a") && !IsBlank("b") && IsBlank("");
    assert f[1..] == ["", "b"] && f[1..][1..] == ["b"] && f[1..][1..][1..] == [];
    assert LeadingBlanks(["b"]) == 0 && LeadingBlanks(["", "b"]) == 1;
    assert Runs(["b"]) == [Run("b", 0)];
    assert Runs(["", "b"]) == [Run("b", 0)];
    assert Runs(f) == [Run("a", 1), Run("b", 0)];
    assert Marks(1) == BreakMarker;
    assert Show(Run("a", 1), true) == "a  n";
    assert Show(Run("a", 1), false) == "a" && Show(Run("b", 0), true) == "b" && Show(Run("b", 0), false) == "b";
    assert StartLine(1, 2) == 0 && StartLine(2, 2) == 2;
  }

  /** A line of whitespace counts as blank, and a trailing blank line marks the last page line. */
  lemma TrailingBlankExamples()
    ensures Page(["a", " ", "b", ""], 1, 1, true) == ["a  n"]
    ensures Page(["a", " ", "b", ""], 2, 1, true) == ["b  n"]
  {
    var f := ["a", " ", "b", ""];
    assert "a"[0] == 'a' && "b"[0] == 'b' && !IsSpace('a') && !IsSpace('b');
    assert !IsBlank("a") && !IsBlank("b") && IsBlank("") && IsBlank(" ");
    assert f[1..] == [" ", "b", ""] && f[1..][1..] == ["b", ""] && f[1..][1..][1..] == [""];
    assert [""][1..] == [];
    assert LeadingBlanks([""]) == 1 && LeadingBlanks(["b", ""]) == 0 && LeadingBlanks([" ", "b", ""]) == 1;
    assert Runs([""]) == [];
    assert Runs(["b", ""]) == [Run("b", 1)];
    assert Runs([" ", "b", ""]) == [Run("b", 1)];
    assert Runs(f) == [Run("a", 1), Run("b", 1)];
    assert Marks(1) == BreakMarker;
    assert Show(Run("a", 1), true) == "a  n" && Show(Run("b", 1), true) == "b  n";
    assert StartLine(1, 1) == 0 && StartLine(2, 1) == 1;
  }

  /** Blank lines past the stop point mark nothing: the blank line after "b" is ignored on page 1. */
  lemma StopExample()
    ensures Page(["a", "", "b", "", "c"], 1, 1, true) == ["a  n"]
  {
    var f := ["a", "", "b", "", "c"];
    assert "a"[0] == 'a' && !IsSpace('a') && !IsBlank("a") && IsBlank("");
    assert f == ["a", ""] + ["b", "", "c"];
    assert "b"[0] == 'b' && !IsSpace('b') && !IsBlank("b");
    RunsAppend(["a", ""], ["b", "", "c"]);
    assert ["a", ""][1..] == [""] && [""][1..] == [];
    assert LeadingBlanks([""]) == 1 && Runs([""]) == [];
    assert Runs(["a", ""]) == [Run("a", 1)];
    assert Marks(1) == BreakMarker && Show(Run("a", 1), true) == "a  n";
    assert StartLine(1, 1) == 0;
    WindowOfPrefix(Runs(["a", ""]), Runs(["b", "", "c"]), 0, 1);
  }
}
