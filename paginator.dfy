/**
 * The page extractor of the reader (`read_file_by_page`): given a 1-based
 * page number and a page size it returns the page-th window of non-blank
 * lines of a text file, optionally folding each blank line into the last
 * collected line as the marker "  n".
 *
 * The file is an already-decoded sequence of lines, each without its
 * trailing newline; whether the path exists and whether reading fails are
 * part of the `Source` value.
 */
module Paginator {
  import opened Text

  /** Suffix added to the last collected line for every blank line after it. */
  const BreakMarker: string := "  n"

  /** The exceptions `read_file_by_page` raises. */
  datatype Error =
    | InvalidPage               // ValueError: page number or page size below 1
    | BlankPath                 // ValueError: the path is empty after strip()
    | FileNotFound(path: string) // FileNotFoundError: os.path.exists is false
    | ReadFailed(cause: string)  // RuntimeError wrapping an IOError

  datatype Result<T> = Ok(value: T) | Err(error: Error)

  /** What opening the path yields. */
  datatype Source = Missing | Unreadable(cause: string) | Lines(lines: seq<string>)

  /** A non-blank line and the number of blank lines directly after it. */
  datatype Run = Run(text: string, blanks: nat)

  /** The number of blank lines at the front of `lines`. */
  function LeadingBlanks(lines: seq<string>): (n: nat)
    ensures n <= |lines|
  {
    if lines != [] && IsBlank(lines[0]) then 1 + LeadingBlanks(lines[1..]) else 0
  }

  /** `LeadingBlanks` counts the blank lines up to the first non-blank one. */
  lemma {:induction false} LeadingBlanksSpec(lines: seq<string>)
    ensures var n := LeadingBlanks(lines);
            && (forall k :: 0 <= k < n ==> IsBlank(lines[k]))
            && (n < |lines| ==> !IsBlank(lines[n]))
  {
    if lines != [] && IsBlank(lines[0]) {
      LeadingBlanksSpec(lines[1..]);
      assert forall k :: 1 <= k < |lines| ==> lines[k] == lines[1..][k - 1];
    }
  }

  /** The non-blank lines of `lines`, in order. */
  function NonBlank(lines: seq<string>): (r: seq<string>)
    ensures |r| <= |lines|
  {
    if lines == [] then []
    else if IsBlank(lines[0]) then NonBlank(lines[1..])
    else [lines[0]] + NonBlank(lines[1..])
  }

  /** `NonBlank` keeps no blank line, and drops everything only from an all-blank file. */
  lemma {:induction false} NonBlankIsFilter(lines: seq<string>)
    ensures forall k :: 0 <= k < |NonBlank(lines)| ==> !IsBlank(NonBlank(lines)[k])
    ensures NonBlank(lines) == [] <==> forall k :: 0 <= k < |lines| ==> IsBlank(lines[k])
  {
    if lines != [] {
      NonBlankIsFilter(lines[1..]);
      assert forall k :: 1 <= k < |lines| ==> lines[k] == lines[1..][k - 1];
    }
  }

  /**
   * Reference definition of what the extractor sees: every non-blank line of
   * the file, in order, paired with the length of the blank run after it.
   */
  function Runs(lines: seq<string>): seq<Run>
  {
    if lines == [] then []
    else if IsBlank(lines[0]) then Runs(lines[1..])
    else [Run(lines[0], LeadingBlanks(lines[1..]))] + Runs(lines[1..])
  }

  /** `k` copies of the break marker. */
  function Marks(k: nat): (s: string)
    ensures |s| == |BreakMarker| * k
  {
    if k == 0 then "" else Marks(k - 1) + BreakMarker
  }

  /** How a run appears on a page: its text, plus one marker per blank line when marking. */
  function Show(r: Run, mark: bool): string
  {
    r.text + (if mark then Marks(r.blanks) else "")
  }

  function Render(rs: seq<Run>, mark: bool): (page: seq<string>)
    ensures |page| == |rs|
  {
    seq(|rs|, j requires 0 <= j < |rs| => Show(rs[j], mark))
  }

  function Min(a: nat, b: nat): nat
  {
    if a <= b then a else b
  }

  /** The elements of `xs` at positions `start` .. `start + size - 1` that exist. */
  function Window<T>(xs: seq<T>, start: nat, size: nat): (w: seq<T>)
    ensures |w| <= size
  {
    xs[Min(start, |xs|)..Min(start + size, |xs|)]
  }

  /**
   * `start_line` of page `pageNumber`: the index of its first non-blank line.
   * The window of page `pageNumber` ends just before `pageNumber * pageSize`.
   */
  function StartLine(pageNumber: int, pageSize: int): (s: nat)
    requires pageNumber >= 1 && pageSize >= 1
    ensures s + pageSize == pageNumber * pageSize
  {
    MulNonNegative(pageNumber - 1, pageSize);
    (pageNumber - 1) * pageSize
  }

  lemma MulNonNegative(a: nat, b: nat)
    ensures a * b >= 0
  {
  }

  /**
   * Reference definition of the page the extractor returns: the runs of
   * page `pageNumber`'s window, each rendered as its text with, when marking,
   * one marker per blank line after it. It never holds more than `pageSize` lines.
   */
  function Page(lines: seq<string>, pageNumber: int, pageSize: int, mark: bool): (page: seq<string>)
    requires pageNumber >= 1 && pageSize >= 1
    ensures |page| <= pageSize
  {
    Render(Window(Runs(lines), StartLine(pageNumber, pageSize), pageSize), mark)
  }

  /** Adds one blank line to the last run, if there is one. */
  function Bump(rs: seq<Run>): (r: seq<Run>)
    ensures |r| == |rs|
  {
    if rs == [] then []
    else rs[..|rs| - 1] + [Run(rs[|rs| - 1].text, rs[|rs| - 1].blanks + 1)]
  }

  /** A page with its last line extended by one marker. */
  function MarkLast(page: seq<string>): seq<string>
    requires page != []
  {
    page[|page| - 1 := page[|page| - 1] + BreakMarker]
  }

  // ---------------------------------------------------------------------
  // Facts about Runs

  lemma {:induction false} RunsMatchNonBlank(lines: seq<string>)
    ensures |Runs(lines)| == |NonBlank(lines)|
    ensures forall j :: 0 <= j < |Runs(lines)| ==> Runs(lines)[j].text == NonBlank(lines)[j]
  {
    if lines != [] {
      RunsMatchNonBlank(lines[1..]);
    }
  }

  lemma {:induction false} RunsEmptyWhenAllBlank(lines: seq<string>)
    ensures Runs(lines) == [] <==> LeadingBlanks(lines) == |lines|
  {
    if lines != [] {
      RunsEmptyWhenAllBlank(lines[1..]);
    }
  }

  /** A non-blank line after `lines` ends the blank run at their front. */
  lemma {:induction false} LeadingBlanksAppend(lines: seq<string>, more: seq<string>)
    requires more == [] || !IsBlank(more[0])
    ensures LeadingBlanks(lines + more) == LeadingBlanks(lines)
  {
    if lines == [] {
      assert lines + more == more;
    } else {
      assert (lines + more)[1..] == lines[1..] + more;
      LeadingBlanksAppend(lines[1..], more);
    }
  }

  lemma {:induction false} LeadingBlanksAppendBlank(lines: seq<string>, b: string)
    requires IsBlank(b)
    ensures LeadingBlanks(lines + [b]) ==
            if LeadingBlanks(lines) == |lines| then |lines| + 1 else LeadingBlanks(lines)
  {
    if lines == [] {
      assert lines + [b] == [b];
      assert [b][1..] == [];
    } else {
      assert (lines + [b])[1..] == lines[1..] + [b];
      LeadingBlanksAppendBlank(lines[1..], b);
    }
  }

  /** Runs split where the second part starts with a non-blank line. */
  lemma {:induction false} RunsAppend(lines: seq<string>, more: seq<string>)
    requires more == [] || !IsBlank(more[0])
    ensures Runs(lines + more) == Runs(lines) + Runs(more)
  {
    if lines == [] {
      assert lines + more == more;
    } else {
      assert (lines + more)[0] == lines[0];
      assert (lines + more)[1..] == lines[1..] + more;
      RunsAppend(lines[1..], more);
      if !IsBlank(lines[0]) {
        LeadingBlanksAppend(lines[1..], more);
      }
    }
  }

  /** Reading one more line: a blank line lengthens the last run, a non-blank line opens a run. */
  lemma {:induction false} RunsSnoc(lines: seq<string>, l: string)
    ensures Runs(lines + [l]) ==
            if IsBlank(l) then Bump(Runs(lines)) else Runs(lines) + [Run(l, 0)]
  {
    if !IsBlank(l) {
      RunsAppend(lines, [l]);
      assert Runs([l]) == [Run(l, LeadingBlanks([]))];
    } else if lines == [] {
      assert lines + [l] == [l];
    } else {
      var t := lines[1..];
      assert (lines + [l])[0] == lines[0];
      assert (lines + [l])[1..] == t + [l];
      RunsSnoc(t, l);
      if !IsBlank(lines[0]) {
        LeadingBlanksAppendBlank(t, l);
        RunsEmptyWhenAllBlank(t);
        var rest := Runs(t);
        if rest != [] {
          assert Bump([Run(lines[0], LeadingBlanks(t))] + rest) ==
                 [Run(lines[0], LeadingBlanks(t))] + Bump(rest);
        }
      }
    }
  }

  // ---------------------------------------------------------------------
  // How one step of the scan changes the rendered window

  lemma WindowOfPrefix<T>(xs: seq<T>, ys: seq<T>, start: nat, size: nat)
    requires start + size <= |xs|
    ensures Window(xs + ys, start, size) == Window(xs, start, size)
  {
    assert (xs + ys)[start..start + size] == xs[start..start + size];
  }

  lemma WindowPush(rs: seq<Run>, x: Run, start: nat, size: nat, mark: bool)
    requires |rs| < start + size
    ensures Render(Window(rs + [x], start, size), mark) ==
            if start <= |rs| then Render(Window(rs, start, size), mark) + [Show(x, mark)]
            else Render(Window(rs, start, size), mark)
  {
    if start <= |rs| {
      assert Window(rs + [x], start, size) == Window(rs, start, size) + [x];
    } else {
      assert Window(rs + [x], start, size) == [] == Window(rs, start, size);
    }
  }

  lemma WindowBump(rs: seq<Run>, start: nat, size: nat, mark: bool)
    requires |rs| <= start + size
    ensures var w := Render(Window(rs, start, size), mark);
            Render(Window(Bump(rs), start, size), mark) ==
            if mark && w != [] then MarkLast(w) else w
  {
    if |rs| <= start {
      assert Window(rs, start, size) == [] == Window(Bump(rs), start, size);
    } else {
      var n := |rs| - 1;
      var init := rs[start..n];
      var last := Run(rs[n].text, rs[n].blanks + 1);
      assert Window(rs, start, size) == init + [rs[n]];
      assert Window(Bump(rs), start, size) == init + [last];
      assert Show(last, mark) == Show(rs[n], mark) + (if mark then BreakMarker else "");
      RenderSnoc(init, rs[n], mark);
      RenderSnoc(init, last, mark);
    }
  }

  lemma RenderSnoc(rs: seq<Run>, x: Run, mark: bool)
    ensures Render(rs + [x], mark) == Render(rs, mark) + [Show(x, mark)]
  {
    assert forall j :: 0 <= j < |rs| ==> (rs + [x])[j] == rs[j];
  }

  lemma WindowBumpPast(rs: seq<Run>, start: nat, size: nat)
    requires |rs| > start + size
    ensures Window(Bump(rs), start, size) == Window(rs, start, size)
  {
    assert Bump(rs)[start..start + size] == rs[start..start + size];
  }

  /** Reading a blank line `lines[i]` before the scan has stopped. */
  lemma BlankStep(lines: seq<string>, i: nat, start: nat, size: nat, mark: bool)
    requires i < |lines| && IsBlank(lines[i]) && |Runs(lines[..i])| <= start + size
    ensures |Runs(lines[..i + 1])| == |Runs(lines[..i])|
    ensures var w := Render(Window(Runs(lines[..i]), start, size), mark);
            Render(Window(Runs(lines[..i + 1]), start, size), mark) ==
            if mark && w != [] then MarkLast(w) else w
  {
    assert lines[..i + 1] == lines[..i] + [lines[i]];
    RunsSnoc(lines[..i], lines[i]);
    WindowBump(Runs(lines[..i]), start, size, mark);
  }

  /** Reading a non-blank line `lines[i]` whose index is at most the window's last one. */
  lemma NonBlankStep(lines: seq<string>, i: nat, start: nat, size: nat, mark: bool)
    requires i < |lines| && !IsBlank(lines[i]) && |Runs(lines[..i])| < start + size
    ensures |Runs(lines[..i + 1])| == |Runs(lines[..i])| + 1
    ensures var w := Render(Window(Runs(lines[..i]), start, size), mark);
            Render(Window(Runs(lines[..i + 1]), start, size), mark) ==
            if start <= |Runs(lines[..i])| then w + [lines[i]] else w
  {
    assert lines[..i + 1] == lines[..i] + [lines[i]];
    RunsSnoc(lines[..i], lines[i]);
    assert Show(Run(lines[i], 0), mark) == lines[i];
    WindowPush(Runs(lines[..i]), Run(lines[i], 0), start, size, mark);
  }

  /** Reaching the first non-blank line past the window: nothing after it matters. */
  lemma StopStep(lines: seq<string>, i: nat, start: nat, size: nat, mark: bool)
    requires i < |lines| && !IsBlank(lines[i]) && |Runs(lines[..i])| == start + size
    ensures Render(Window(Runs(lines), start, size), mark) ==
            Render(Window(Runs(lines[..i]), start, size), mark)
    ensures |NonBlank(lines[..i + 1])| == start + size + 1
  {
    assert lines == lines[..i] + lines[i..];
    RunsAppend(lines[..i], lines[i..]);
    WindowOfPrefix(Runs(lines[..i]), Runs(lines[i..]), start, size);
    assert lines[..i + 1] == lines[..i] + [lines[i]];
    RunsSnoc(lines[..i], lines[i]);
    RunsMatchNonBlank(lines[..i + 1]);
  }

  // ---------------------------------------------------------------------
  // The extractor

  /**
   * The scan inside `with open(...)` of `read_file_by_page`: walks the lines,
   * counting non-blank lines in `currentLine`, collecting those whose index is
   * in `startLine .. startLine + pageSize - 1`, marking blank lines on the last
   * collected line, and stopping at the first non-blank line past the window.
   */
  method ScanPage(lines: seq<string>, startLine: nat, pageSize: nat, markLineBreak: bool)
    returns (result: seq<string>, stop: nat)
    requires pageSize >= 1
    ensures result == Render(Window(Runs(lines), startLine, pageSize), markLineBreak)
    ensures stop <= |lines|
    ensures stop < |lines| ==> !IsBlank(lines[stop]) && |NonBlank(lines[..stop])| == startLine + pageSize
    ensures stop == |lines| ==> |NonBlank(lines)| <= startLine + pageSize
  {
    var endLine := startLine + pageSize - 1;
    var currentLine := 0;
    result := [];
    var i := 0;
    while i < |lines|
      invariant 0 <= i <= |lines|
      invariant currentLine == |Runs(lines[..i])| <= endLine + 1
      invariant result == Render(Window(Runs(lines[..i]), startLine, pageSize), markLineBreak)
    {
      var line := lines[i];
      if Strip(line) == [] {
        BlankStep(lines, i, startLine, pageSize, markLineBreak);
        if markLineBreak && |result| != 0 {
          result := result[|result| - 1 := result[|result| - 1] + BreakMarker];
        }
        i := i + 1;
        continue;
      }
      if startLine <= currentLine <= endLine {
        result := result + [line];
      }
      if currentLine > endLine {
        StopStep(lines, i, startLine, pageSize, markLineBreak);
        break;
      }
      NonBlankStep(lines, i, startLine, pageSize, markLineBreak);
      currentLine := currentLine + 1;
      i := i + 1;
    }
    stop := i;
    RunsMatchNonBlank(lines[..i]);
    if i == |lines| {
      assert lines[..i] == lines;
    }
  }

  /** `read_file_by_page` with the mark flag as a parameter. */
  method ReadFileByPage(pageNumber: int, pageSize: int, filePath: string, source: Source, markLineBreak: bool)
    returns (r: Result<seq<string>>)
    ensures pageNumber < 1 || pageSize < 1 ==> r == Err(InvalidPage)
    ensures pageNumber >= 1 && pageSize >= 1 && IsBlank(filePath) ==> r == Err(BlankPath)
    ensures pageNumber >= 1 && pageSize >= 1 && !IsBlank(filePath) ==>
      match source
      case Missing => r == Err(FileNotFound(filePath))
      case Unreadable(cause) => r == Err(ReadFailed(cause))
      case Lines(lines) => r == Ok(Page(lines, pageNumber, pageSize, markLineBreak))
  {
    if pageNumber < 1 || pageSize < 1 {
      return Err(InvalidPage);
    }
    if Strip(filePath) == [] {
      return Err(BlankPath);
    }
    match source {
      case Missing =>
        return Err(FileNotFound(filePath));
      case Unreadable(cause) =>
        return Err(ReadFailed(cause));
      case Lines(lines) =>
        var startLine := StartLine(pageNumber, pageSize);
        var result, _ := ScanPage(lines, startLine, pageSize, markLineBreak);
        return Ok(result);
    }
  }
}
