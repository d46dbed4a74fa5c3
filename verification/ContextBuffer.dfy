/** Output limited to lines near a change. A ring of line buffers holds back
    common lines until it is known whether a change follows closely enough. */
module ContextBuffer {

  datatype Line = Line(text: string, changed: bool)

  const SEPARATOR: string := "--\n"

  // ----- what has to be shown, decided with all lines at hand

  /** Line `k` is within `n` lines of a changed one. */
  ghost predicate Near(lines: seq<Line>, n: nat, k: int) {
    exists c :: 0 <= c < |lines| && lines[c].changed && k - n <= c <= k + n
  }

  /** Something before line `k` is shown. */
  ghost predicate ShownBefore(lines: seq<Line>, n: nat, k: int) {
    exists j :: 0 <= j < k && Near(lines, n, j)
  }

  /** What line `k` contributes: its text if it is near a change, after a
      separator if lines were dropped since the last line shown. */
  ghost function Piece(lines: seq<Line>, n: nat, k: int): string
    requires 0 <= k < |lines|
  {
    if !Near(lines, n, k) then ""
    else (if ShownBefore(lines, n, k) && !Near(lines, n, k - 1) then SEPARATOR else "") + lines[k].text
  }

  ghost function Shown(lines: seq<Line>, n: nat, k: int): string
    requires 0 <= k <= |lines|
  {
    if k == 0 then "" else Shown(lines, n, k - 1) + Piece(lines, n, k - 1)
  }

  /** The whole output. */
  ghost function Filtered(lines: seq<Line>, n: nat): string {
    Shown(lines, n, |lines|)
  }

  // ----- the current line is the last one

  ghost predicate LastChange(lines: seq<Line>, c: int) {
    && -1 <= c < |lines| && (c >= 0 ==> lines[c].changed)
    && forall k :: c < k < |lines| ==> !lines[k].changed
  }

  lemma NearLast(lines: seq<Line>, n: nat, c: int, k: int)
    requires LastChange(lines, c) && k > c
    ensures Near(lines, n, k) <==> c >= 0 && k - c <= n
  {}

  lemma NearChange(lines: seq<Line>, n: nat, c: int, k: int)
    requires 0 <= c < |lines| && lines[c].changed && c - n <= k <= c + n
    ensures Near(lines, n, k)
  {}

  ghost function Put(lines: seq<Line>, s: string): (r: seq<Line>)
    requires lines != []
    ensures |r| == |lines| && forall k :: 0 <= k < |lines| ==> r[k].changed == lines[k].changed
  {
    var m := |lines| - 1;
    lines[..m] + [Line(lines[m].text + s, lines[m].changed)]
  }

  ghost function Mark(lines: seq<Line>): (r: seq<Line>)
    requires lines != []
    ensures |r| == |lines|
  {
    var m := |lines| - 1;
    lines[..m] + [Line(lines[m].text, true)]
  }

  /** Lines with the same marks are near to the same changes. */
  lemma NearSame(lines: seq<Line>, other: seq<Line>, n: nat, k: int)
    requires |lines| == |other| && forall j :: 0 <= j < |lines| ==> lines[j].changed == other[j].changed
    ensures Near(lines, n, k) == Near(other, n, k)
    ensures ShownBefore(lines, n, k) == ShownBefore(other, n, k)
  {
    forall j ensures Near(lines, n, j) == Near(other, n, j) {
      if Near(lines, n, j) {
        var c :| 0 <= c < |lines| && lines[c].changed && j - n <= c <= j + n;
        assert other[c].changed;
      }
      if Near(other, n, j) {
        var c :| 0 <= c < |lines| && other[c].changed && j - n <= c <= j + n;
        assert lines[c].changed;
      }
    }
  }

  lemma {:induction false} ShownSame(lines: seq<Line>, other: seq<Line>, n: nat, k: int)
    requires |lines| == |other| && 0 <= k <= |lines| && lines[..k] == other[..k]
    requires forall j :: 0 <= j < |lines| ==> lines[j].changed == other[j].changed
    ensures Shown(lines, n, k) == Shown(other, n, k)
    decreases k
  {
    if k > 0 {
      assert lines[..k - 1] == lines[..k][..k - 1] && lines[k - 1] == lines[..k][k - 1] == other[k - 1];
      ShownSame(lines, other, n, k - 1);
      NearSame(lines, other, n, k - 1);
      NearSame(lines, other, n, k - 2);
    }
  }

  lemma Longer(before: string, sep: string, text: string, s: string)
    ensures before + (sep + (text + s)) == before + (sep + text) + s
  {
    assert sep + (text + s) == (sep + text) + s;
  }

  /** Text added to the current line shows exactly if the line is near a change. */
  lemma PutShows(lines: seq<Line>, n: nat, s: string)
    requires lines != []
    ensures Filtered(Put(lines, s), n) == Filtered(lines, n) + if Near(lines, n, |lines| - 1) then s else ""
  {
    hide Near, ShownBefore;
    var m := |lines| - 1;
    var other := Put(lines, s);
    assert other[..m] == lines[..m] && other[m].text == lines[m].text + s;
    hide Put;
    ShownSame(lines, other, n, m);
    NearSame(lines, other, n, m);
    NearSame(lines, other, n, m - 1);
    if Near(lines, n, m) {
      var sep := if ShownBefore(lines, n, m) && !Near(lines, n, m - 1) then SEPARATOR else "";
      var before := Shown(lines, n, m);
      Longer(before, sep, lines[m].text, s);
    }
  }

  /** A fresh line shows nothing yet. */
  lemma NewLineShows(lines: seq<Line>, n: nat, c: int)
    requires LastChange(lines, c)
    ensures LastChange(lines + [Line("", false)], c)
    ensures Filtered(lines + [Line("", false)], n) == Filtered(lines, n)
  {
    var other := lines + [Line("", false)];
    ExtendShown(lines, n, |lines|);
    NearLast(other, n, c, |lines|);
    if Near(other, n, |lines|) {
      NearChange(other, n, c, |lines| - 1);
    }
  }

  lemma ExtendNear(lines: seq<Line>, n: nat, k: int)
    ensures Near(lines + [Line("", false)], n, k) == Near(lines, n, k)
    ensures ShownBefore(lines + [Line("", false)], n, k) == ShownBefore(lines, n, k)
  {
    var other := lines + [Line("", false)];
    forall j ensures Near(other, n, j) == Near(lines, n, j) {
      if Near(lines, n, j) {
        var c :| 0 <= c < |lines| && lines[c].changed && j - n <= c <= j + n;
        assert other[c].changed;
      }
    }
  }

  lemma {:induction false} ExtendShown(lines: seq<Line>, n: nat, k: int)
    requires 0 <= k <= |lines|
    ensures Shown(lines + [Line("", false)], n, k) == Shown(lines, n, k)
    decreases k
  {
    if k > 0 {
      ExtendShown(lines, n, k - 1);
      ExtendNear(lines, n, k - 1);
      ExtendNear(lines, n, k - 2);
    }
  }

  /** The texts of lines lo up to hi. */
  ghost function Texts(lines: seq<Line>, lo: int, hi: int): string
    requires 0 <= lo <= hi <= |lines|
    decreases hi
  {
    if lo == hi then "" else Texts(lines, lo, hi - 1) + lines[hi - 1].text
  }

  /** First line that the change on the current line brings out. */
  ghost function From(c: int, m: int, n: nat): int {
    var first := if c < 0 then 0 else c + n + 1;
    if m - n > first then m - n else first
  }

  lemma MarkNear(lines: seq<Line>, n: nat, k: int)
    requires lines != []
    ensures Near(Mark(lines), n, k) <==> Near(lines, n, k) || |lines| - 1 - n <= k <= |lines| - 1 + n
  {
    var m := |lines| - 1;
    var other := Mark(lines);
    assert other[m].changed;
    if Near(lines, n, k) {
      var c :| 0 <= c < |lines| && lines[c].changed && k - n <= c <= k + n;
      assert other[c].changed;
    }
    if Near(other, n, k) && !(m - n <= k <= m + n) {
      var c :| 0 <= c < |other| && other[c].changed && k - n <= c <= k + n;
      assert c < m && lines[c].changed;
    }
  }

  lemma MarkShownBefore(lines: seq<Line>, n: nat, k: int)
    requires lines != []
    requires forall j :: 0 <= j < k ==> Near(Mark(lines), n, j) == Near(lines, n, j)
    ensures ShownBefore(Mark(lines), n, k) == ShownBefore(lines, n, k)
  {
    hide Near;
    var other := Mark(lines);
    if ShownBefore(lines, n, k) {
      var j :| 0 <= j < k && Near(lines, n, j);
      assert Near(other, n, j);
    }
    if ShownBefore(other, n, k) {
      var j :| 0 <= j < k && Near(other, n, j);
      assert Near(lines, n, j);
    }
  }

  /** Lines that are near a change with or without the new mark show as before. */
  lemma {:induction false} MarkKeeps(lines: seq<Line>, n: nat, k: int)
    requires lines != [] && 0 <= k <= |lines|
    requires forall j :: 0 <= j < k ==> Near(Mark(lines), n, j) == Near(lines, n, j)
    ensures Shown(Mark(lines), n, k) == Shown(lines, n, k)
    decreases k
  {
    if k > 0 {
      MarkKeeps(lines, n, k - 1);
      MarkShownBefore(lines, n, k - 1);
      assert Mark(lines)[k - 1].text == lines[k - 1].text;
      hide Near, ShownBefore, Mark;
      assert Near(Mark(lines), n, k - 1) == Near(lines, n, k - 1);
      if k > 1 {
        assert Near(Mark(lines), n, k - 2) == Near(lines, n, k - 2);
      } else {
        NoneBefore(lines, n);
        NoneBefore(Mark(lines), n);
      }
    }
  }

  lemma NoneBefore(lines: seq<Line>, n: nat)
    ensures !ShownBefore(lines, n, 0)
  {}

  lemma FarLine(lines: seq<Line>, n: nat, k: int)
    requires 0 <= k < |lines| && !Near(lines, n, k)
    ensures Shown(lines, n, k + 1) == Shown(lines, n, k)
  {}

  /** Lines after the last shown one contribute nothing. */
  lemma {:induction false} NothingShown(lines: seq<Line>, n: nat, c: int, k: int)
    requires LastChange(lines, c) && 0 <= k <= |lines| && (c >= 0 ==> c + n + 1 <= k)
    ensures Shown(lines, n, k) == Shown(lines, n, if c < 0 then 0 else c + n + 1)
    decreases k
  {
    hide Near, ShownBefore, Shown;
    var first := if c < 0 then 0 else c + n + 1;
    if k > first {
      NothingShown(lines, n, c, k - 1);
      NearLast(lines, n, c, k - 1);
      FarLine(lines, n, k - 1);
    }
  }

  /** A change on a line that is shown already. */
  lemma MarkShownLine(lines: seq<Line>, n: nat, c: int)
    requires LastChange(lines, c) && 0 <= c && |lines| - 1 - c <= n
    ensures LastChange(Mark(lines), |lines| - 1)
    ensures Filtered(Mark(lines), n) == Filtered(lines, n)
  {
    forall j | 0 <= j < |lines| ensures Near(Mark(lines), n, j) == Near(lines, n, j) {
      MarkNear(lines, n, j);
      if j >= |lines| - 1 - n {
        NearChange(lines, n, c, j);
      }
    }
    MarkKeeps(lines, n, |lines|);
  }

  ghost predicate Dropped(c: int, m: int, n: nat) {
    c >= 0 && m - n > c + n + 1
  }

  lemma MarkFarSame(lines: seq<Line>, n: nat, c: int, j: int)
    requires lines != [] && LastChange(lines, c) && (c >= 0 ==> c + n + 1 <= |lines| - 1)
    requires j < From(c, |lines| - 1, n) && 0 <= j
    ensures Near(Mark(lines), n, j) == Near(lines, n, j)
  {
    hide Near, Mark;
    MarkNear(lines, n, j);
    if j >= |lines| - 1 - n {
      NearChange(lines, n, c, j);
    }
  }

  /** The lines before the first one brought out show as before. */
  lemma MarkFar(lines: seq<Line>, n: nat, c: int)
    requires lines != [] && LastChange(lines, c) && (c >= 0 ==> c + n + 1 <= |lines| - 1)
    ensures var lo := From(c, |lines| - 1, n);
            && 0 <= lo < |lines| && Shown(Mark(lines), n, lo) == Filtered(lines, n)
            && ShownBefore(Mark(lines), n, lo) == ShownBefore(lines, n, lo)
  {
    hide Near, Mark, Shown, ShownBefore;
    var lo := From(c, |lines| - 1, n);
    forall j | 0 <= j < lo ensures Near(Mark(lines), n, j) == Near(lines, n, j) {
      MarkFarSame(lines, n, c, j);
    }
    MarkKeeps(lines, n, lo);
    MarkShownBefore(lines, n, lo);
    NothingShown(lines, n, c, lo);
    NothingShown(lines, n, c, |lines|);
  }

  /** A separator comes before the lines brought out if others were dropped. */
  lemma MarkSeparator(lines: seq<Line>, n: nat, c: int)
    requires lines != [] && LastChange(lines, c) && (c >= 0 ==> c + n + 1 <= |lines| - 1)
    ensures var lo := From(c, |lines| - 1, n);
            ShownBefore(Mark(lines), n, lo) && !Near(Mark(lines), n, lo - 1) <==> Dropped(c, |lines| - 1, n)
  {
    hide Near, Mark, Shown;
    var lo := From(c, |lines| - 1, n);
    MarkFar(lines, n, c);
    MarkNear(lines, n, lo - 1);
    if c >= 0 {
      NearChange(lines, n, c, c);
      if lo - 1 > c { NearLast(lines, n, c, lo - 1); }
    } else if ShownBefore(lines, n, lo) {
      var j :| 0 <= j < lo && Near(lines, n, j);
      NearLast(lines, n, c, j);
      assert false;
    }
  }

  ghost function Separator(c: int, m: int, n: nat): string {
    if Dropped(c, m, n) then SEPARATOR else ""
  }

  lemma {:induction false} MarkTail(lines: seq<Line>, n: nat, c: int, k: int)
    requires lines != [] && LastChange(lines, c) && (c >= 0 ==> c + n + 1 <= |lines| - 1)
    requires From(c, |lines| - 1, n) < k <= |lines|
    ensures 0 <= From(c, |lines| - 1, n)
    ensures Shown(Mark(lines), n, k)
         == Filtered(lines, n) + Separator(c, |lines| - 1, n) + Texts(lines, From(c, |lines| - 1, n), k)
    decreases k
  {
    hide Near, ShownBefore, Dropped, Mark, Filtered, Piece, LastChange;
    var m := |lines| - 1;
    var lo := From(c, m, n);
    MarkFar(lines, n, c);
    MarkPiece(lines, n, c, k - 1);
    var out, sep, e := Filtered(lines, n), Separator(c, m, n), lines[k - 1].text;
    if k == lo + 1 {
      assert Texts(lines, lo, k) == "" + e;
      Regroup(out, sep, "", e);
    } else {
      MarkTail(lines, n, c, k - 1);
      Regroup(out, sep, Texts(lines, lo, k - 1), e);
    }
  }

  lemma Regroup(out: string, sep: string, t: string, e: string)
    ensures out + sep + t + e == out + sep + (t + e)
    ensures out + (sep + e) == out + sep + ("" + e)
  {}

  /** Each line brought out contributes its text, the first one after the separator. */
  lemma MarkPiece(lines: seq<Line>, n: nat, c: int, k: int)
    requires lines != [] && LastChange(lines, c) && (c >= 0 ==> c + n + 1 <= |lines| - 1)
    requires From(c, |lines| - 1, n) <= k < |lines| && 0 <= k
    ensures Piece(Mark(lines), n, k)
         == if k == From(c, |lines| - 1, n) then Separator(c, |lines| - 1, n) + lines[k].text else lines[k].text
  {
    hide Near, ShownBefore, Dropped, LastChange;
    assert Mark(lines)[k].text == lines[k].text;
    hide Mark;
    MarkNear(lines, n, k);
    MarkNear(lines, n, k - 1);
    MarkSeparator(lines, n, c);
    assert "" + lines[k].text == lines[k].text;
  }

  /** A change on a line held back brings out up to `n` lines before it. */
  lemma MarkHeldLine(lines: seq<Line>, n: nat, c: int)
    requires lines != [] && LastChange(lines, c) && (c >= 0 ==> c + n + 1 <= |lines| - 1)
    ensures LastChange(Mark(lines), |lines| - 1) && 0 <= From(c, |lines| - 1, n)
    ensures Filtered(Mark(lines), n)
         == Filtered(lines, n) + Separator(c, |lines| - 1, n) + Texts(lines, From(c, |lines| - 1, n), |lines|)
  {
    MarkTail(lines, n, c, |lines|);
  }

  // ----- the buffers

  datatype PrintState =
    | PrintingChanged
    | PrintingAfterContext
    | PreBuffering
    | Buffering
    | PreBufferingInitial
    | BufferingInitial

  /** The first `b + 1` buffers hold the latest lines, oldest first. */
  ghost predicate Head(buffers: seq<string>, lines: seq<Line>, b: int) {
    && 0 <= b < |buffers| && b < |lines|
    && forall k :: 0 <= k <= b ==> buffers[k] == lines[|lines| - 1 - b + k].text
  }

  /** The buffers after `b` hold the lines before those. */
  ghost predicate Wrapped(buffers: seq<string>, lines: seq<Line>, b: int) {
    && 0 <= b < |buffers| <= |lines|
    && forall k :: b < k < |buffers| ==> buffers[k] == lines[|lines| - 1 - b + k - |buffers|].text
  }

  ghost predicate Ring(buffers: seq<string>, lines: seq<Line>, b: int) {
    Head(buffers, lines, b) && Wrapped(buffers, lines, b)
  }

  lemma NothingYet(n: nat)
    ensures LastChange([Line("", false)], -1) && Filtered([Line("", false)], n) == ""
  {
    var lines := [Line("", false)];
    NearLast(lines, n, -1, 0);
    assert Shown(lines, n, 1) == Shown(lines, n, 0) + Piece(lines, n, 0);
  }

  class ContextOutput {
    const contextLines: nat
    var state: PrintState
    var bufferIndex: int
    var afterContextLines: int
    const contextBuffers: array<string>
    var output: string
    // All lines so far, the current one last, and the last changed one.
    ghost var lines: seq<Line>
    ghost var last: int

    ghost predicate Holding()
      reads this
    {
      state != PrintingChanged && state != PrintingAfterContext
    }

    ghost predicate Valid()
      reads this, contextBuffers
    {
      var n, m := contextLines, |lines| - 1;
      && contextBuffers.Length == n + 1 && lines != [] && LastChange(lines, last)
      && output == Filtered(lines, n)
      && 0 <= bufferIndex <= n
      && match state
         case PrintingChanged => last == m
         case PrintingAfterContext => last >= 0 && afterContextLines >= 0 && m - last == afterContextLines + 1 <= n
         case PreBuffering =>
           last >= 0 && m - bufferIndex == last + n + 1 && Head(contextBuffers[..], lines, bufferIndex)
         case PreBufferingInitial => last < 0 && m == bufferIndex && Head(contextBuffers[..], lines, bufferIndex)
         case Buffering => last >= 0 && m - n > last + n + 1 && Ring(contextBuffers[..], lines, bufferIndex)
         case BufferingInitial => last < 0 && m > n && Ring(contextBuffers[..], lines, bufferIndex)
    }

    constructor (contextLines: nat)
      ensures Valid() && fresh(contextBuffers) && this.contextLines == contextLines
      ensures lines == [Line("", false)] && output == ""
    {
      this.contextLines := contextLines;
      contextBuffers := new string[contextLines + 1](_ => "");
      state, bufferIndex, afterContextLines, output := PreBufferingInitial, 0, 0, "";
      lines, last := [Line("", false)], -1;
      NothingYet(contextLines);
    }

    /** Writes buffers i up to j. */
    method WriteBuffers(i: int, j: int, ghost lo: int)
      requires 0 <= i <= j <= contextBuffers.Length && 0 <= lo && lo + (j - i) <= |lines|
      requires forall k :: i <= k < j ==> contextBuffers[k] == lines[lo + (k - i)].text
      modifies this`output
      ensures output == old(output) + Texts(lines, lo, lo + (j - i))
    {
      for k := i to j
        invariant output == old(output) + Texts(lines, lo, lo + (k - i))
      {
        output := output + contextBuffers[k];
      }
    }

    /** Writes out the lines held back. */
    method Release()
      requires Valid() && Holding()
      modifies this`output
      ensures output == Filtered(Mark(lines), contextLines)
    {
      hide Near, ShownBefore, Shown, Mark, LastChange, Filtered, Texts;
      var n := contextLines;
      ghost var m := |lines| - 1;
      ghost var lo := From(last, m, n);
      MarkHeldLine(lines, n, last);
      assert forall k :: 0 <= k <= bufferIndex ==> contextBuffers[k] == contextBuffers[..][k];
      if state == Buffering {
        output := output + SEPARATOR;
      }
      ghost var before := output;
      if state == Buffering || state == BufferingInitial {
        forall k | bufferIndex < k <= n ensures contextBuffers[k] == lines[lo + (k - (bufferIndex + 1))].text {
          assert contextBuffers[k] == contextBuffers[..][k];
        }
        WriteBuffers(bufferIndex + 1, n + 1, lo);
        TextsSplit(lines, lo, m - bufferIndex, |lines|);
      } else {
        assert lo == m - bufferIndex;
      }
      WriteBuffers(0, bufferIndex + 1, m - bufferIndex);
    }

    /** Writes a string that does not end the line. */
    method WriteString(text: string)
      requires Valid()
      modifies this, contextBuffers
      ensures Valid() && lines == Put(old(lines), text)
      ensures state == old(state) && bufferIndex == old(bufferIndex) && last == old(last)
      ensures afterContextLines == old(afterContextLines)
    {
      hide Near, ShownBefore, Shown, Filtered, Wrapped, Put, LastChange, Head;
      PutShows(lines, contextLines, text);
      PutLast(lines, last, text);
      ghost var buffers := contextBuffers[..];
      match state {
        case Buffering | PreBuffering | BufferingInitial | PreBufferingInitial =>
          NearLast(lines, contextLines, last, |lines| - 1);
          PutRing(buffers, lines, bufferIndex, text);
          contextBuffers[bufferIndex] := contextBuffers[bufferIndex] + text;
          assert contextBuffers[..] == buffers[bufferIndex := buffers[bufferIndex] + text];
        case PrintingAfterContext | PrintingChanged =>
          NearChange(lines, contextLines, last, |lines| - 1);
          output := output + text;
      }
      lines := Put(lines, text);
    }

    /** Moves to the next line. */
    method EndLine()
      requires Valid()
      modifies this, contextBuffers
      ensures Valid() && lines == old(lines) + [Line("", false)]
    {
      hide Near, ShownBefore, Shown, Filtered, LastChange, Head, Wrapped;
      NewLineShows(lines, contextLines, last);
      FirstHead(contextBuffers[..], lines);
      ghost var buffers := contextBuffers[..];
      ghost var b := bufferIndex;
      match state {
        case PrintingChanged =>
          if contextLines == 0 {
            state := PreBuffering;
          } else {
            state := PrintingAfterContext;
            afterContextLines := 0;
          }
        case PrintingAfterContext =>
          afterContextLines := afterContextLines + 1;
          if afterContextLines == contextLines {
            state := PreBuffering;
            bufferIndex := 0;
          }
        case PreBufferingInitial | PreBuffering =>
          NextRing(buffers, lines, b);
          bufferIndex := bufferIndex + 1;
          if bufferIndex > contextLines {
            state := if state == PreBuffering then Buffering else BufferingInitial;
            bufferIndex := 0;
          }
        case BufferingInitial | Buffering =>
          NextRing(buffers, lines, b);
          bufferIndex := bufferIndex + 1;
          if bufferIndex > contextLines {
            bufferIndex := 0;
          }
      }
      contextBuffers[bufferIndex] := "";
      assert contextBuffers[..] == buffers[bufferIndex := ""];
      lines := lines + [Line("", false)];
    }

    /** A change on the current line: what was held back for it is written. */
    method ShowChange()
      requires Valid()
      modifies this
      ensures Valid() && lines == Mark(old(lines))
    {
      hide Near, ShownBefore, Shown, Filtered, Mark, Head, Wrapped, From, Separator, Texts;
      match state {
        case PrintingChanged | PrintingAfterContext =>
          MarkShownLine(lines, contextLines, last);
        case _ =>
          Release();
          MarkHeldLine(lines, contextLines, last);
      }
      state := PrintingChanged;
      lines, last := Mark(lines), |lines| - 1;
    }

    /** Writes one character; `common` if it belongs to both files. */
    method AddChar(c: char, common: bool)
      requires Valid()
      modifies this, contextBuffers
      ensures Valid() && lines == Added(old(lines), Char(c, common))
    {
      hide Valid, Near, ShownBefore, Shown, Filtered, Mark, Put;
      assert lines != [] by { ValidLines(); }
      if !common {
        ShowChange();
      }
      WriteString([c]);
      if c == '\n' {
        EndLine();
      }
    }

    lemma ValidLines()
      requires Valid()
      ensures lines != []
    {}
  }

  datatype Call = Char(c: char, common: bool) | Text(s: string)

  /** The lines after one more call. */
  ghost function Added(lines: seq<Line>, call: Call): (r: seq<Line>)
    requires lines != []
    ensures r != []
  {
    match call
    case Text(s) => Put(lines, s)
    case Char(c, common) =>
      var r := Put(if common then lines else Mark(lines), [c]);
      if c == '\n' then r + [Line("", false)] else r
  }

  ghost function LinesOf(calls: seq<Call>): (r: seq<Line>)
    ensures r != []
  {
    if calls == [] then [Line("", false)] else Added(LinesOf(calls[..|calls| - 1]), calls[|calls| - 1])
  }

  /** For every sequence of calls, the output is the filtered lines. */
  method Print(calls: seq<Call>, contextLines: nat) returns (output: string)
    ensures output == Filtered(LinesOf(calls), contextLines)
  {
    hide Filtered, Added;
    var out := new ContextOutput(contextLines);
    for k := 0 to |calls|
      invariant out.Valid() && fresh(out) && fresh(out.contextBuffers) && out.contextLines == contextLines
      invariant out.lines == LinesOf(calls[..k])
    {
      assert calls[..k + 1][..k] == calls[..k];
      AddedText(out.lines);
      match calls[k] {
        case Char(c, common) => out.AddChar(c, common);
        case Text(s) => out.WriteString(s);
      }
    }
    assert calls[..|calls|] == calls;
    output := out.output;
  }

  lemma AddedText(lines: seq<Line>)
    requires lines != []
    ensures forall s :: Added(lines, Text(s)) == Put(lines, s)
  {}

  lemma PutLast(lines: seq<Line>, c: int, s: string)
    requires lines != [] && LastChange(lines, c)
    ensures LastChange(Put(lines, s), c)
  {}

  lemma PutRing(buffers: seq<string>, lines: seq<Line>, b: int, s: string)
    requires lines != [] && Head(buffers, lines, b)
    ensures Head(buffers[b := buffers[b] + s], Put(lines, s), b)
    ensures Wrapped(buffers, lines, b) ==> Wrapped(buffers[b := buffers[b] + s], Put(lines, s), b)
  {}

  /** The ring after a newline: the buffer after the current one is reused. */
  lemma NextRing(buffers: seq<string>, lines: seq<Line>, b: int)
    requires Head(buffers, lines, b)
    ensures var more := lines + [Line("", false)];
            && (b + 1 < |buffers| ==> Head(buffers[b + 1 := ""], more, b + 1))
            && (b + 1 < |buffers| && Wrapped(buffers, lines, b) ==> Wrapped(buffers[b + 1 := ""], more, b + 1))
            && (b + 1 == |buffers| ==> Head(buffers[0 := ""], more, 0) && Wrapped(buffers[0 := ""], more, 0))
  {}

  lemma FirstHead(buffers: seq<string>, lines: seq<Line>)
    requires buffers != []
    ensures Head(buffers[0 := ""], lines + [Line("", false)], 0)
  {}

  lemma {:induction false} TextsSplit(lines: seq<Line>, lo: int, mid: int, hi: int)
    requires 0 <= lo <= mid <= hi <= |lines|
    ensures Texts(lines, lo, hi) == Texts(lines, lo, mid) + Texts(lines, mid, hi)
    decreases hi
  {
    if mid < hi {
      TextsSplit(lines, lo, mid, hi - 1);
      var x, y, e := Texts(lines, lo, mid), Texts(lines, mid, hi - 1), lines[hi - 1].text;
      assert x + y + e == x + (y + e);
    }
  }
}
