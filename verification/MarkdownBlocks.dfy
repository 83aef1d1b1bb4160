/** Structural blocks over canonical Markdown text: a loop over lines with offset arithmetic. */
module MarkdownBlocks {
  import opened Seqs
  import opened Wrappers

  // ----- lines -----

  /** The characters at which a text is split into lines. */
  predicate IsBreak(c: char) {
    c in "\n\r\U{B}\U{C}\U{1C}\U{1D}\U{1E}\U{85}\U{2028}\U{2029}"
  }

  predicate IsSpace(c: char) {
    var n := c as int;
    || 0x9 <= n <= 0xD || 0x1C <= n <= 0x20 || n == 0x85 || n == 0xA0 || n == 0x1680
    || 0x2000 <= n <= 0x200A || n == 0x2028 || n == 0x2029 || n == 0x202F || n == 0x205F || n == 0x3000
  }

  predicate IsBlank(s: string) { forall k :: 0 <= k < |s| ==> IsSpace(s[k]) }

  /** The length of the first line, its break included. */
  function FirstLine(s: string): (n: nat)
    requires |s| > 0
    ensures 0 < n <= |s|
  {
    if |s| > 1 && s[0] == '\r' && s[1] == '\n' then 2
    else if IsBreak(s[0]) || |s| == 1 then 1
    else 1 + FirstLine(s[1..])
  }

  function SplitLines(s: string): seq<string> {
    if |s| == 0 then [] else [s[..FirstLine(s)]] + SplitLines(s[FirstLine(s)..])
  }

  function StripBreak(s: string): (r: string)
    ensures |r| <= |s| && r == s[..|r|]
    ensures |r| > 0 ==> r[|r| - 1] != '\r' && r[|r| - 1] != '\n'
    ensures forall k :: |r| <= k < |s| ==> s[k] == '\r' || s[k] == '\n'
  {
    if |s| > 0 && (s[|s| - 1] == '\r' || s[|s| - 1] == '\n') then StripBreak(s[..|s| - 1]) else s
  }

  /** A line without its break, and the offsets it spans with it. */
  datatype Line = Line(text: string, start: nat, end: nat)

  function Numbered(pieces: seq<string>, offset: nat): seq<Line> {
    if |pieces| == 0 then []
    else [Line(StripBreak(pieces[0]), offset, offset + |pieces[0]|)] + Numbered(pieces[1..], offset + |pieces[0]|)
  }

  function Lines(text: string): seq<Line> { Numbered(SplitLines(text), 0) }

  /** The lines tile `text[from..]` and carry what they span. */
  predicate Tiles(text: string, lines: seq<Line>, from: nat)
    decreases |lines|
  {
    && from <= |text|
    && (if |lines| == 0 then from == |text|
        else
          && lines[0].start == from < lines[0].end <= |text|
          && lines[0].text == StripBreak(text[from..lines[0].end])
          && Tiles(text, lines[1..], lines[0].end))
  }

  lemma NumberedParts(s: string, from: nat)
    ensures Numbered(SplitLines(s), from) ==
            if |s| == 0 then []
            else
              var n := FirstLine(s);
              [Line(StripBreak(s[..n]), from, from + n)] + Numbered(SplitLines(s[n..]), from + n)
  {
    hide StripBreak, FirstLine;
  }

  lemma TilesParts(text: string, lines: seq<Line>, from: nat)
    ensures from == |text| && lines == [] ==> Tiles(text, lines, from)
    ensures (&& |lines| > 0 && lines[0].start == from < lines[0].end <= |text|
             && lines[0].text == StripBreak(text[from..lines[0].end])
             && Tiles(text, lines[1..], lines[0].end)) ==> Tiles(text, lines, from)
  {
    hide StripBreak;
  }

  lemma {:induction false} NumberedTiles(text: string, from: nat)
    requires from <= |text|
    ensures Tiles(text, Numbered(SplitLines(text[from..]), from), from)
    decreases |text| - from
  {
    hide StripBreak, FirstLine, SplitLines, Numbered, Tiles;
    var s := text[from..];
    NumberedParts(s, from);
    TilesParts(text, Numbered(SplitLines(s), from), from);
    if |s| > 0 {
      var n := FirstLine(s);
      SliceOfSuffix(text, from, n);
      NumberedTiles(text, from + n);
    }
  }

  lemma LinesTile(text: string)
    ensures Tiles(text, Lines(text), 0)
  {
    NumberedTiles(text, 0);
    assert text[0..] == text;
  }

  /** The characters by their codes. */
  lemma CharacterCodes(c: char)
    ensures IsBreak(c) <==> c as int in {10, 11, 12, 13, 28, 29, 30, 133, 8232, 8233}
    ensures IsSpace(c) <==> c as int in {9, 10, 11, 12, 13, 28, 29, 30, 31, 32, 133, 160, 5760, 8192, 8193, 8194, 8195, 8196, 8197,
                                         8198, 8199, 8200, 8201, 8202, 8232, 8233, 8239, 8287, 12288}
  {
  }

  /** `text[start..end]` is one line: a break only at its end, and there unless the text ends; a
      carriage return and the line feed after it are one break. */
  predicate IsOneLine(text: string, start: nat, end: nat) {
    && start < end <= |text|
    && (forall k :: start <= k < end && IsBreak(text[k]) ==>
          k == end - 1 || (k == end - 2 && text[k] == '\r' && text[k + 1] == '\n'))
    && (end < |text| ==> IsBreak(text[end - 1]) && !(text[end - 1] == '\r' && text[end] == '\n'))
  }

  lemma {:induction false} FirstLineIsOne(s: string)
    requires |s| > 0
    ensures IsOneLine(s, 0, FirstLine(s))
  {
    hide IsBreak;
    BreakBefore(s);
    if FirstLine(s) > 2 || (FirstLine(s) == 2 && !(s[0] == '\r' && s[1] == '\n')) {
      FirstLineIsOne(s[1..]);
      var n := FirstLine(s[1..]);
      forall k | 0 <= k < n + 1 && IsBreak(s[k]) ensures k == n || (k == n - 1 && s[k] == '\r' && s[k + 1] == '\n') {
        assert k > 0 && s[1..][k - 1] == s[k] && (k < n ==> s[1..][k] == s[k + 1]);
      }
    }
  }

  lemma BreakBefore(s: string)
    ensures IsBreak('\n') && IsBreak('\r')
  {
  }

  /** Every line of a text is one line of it. */
  lemma {:induction false} LinesAreLines(text: string, from: nat)
    requires from <= |text|
    ensures AreLines(text, Numbered(SplitLines(text[from..]), from))
    decreases |text| - from
  {
    hide StripBreak, FirstLine, SplitLines, Numbered, IsOneLine, AreLines;
    var s := text[from..];
    NumberedParts(s, from);
    if |s| > 0 {
      var n := FirstLine(s);
      FirstLineIsOne(s);
      ShiftedLine(text, from, n);
      SliceOfSuffix(text, from, n);
      LinesAreLines(text, from + n);
      AreLinesCons(text, Line(StripBreak(s[..n]), from, from + n), Numbered(SplitLines(s[n..]), from + n));
    } else {
      NoLines(text);
    }
  }

  predicate AreLines(text: string, lines: seq<Line>) {
    forall i :: 0 <= i < |lines| ==> IsOneLine(text, lines[i].start, lines[i].end)
  }

  lemma AreLinesCons(text: string, line: Line, rest: seq<Line>)
    requires IsOneLine(text, line.start, line.end) && AreLines(text, rest)
    ensures AreLines(text, [line] + rest)
  {
    hide IsOneLine;
  }

  lemma NoLines(text: string)
    ensures AreLines(text, [])
  {
  }

  lemma ShiftedLine(text: string, from: nat, n: nat)
    requires from < |text| && IsOneLine(text[from..], 0, n)
    ensures IsOneLine(text, from, from + n)
  {
    hide IsBreak;
    var s := text[from..];
    forall k | from <= k < from + n && IsBreak(text[k])
      ensures k == from + n - 1 || (k == from + n - 2 && text[k] == '\r' && text[k + 1] == '\n')
    {
      assert s[k - from] == text[k] && (k + 1 < from + n ==> s[k + 1 - from] == text[k + 1]);
    }
  }

  lemma {:induction false} TileAt(text: string, lines: seq<Line>, from: nat, i: nat)
    requires Tiles(text, lines, from) && i < |lines|
    ensures from <= lines[i].start < lines[i].end <= |text|
    ensures lines[i].text == StripBreak(text[lines[i].start..lines[i].end])
    ensures i == 0 ==> lines[i].start == from
    ensures i + 1 < |lines| ==> lines[i + 1].start == lines[i].end
    ensures i + 1 == |lines| ==> lines[i].end == |text|
  {
    if i > 0 { TileAt(text, lines[1..], lines[0].end, i - 1); }
  }

  lemma {:induction false} TilesOrdered(text: string, lines: seq<Line>, i: nat, j: nat)
    requires Tiles(text, lines, 0) && i < j < |lines|
    ensures lines[i].end <= lines[j].start
    decreases j - i
  {
    TileAt(text, lines, 0, i);
    if i + 1 < j {
      TileAt(text, lines, 0, i + 1);
      TilesOrdered(text, lines, i + 1, j);
    }
  }

  // ----- headings -----

  function HashRun(s: string): (n: nat)
    ensures n <= |s| && (forall k :: 0 <= k < n ==> s[k] == '#') && (n < |s| ==> s[n] != '#')
  {
    if |s| > 0 && s[0] == '#' then 1 + HashRun(s[1..]) else 0
  }

  function SpaceRun(s: string): (n: nat)
    ensures n <= |s| && (forall k :: 0 <= k < n ==> IsSpace(s[k])) && (n < |s| ==> !IsSpace(s[n]))
  {
    if |s| > 0 && IsSpace(s[0]) then 1 + SpaceRun(s[1..]) else 0
  }

  function TrimRight(s: string): (r: string)
    ensures |r| <= |s| && r == s[..|r|] && (|r| > 0 ==> !IsSpace(r[|r| - 1]))
    ensures forall k :: |r| <= k < |s| ==> IsSpace(s[k])
  {
    if |s| > 0 && IsSpace(s[|s| - 1]) then TrimRight(s[..|s| - 1]) else s
  }

  datatype Heading = Heading(level: nat, gap: nat, title: string)

  function ParseHeading(line: string): Option<Heading> {
    var k := HashRun(line);
    var w := SpaceRun(line[k..]);
    if k < 1 || k > 6 || w < 1 then None
    else if k + w < |line| then Some(Heading(k, w, TrimRight(line[k + w..])))
    else if w >= 2 then Some(Heading(k, w - 1, line[|line| - 1..]))
    else None
  }

  /** The heading pattern: `level` hashes, `gap` spaces, `size` characters of title, spaces. */
  predicate MatchesHeading(line: string, level: nat, gap: nat, size: nat) {
    && 1 <= level <= 6 && 1 <= gap && 1 <= size && level + gap + size <= |line|
    && (forall k :: 0 <= k < level ==> line[k] == '#')
    && (forall k :: level <= k < level + gap ==> IsSpace(line[k]))
    && (forall k :: level + gap + size <= k < |line| ==> IsSpace(line[k]))
  }

  lemma {:induction false} HashRunIs(s: string, n: nat)
    requires n <= |s| && (forall k :: 0 <= k < n ==> s[k] == '#') && (n < |s| ==> s[n] != '#')
    ensures HashRun(s) == n
  {
    if n > 0 { HashRunIs(s[1..], n - 1); }
  }

  lemma {:induction false} SpaceRunAtLeast(s: string, n: nat)
    requires n <= |s| && forall k :: 0 <= k < n ==> IsSpace(s[k])
    ensures n <= SpaceRun(s)
  {
    if n > 0 { SpaceRunAtLeast(s[1..], n - 1); }
  }

  lemma {:induction false} TrimRightAtMost(s: string, n: nat)
    requires n <= |s| && forall k :: n <= k < |s| ==> IsSpace(s[k])
    ensures |TrimRight(s)| <= n
  {
    if n < |s| { TrimRightAtMost(s[..|s| - 1], n); }
  }

  lemma {:induction false} TrimKeepsFirst(s: string)
    requires |s| > 0 && !IsSpace(s[0])
    ensures |TrimRight(s)| > 0
  {
    if IsSpace(s[|s| - 1]) { TrimKeepsFirst(s[..|s| - 1]); }
  }

  /** What is read matches the pattern. */
  lemma ReadsAMatch(line: string)
    requires ParseHeading(line).Some?
    ensures var h := ParseHeading(line).value;
            && MatchesHeading(line, h.level, h.gap, |h.title|)
            && h.title == line[h.level + h.gap..][..|h.title|]
  {
    hide IsSpace, HashRun, SpaceRun, TrimRight;
    var k := HashRun(line);
    var w := SpaceRun(line[k..]);
    Suffix(line, k);
    if k + w < |line| {
      Suffix(line, k + w);
      var t := TrimRight(line[k + w..]);
      assert !IsSpace(line[k + w]);
      TrimKeepsFirst(line[k + w..]);
    }
  }

  /** A heading is read whenever the pattern matches some way, and what is read is the match with
      the longest gap and then the shortest title: greedy hashes and spaces, a lazy title. */
  lemma ReadsFirstMatch(line: string, level: nat, gap: nat, size: nat)
    requires MatchesHeading(line, level, gap, size)
    ensures var h := ParseHeading(line);
            h.Some? && h.value.level == level && gap <= h.value.gap && (gap == h.value.gap ==> |h.value.title| <= size)
  {
    assert IsSpace(line[level]);
    HashRunIs(line, level);
    var rest := line[level..];
    SpaceRunAtLeast(rest, gap);
    var w := SpaceRun(rest);
    if level + w < |line| {
      if gap == w { TrimRightAtMost(line[level + w..], size); }
    }
  }

  // ----- tables -----

  function DashRun(s: string): (n: nat)
    ensures n <= |s| && (forall k :: 0 <= k < n ==> s[k] == '-') && (n < |s| ==> s[n] != '-')
  {
    if |s| > 0 && s[0] == '-' then 1 + DashRun(s[1..]) else 0
  }

  function SkipSpace(s: string): string { s[SpaceRun(s)..] }

  function SkipColon(s: string): string { if |s| > 0 && s[0] == ':' then s[1..] else s }

  function SkipBar(s: string): string { if |s| > 0 && s[0] == '|' then s[1..] else s }

  /** What follows an alignment cell at the head of `s`: an optional colon, three or more dashes,
      an optional colon, and spaces. */
  function AfterCell(s: string): (r: Option<string>)
    ensures r.Some? ==> |r.value| < |s|
  {
    var t := SkipColon(s);
    var n := DashRun(t);
    if n < 3 then None else Some(SkipSpace(SkipColon(t[n..])))
  }

  /** What remains once as many `| cell` groups as possible are read, and how many there were. */
  function AfterCells(s: string): (nat, string)
    decreases |s|
  {
    if |s| > 0 && s[0] == '|' then
      var r := AfterCell(SkipSpace(s[1..]));
      if r.Some? then var (n, rest) := AfterCells(r.value); (n + 1, rest) else (0, s)
    else (0, s)
  }

  /** The separator row of a table. */
  predicate IsSeparator(s: string) {
    var r := AfterCell(SkipSpace(SkipBar(SkipSpace(s))));
    r.Some? && var (n, rest) := AfterCells(r.value); n >= 1 && IsBlank(SkipBar(rest))
  }

  /** One alignment cell of a separator row, with the spaces before and after it. */
  datatype Cell = Cell(before: string, left: bool, dashes: nat, right: bool, after: string)

  predicate IsCell(c: Cell) { IsBlank(c.before) && c.dashes >= 3 && IsBlank(c.after) }

  function Dashes(n: nat): (s: string)
    ensures |s| == n && forall k :: 0 <= k < n ==> s[k] == '-'
  {
    seq(n, _ => '-')
  }

  function Colon(b: bool): string { if b then ":" else "" }

  function CellText(c: Cell): string { c.before + BareCell(c) + c.after }

  function BareCell(c: Cell): string { Colon(c.left) + (Dashes(c.dashes) + Colon(c.right)) }

  /** The cells, a bar between each two, and `end` after the last. */
  function RowText(cells: seq<Cell>, end: string): string {
    if |cells| == 0 then end else CellText(cells[0]) + (if |cells| > 1 then "|" + RowText(cells[1..], end) else end)
  }

  /** A separator row: two or more cells between bars, the outer bars optional. */
  predicate IsRow(s: string, lead: Option<string>, cells: seq<Cell>, trail: Option<string>) {
    && |cells| >= 2 && (forall k :: 0 <= k < |cells| ==> IsCell(cells[k]))
    && (lead.Some? ==> IsBlank(lead.value)) && (trail.Some? ==> IsBlank(trail.value))
    && s == Bar(lead, true) + RowText(cells, Bar(trail, false))
  }

  /** An optional outer bar, with the spaces outside it. */
  function Bar(spaces: Option<string>, leading: bool): string {
    match spaces
    case None => ""
    case Some(x) => if leading then x + "|" else "|" + x
  }

  predicate NotSpaceFirst(s: string) { |s| > 0 ==> !IsSpace(s[0]) }

  lemma {:induction false} SkipBlank(x: string, rest: string)
    requires IsBlank(x) && NotSpaceFirst(rest)
    ensures SkipSpace(x + rest) == rest
  {
    if |x| == 0 {
      assert x + rest == rest;
    } else {
      assert (x + rest)[1..] == x[1..] + rest;
      SkipBlank(x[1..], rest);
    }
  }

  lemma {:induction false} DashRunOf(n: nat, rest: string)
    requires |rest| > 0 ==> rest[0] != '-'
    ensures DashRun(Dashes(n) + rest) == n
    decreases n
  {
    if n == 0 {
      assert Dashes(n) + rest == rest;
    } else {
      assert (Dashes(n) + rest)[1..] == Dashes(n - 1) + rest;
      DashRunOf(n - 1, rest);
    }
  }

  /** The cell at the head, its leading spaces dropped. */
  function Unindented(c: Cell, rest: string): string {
    Colon(c.left) + (Dashes(c.dashes) + (Colon(c.right) + (c.after + rest)))
  }

  lemma CellIs(c: Cell, rest: string)
    ensures CellText(c) + rest == c.before + Unindented(c, rest)
  {
    Nest(c.before, Colon(c.left), Dashes(c.dashes), Colon(c.right), c.after, rest);
  }

  /** Reading a cell that is followed by a bar or by nothing. */
  lemma ReadsCell(c: Cell, rest: string)
    requires IsCell(c) && (rest == "" || rest[0] == '|')
    ensures SkipSpace(CellText(c) + rest) == Unindented(c, rest)
    ensures AfterCell(Unindented(c, rest)) == Some(rest)
  {
    hide SkipSpace, DashRun, IsBlank;
    var tail := Colon(c.right) + (c.after + rest);
    var bare := Dashes(c.dashes) + tail;
    CellIs(c, rest);
    assert bare[0] == '-';
    SkipBlank(c.before, Unindented(c, rest));
    assert SkipColon(Colon(c.left) + bare) == bare;
    TailNoDash(c, rest);
    DashRunOf(c.dashes, tail);
    DropDashes(c.dashes, tail);
    SkipRightColon(c, rest);
    SkipBlank(c.after, rest);
  }

  lemma DropDashes(n: nat, tail: string)
    ensures (Dashes(n) + tail)[n..] == tail
  {
  }

  lemma TailNoDash(c: Cell, rest: string)
    requires IsCell(c) && (rest == "" || rest[0] == '|')
    ensures var tail := Colon(c.right) + (c.after + rest); |tail| > 0 ==> tail[0] != '-'
  {
    assert |c.after| > 0 ==> IsSpace(c.after[0]);
  }

  lemma SkipRightColon(c: Cell, rest: string)
    requires IsCell(c) && (rest == "" || rest[0] == '|')
    ensures SkipColon(Colon(c.right) + (c.after + rest)) == c.after + rest
  {
    assert |c.after| > 0 ==> IsSpace(c.after[0]);
  }

  lemma {:induction false} ReadsCells(cells: seq<Cell>, trail: Option<string>)
    requires forall k :: 0 <= k < |cells| ==> IsCell(cells[k])
    requires trail.Some? ==> IsBlank(trail.value)
    ensures var end := Bar(trail, false);
            AfterCells(if |cells| > 0 then "|" + RowText(cells, end) else end) == (|cells|, end)
    decreases |cells|
  {
    hide AfterCell, CellText, IsCell, IsBlank, SkipSpace;
    var end := Bar(trail, false);
    if |cells| == 0 {
      if trail.Some? {
        assert end[1..] == trail.value;
        NoCellInBlank(trail.value);
      }
    } else {
      var rest := if |cells| > 1 then "|" + RowText(cells[1..], end) else end;
      ReadsCell(cells[0], rest);
      assert ("|" + RowText(cells, end))[1..] == CellText(cells[0]) + rest;
      ReadsCells(cells[1..], trail);
    }
  }

  lemma NoCellInBlank(x: string)
    requires IsBlank(x)
    ensures AfterCell(SkipSpace(x)) == None
  {
    SkipBlank(x, "");
    assert x + "" == x;
  }

  /** Every row of the grammar is read as a separator. */
  lemma RowIsSeparator(s: string, lead: Option<string>, cells: seq<Cell>, trail: Option<string>)
    requires IsRow(s, lead, cells, trail)
    ensures IsSeparator(s)
  {
    hide IsCell, CellText, Unindented, AfterCell, SkipSpace;
    var end := Bar(trail, false);
    var rest := "|" + RowText(cells[1..], end);
    ReadsCell(cells[0], rest);
    ReadsCells(cells[1..], trail);
    assert RowText(cells, end) == CellText(cells[0]) + rest;
    LeadIsSkipped(lead, cells[0], rest);
    assert end == "" || SkipBar(end) == trail.value;
  }

  lemma LeadIsSkipped(lead: Option<string>, c: Cell, rest: string)
    requires IsCell(c) && (lead.Some? ==> IsBlank(lead.value)) && |rest| > 0 && rest[0] == '|'
    ensures SkipSpace(SkipBar(SkipSpace(Bar(lead, true) + (CellText(c) + rest)))) == SkipSpace(CellText(c) + rest)
  {
    hide SkipSpace, SkipBar, CellText, Unindented, IsBlank, IsSpace;
    var text := CellText(c) + rest;
    ReadsCell(c, rest);
    CellStarts(c, rest);
    match lead
    case Some(x) =>
      BarIsSkipped(x, text);
    case None =>
      assert Bar(lead, true) + text == text;
      BareStays(Unindented(c, rest));
  }

  lemma BarIsSkipped(x: string, text: string)
    requires IsBlank(x)
    ensures SkipBar(SkipSpace((x + "|") + text)) == text
  {
    hide SkipSpace, IsBlank;
    assert (x + "|") + text == x + ("|" + text);
    assert ("|" + text)[0] == '|' && ("|" + text)[1..] == text;
    SkipBlank(x, "|" + text);
  }

  lemma CellStarts(c: Cell, rest: string)
    requires IsCell(c)
    ensures var bare := Unindented(c, rest); |bare| > 0 && !IsSpace(bare[0]) && bare[0] != '|'
    ensures !IsSpace('|')
  {
    assert Dashes(c.dashes)[0] == '-';
  }

  lemma BareStays(bare: string)
    requires |bare| > 0 && !IsSpace(bare[0]) && bare[0] != '|'
    ensures SkipSpace(SkipBar(bare)) == bare
  {
    SkipBlank("", bare);
    assert "" + bare == bare;
  }

  lemma CellRead(s: string, before: string) returns (c: Cell)
    requires AfterCell(s).Some? && IsBlank(before)
    ensures IsCell(c) && before + s == CellText(c) + AfterCell(s).value && NotSpaceFirst(AfterCell(s).value)
  {
    hide SkipSpace, SpaceRun, SkipColon, DashRun, IsBlank;
    var t := SkipColon(s);
    var n := DashRun(t);
    var u := SkipColon(t[n..]);
    c := Cell(before, t != s, n, u != t[n..], u[..SpaceRun(u)]);
    ColonSplit(s);
    DashSplit(t);
    ColonSplit(t[n..]);
    SpaceSplit(u);
    CellIs(c, SkipSpace(u));
  }

  lemma ColonSplit(s: string)
    ensures s == Colon(SkipColon(s) != s) + SkipColon(s)
  {
  }

  lemma DashSplit(s: string)
    ensures s == Dashes(DashRun(s)) + s[DashRun(s)..]
  {
  }

  lemma BarSplit(s: string)
    ensures SkipBar(s) != s ==> s == "|" + SkipBar(s) && SkipBar(s) == s[1..]
  {
  }

  lemma SpaceSplit(s: string)
    ensures s == s[..SpaceRun(s)] + SkipSpace(s) && IsBlank(s[..SpaceRun(s)]) && NotSpaceFirst(SkipSpace(s))
  {
  }

  lemma {:induction false} CellsRead(s: string) returns (cells: seq<Cell>)
    requires NotSpaceFirst(s)
    ensures var (n, rest) := AfterCells(s);
            && |cells| == n && (forall k :: 0 <= k < n ==> IsCell(cells[k])) && NotSpaceFirst(rest)
            && s == if n > 0 then "|" + RowText(cells, rest) else rest
    decreases |s|
  {
    hide AfterCell, SkipSpace, SpaceRun, IsCell, CellText, IsBlank;
    cells := [];
    if |s| > 0 && s[0] == '|' && AfterCell(SkipSpace(s[1..])).Some? {
      SpaceSplit(s[1..]);
      var c := CellRead(SkipSpace(s[1..]), s[1..][..SpaceRun(s[1..])]);
      var tail := CellsRead(AfterCell(SkipSpace(s[1..])).value);
      cells := [c] + tail;
      assert s == "|" + s[1..];
      assert cells[1..] == tail;
    }
  }

  /** Whatever is read as a separator is a row of the grammar. */
  lemma SeparatorIsRow(s: string) returns (lead: Option<string>, cells: seq<Cell>, trail: Option<string>)
    requires IsSeparator(s)
    ensures IsRow(s, lead, cells, trail)
  {
    hide SkipSpace, SpaceRun, SkipBar, AfterCell, AfterCells, IsCell, CellText, IsBlank, RowText;
    var c;
    lead, c := FirstRead(s);
    var rest := AfterCell(SkipSpace(SkipBar(SkipSpace(s)))).value;
    var more := CellsRead(rest);
    cells := [c] + more;
    var end := AfterCells(rest).1;
    BarSplit(end);
    trail := if SkipBar(end) != end then Some(SkipBar(end)) else None;
    if trail.None? { NothingLeft(end); }
    RowOf(c, more, end);
  }

  /** Recognizing a separator is exactly being a row of the grammar. */
  lemma SeparatorsAreRows(s: string)
    ensures IsSeparator(s) <==> exists lead, cells, trail :: IsRow(s, lead, cells, trail)
  {
    hide IsRow, IsSeparator;
    if IsSeparator(s) {
      var lead, cells, trail := SeparatorIsRow(s);
    }
    forall lead, cells, trail | IsRow(s, lead, cells, trail) ensures IsSeparator(s) { RowIsSeparator(s, lead, cells, trail); }
  }

  lemma RowOf(c: Cell, more: seq<Cell>, end: string)
    requires |more| > 0
    ensures RowText([c] + more, end) == CellText(c) + ("|" + RowText(more, end))
  {
    assert ([c] + more)[1..] == more;
  }

  lemma FirstRead(s: string) returns (lead: Option<string>, c: Cell)
    requires AfterCell(SkipSpace(SkipBar(SkipSpace(s)))).Some?
    ensures var rest := AfterCell(SkipSpace(SkipBar(SkipSpace(s)))).value;
            && IsCell(c) && (lead.Some? ==> IsBlank(lead.value)) && NotSpaceFirst(rest)
            && s == Bar(lead, true) + (CellText(c) + rest)
  {
    hide SkipSpace, SpaceRun, SkipBar, AfterCell, IsCell, CellText, IsBlank;
    var bar := SkipSpace(s);
    var inner := SkipBar(bar);
    var x, y, head := s[..SpaceRun(s)], inner[..SpaceRun(inner)], SkipSpace(inner);
    SpaceSplit(s);
    SpaceSplit(inner);
    BarSplit(bar);
    if inner != bar {
      lead := Some(x);
      c := CellRead(head, y);
      assert x + ("|" + (y + head)) == (x + "|") + (y + head);
    } else {
      lead := None;
      BlankHead(y, head, bar);
      c := CellRead(head, x);
      assert s == "" + (x + head);
    }
  }

  lemma SpaceComesFirst(y: string, head: string)
    requires |y| > 0 && IsBlank(y)
    ensures !NotSpaceFirst(y + head)
  {
    assert (y + head)[0] == y[0];
  }

  lemma BlankHead(y: string, head: string, s: string)
    requires NotSpaceFirst(s) && s == y + head && IsBlank(y)
    ensures s == head
  {
    if |y| > 0 { SpaceComesFirst(y, head); }
  }

  lemma NothingLeft(end: string)
    requires NotSpaceFirst(end) && IsBlank(end)
    ensures end == ""
  {
  }

  predicate IsTableAt(lines: seq<Line>, i: nat) {
    i + 1 < |lines| && '|' in lines[i].text && IsSeparator(TrimRight(SkipSpace(lines[i + 1].text)))
  }

  /** `row` is `s` without the spaces around it. */
  ghost predicate IsStripped(s: string, row: string) {
    exists a, b :: Strips(s, a, row, b)
  }

  predicate Strips(s: string, a: string, row: string, b: string) {
    IsBlank(a) && IsBlank(b) && s == a + row + b && (|row| > 0 ==> !IsSpace(row[0]) && !IsSpace(row[|row| - 1]))
  }

  /** A table starts at a line with a bar in it before a separator row, the spaces around that aside. */
  lemma TablesExactly(lines: seq<Line>, i: nat)
    ensures IsTableAt(lines, i)
       <==> && i + 1 < |lines| && (exists k :: 0 <= k < |lines[i].text| && lines[i].text[k] == '|')
            && exists row, lead, cells, trail :: IsStripped(lines[i + 1].text, row) && IsRow(row, lead, cells, trail)
  {
    hide IsSeparator, IsRow, IsStripped, TrimRight, SkipSpace;
    if i + 1 < |lines| {
      var next := lines[i + 1].text;
      StrippedIs(next);
      SeparatorsAreRows(TrimRight(SkipSpace(next)));
    }
  }

  lemma StrippedIs(s: string)
    ensures forall row :: IsStripped(s, row) <==> row == TrimRight(SkipSpace(s))
  {
    hide IsSpace, SpaceRun, TrimRight;
    var rest := SkipSpace(s);
    var row, a, b := TrimRight(rest), s[..SpaceRun(s)], rest[|TrimRight(rest)|..];
    SpaceSplit(s);
    assert rest == row + b;
    assert s == a + row + b;
    StartOf(rest, row);
    assert Strips(s, a, row, b);
    forall t | IsStripped(s, t) ensures t == row {
      var x, y :| Strips(s, x, t, y);
      StripUnique(s, x, t, y);
    }
  }

  lemma StartOf(rest: string, row: string)
    requires row == TrimRight(rest) && NotSpaceFirst(rest)
    ensures |row| > 0 ==> !IsSpace(row[0]) && !IsSpace(row[|row| - 1])
  {
  }

  lemma StripUnique(s: string, x: string, t: string, y: string)
    requires Strips(s, x, t, y)
    ensures t == TrimRight(SkipSpace(s))
  {
    hide IsSpace;
    if t == "" {
      assert s == (x + y) + "" && IsBlank(x + y);
      SkipBlank(x + y, "");
      assert TrimRight("") == "";
    } else {
      assert s == x + (t + y) && (t + y)[0] == t[0];
      SkipBlank(x, t + y);
      TrimBlank(t, y);
    }
  }

  lemma {:induction false} TrimBlank(t: string, y: string)
    requires t != "" && !IsSpace(t[|t| - 1]) && IsBlank(y)
    ensures TrimRight(t + y) == t
    decreases |y|
  {
    if y == "" {
      assert t + y == t;
    } else {
      assert (t + y)[..|t + y| - 1] == t + y[..|y| - 1];
      TrimBlank(t, y[..|y| - 1]);
    }
  }

  // ----- which lines a block takes -----

  datatype Kind = HeadingBlock | TableBlock | TextBlock

  /** The lines `from..to` of one block. */
  datatype Range = Range(kind: Kind, from: nat, to: nat)

  predicate Blank(lines: seq<Line>, i: nat)
    requires i < |lines|
  {
    IsBlank(lines[i].text)
  }

  predicate InTable(lines: seq<Line>, i: nat)
    requires i < |lines|
  {
    '|' in lines[i].text && !Blank(lines, i)
  }

  predicate InText(lines: seq<Line>, i: nat)
    requires i < |lines|
  {
    !Blank(lines, i) && ParseHeading(lines[i].text).None? && !IsTableAt(lines, i)
  }

  function TableEnd(lines: seq<Line>, i: nat): (j: nat)
    requires i <= |lines|
    ensures i <= j <= |lines| && (forall k :: i <= k < j ==> InTable(lines, k)) && (j < |lines| ==> !InTable(lines, j))
    decreases |lines| - i
  {
    if i < |lines| && InTable(lines, i) then TableEnd(lines, i + 1) else i
  }

  function TextEnd(lines: seq<Line>, i: nat): (j: nat)
    requires i <= |lines|
    ensures i <= j <= |lines| && (forall k :: i <= k < j ==> InText(lines, k)) && (j < |lines| ==> !InText(lines, j))
    decreases |lines| - i
  {
    if i < |lines| && InText(lines, i) then TextEnd(lines, i + 1) else i
  }

  function NextRange(lines: seq<Line>, i: nat): (r: Range)
    requires i < |lines| && !Blank(lines, i)
    ensures r.from == i < r.to <= |lines|
  {
    if ParseHeading(lines[i].text).Some? then Range(HeadingBlock, i, i + 1)
    else if IsTableAt(lines, i) then Range(TableBlock, i, TableEnd(lines, i + 1))
    else Range(TextBlock, i, TextEnd(lines, i + 1))
  }

  function Cover(lines: seq<Line>, i: nat): seq<Range>
    requires i <= |lines|
    decreases |lines| - i
  {
    if i == |lines| then []
    else if Blank(lines, i) then Cover(lines, i + 1)
    else [NextRange(lines, i)] + Cover(lines, NextRange(lines, i).to)
  }

  /** What a block of each kind may take, and why it stops where it does. */
  predicate WellKinded(lines: seq<Line>, r: Range) {
    && r.from < r.to <= |lines|
    && !Blank(lines, r.from)
    && match r.kind
       case HeadingBlock => ParseHeading(lines[r.from].text).Some? && r.to == r.from + 1
       case TableBlock =>
         && ParseHeading(lines[r.from].text).None? && IsTableAt(lines, r.from)
         && (forall k :: r.from < k < r.to ==> InTable(lines, k)) && (r.to < |lines| ==> !InTable(lines, r.to))
       case TextBlock =>
         && (forall k :: r.from <= k < r.to ==> InText(lines, k)) && (r.to < |lines| ==> !InText(lines, r.to))
  }

  /** Well-kinded ranges from line `i` on, in order, with only blank lines between and around them. */
  predicate Segments(lines: seq<Line>, i: nat, rs: seq<Range>)
    requires i <= |lines|
    decreases |rs|
  {
    if |rs| == 0 then forall k :: i <= k < |lines| ==> Blank(lines, k)
    else
      && WellKinded(lines, rs[0]) && i <= rs[0].from
      && (forall k :: i <= k < rs[0].from ==> Blank(lines, k))
      && Segments(lines, rs[0].to, rs[1..])
  }

  lemma {:induction false} CoverSegments(lines: seq<Line>, i: nat)
    requires i <= |lines|
    ensures Segments(lines, i, Cover(lines, i))
    decreases |lines| - i
  {
    hide ParseHeading, IsTableAt, IsBlank, WellKinded, NextRange, Blank;
    if i < |lines| {
      if Blank(lines, i) {
        CoverSegments(lines, i + 1);
      } else {
        var r := NextRange(lines, i);
        NextIsWellKinded(lines, i);
        CoverSegments(lines, r.to);
        assert Cover(lines, i)[1..] == Cover(lines, r.to);
      }
    }
  }

  /** The segmentation is the only one there is: what a block takes is settled by the lines. */
  lemma {:induction false} SegmentsUnique(lines: seq<Line>, i: nat, rs: seq<Range>)
    requires i <= |lines| && Segments(lines, i, rs)
    ensures rs == Cover(lines, i)
    decreases |lines| - i
  {
    hide ParseHeading, IsTableAt, IsBlank, WellKinded, NextRange, Blank;
    if i < |lines| {
      SegmentsStep(lines, i, rs);
      if Blank(lines, i) {
        SegmentsUnique(lines, i + 1, rs);
      } else {
        RangeUnique(lines, rs[0]);
        SegmentsUnique(lines, rs[0].to, rs[1..]);
        assert rs == [rs[0]] + rs[1..];
      }
    } else {
      NothingAfterTheEnd(lines, rs);
    }
  }

  lemma NothingAfterTheEnd(lines: seq<Line>, rs: seq<Range>)
    requires Segments(lines, |lines|, rs)
    ensures rs == []
  {
    hide ParseHeading, IsTableAt, IsBlank, InTable, InText, Blank;
  }

  lemma SegmentsStep(lines: seq<Line>, i: nat, rs: seq<Range>)
    requires i < |lines| && Segments(lines, i, rs)
    ensures Blank(lines, i) ==> Segments(lines, i + 1, rs)
    ensures !Blank(lines, i) ==> |rs| > 0 && rs[0].from == i && WellKinded(lines, rs[0]) && Segments(lines, rs[0].to, rs[1..])
  {
    hide ParseHeading, IsTableAt, IsBlank, InTable, InText, Blank;
    if |rs| > 0 {
      assert WellKinded(lines, rs[0]) && !Blank(lines, rs[0].from);
    }
  }

  lemma {:induction false} TableEndIs(lines: seq<Line>, i: nat, j: nat)
    requires i <= j <= |lines| && (forall k :: i <= k < j ==> InTable(lines, k)) && (j < |lines| ==> !InTable(lines, j))
    ensures TableEnd(lines, i) == j
    decreases j - i
  {
    if i < j { TableEndIs(lines, i + 1, j); }
  }

  lemma {:induction false} TextEndIs(lines: seq<Line>, i: nat, j: nat)
    requires i <= j <= |lines| && (forall k :: i <= k < j ==> InText(lines, k)) && (j < |lines| ==> !InText(lines, j))
    ensures TextEnd(lines, i) == j
    decreases j - i
  {
    if i < j { TextEndIs(lines, i + 1, j); }
  }

  lemma RangeUnique(lines: seq<Line>, r: Range)
    requires WellKinded(lines, r)
    ensures r == NextRange(lines, r.from)
  {
    hide ParseHeading, IsTableAt, IsBlank;
    if r.kind == TableBlock {
      TableEndIs(lines, r.from + 1, r.to);
    } else if r.kind == TextBlock {
      assert InText(lines, r.from);
      TextEndIs(lines, r.from + 1, r.to);
    }
  }

  lemma NextIsWellKinded(lines: seq<Line>, i: nat)
    requires i < |lines| && !Blank(lines, i)
    ensures WellKinded(lines, NextRange(lines, i))
  {
    hide ParseHeading, IsTableAt, IsBlank;
  }

  predicate Holds(r: Range, k: nat) { r.from <= k < r.to }

  lemma {:induction false} LineInOneRange(lines: seq<Line>, i: nat, rs: seq<Range>, k: nat)
    requires i <= k < |lines| && Segments(lines, i, rs)
    ensures !Blank(lines, k) <==> exists n :: 0 <= n < |rs| && Holds(rs[n], k)
    ensures forall m, n :: 0 <= m < n < |rs| ==> !(Holds(rs[m], k) && Holds(rs[n], k))
    decreases |rs|
  {
    if |rs| > 0 {
      var r := rs[0];
      if k < r.to {
        LaterRanges(lines, r.to, rs[1..]);
        assert forall n :: 0 < n < |rs| ==> rs[n] == rs[1..][n - 1];
        if Holds(r, k) { WellKindedIsNotBlank(lines, r, k); assert Holds(rs[0], k); }
      } else {
        LineInOneRange(lines, r.to, rs[1..], k);
        assert forall n :: 0 < n < |rs| ==> rs[n] == rs[1..][n - 1];
        if !Blank(lines, k) {
          var n :| 0 <= n < |rs[1..]| && Holds(rs[1..][n], k);
          assert Holds(rs[n + 1], k);
        }
      }
    }
  }

  lemma WellKindedIsNotBlank(lines: seq<Line>, r: Range, k: nat)
    requires WellKinded(lines, r) && Holds(r, k)
    ensures !Blank(lines, k)
  {
    hide ParseHeading, IsTableAt, IsBlank, Blank;
    if k > r.from && r.kind == TableBlock { assert InTable(lines, k); }
    if r.kind == TextBlock { assert InText(lines, k); }
  }

  lemma {:induction false} LaterRanges(lines: seq<Line>, i: nat, rs: seq<Range>)
    requires i <= |lines| && Segments(lines, i, rs)
    ensures forall n :: 0 <= n < |rs| ==> WellKinded(lines, rs[n]) && i <= rs[n].from
    ensures forall m, n :: 0 <= m < n < |rs| ==> rs[m].to <= rs[n].from
    decreases |rs|
  {
    if |rs| > 0 {
      LaterRanges(lines, rs[0].to, rs[1..]);
      assert forall n :: 0 < n < |rs| ==> rs[n] == rs[1..][n - 1];
    }
  }

  // ----- the blocks -----

  datatype Block = Block(kind: Kind, text: string, start: nat, end: nat, level: Option<nat>)

  lemma SliceBounds(text: string, lines: seq<Line>, r: Range)
    requires Tiles(text, lines, 0) && r.from < r.to <= |lines|
    ensures lines[r.from].start < lines[r.to - 1].end <= |text|
  {
    hide Tiles, StripBreak;
    TileAt(text, lines, 0, r.from);
    TileAt(text, lines, 0, r.to - 1);
    if r.from < r.to - 1 { TilesOrdered(text, lines, r.from, r.to - 1); }
  }

  /** The block over one range: a heading is named by its title, placed one character after its
      hashes; the other kinds are the slice their lines span. */
  function BlockOf(text: string, lines: seq<Line>, r: Range): Block
    requires r.from < r.to <= |lines|
  {
    var start, end, h := lines[r.from].start, lines[r.to - 1].end, ParseHeading(lines[r.from].text);
    if r.kind == HeadingBlock && h.Some? then HeadingAt(start, h.value)
    else Block(r.kind, Slice(text, start, end), start, end, None)
  }

  function HeadingAt(start: nat, h: Heading): Block {
    Block(HeadingBlock, h.title, start + h.level + 1, start + h.level + 1 + |h.title|, Some(h.level))
  }

  predicate Within(lines: seq<Line>, rs: seq<Range>) { forall n :: 0 <= n < |rs| ==> rs[n].from < rs[n].to <= |lines| }

  function BlocksOf(text: string, lines: seq<Line>, rs: seq<Range>): (bs: seq<Block>)
    requires Within(lines, rs)
    ensures |bs| == |rs| && forall n :: 0 <= n < |rs| ==> bs[n] == BlockOf(text, lines, rs[n])
  {
    seq(|rs|, n requires 0 <= n < |rs| => BlockOf(text, lines, rs[n]))
  }

  lemma CoverWithin(lines: seq<Line>)
    ensures Within(lines, Cover(lines, 0))
  {
    CoverSegments(lines, 0);
    LaterRanges(lines, 0, Cover(lines, 0));
    hide ParseHeading, IsTableAt, IsBlank, InTable, InText, Blank, Cover;
  }

  /** The blocks of a text: one for each range its lines are covered by. */
  ghost function Blocks(text: string): seq<Block> {
    var lines := Lines(text);
    CoverWithin(lines);
    BlocksOf(text, lines, Cover(lines, 0))
  }

  lemma NumberStep(done: seq<Line>, pieces: seq<string>, offset: nat)
    requires |pieces| > 0
    ensures done + Numbered(pieces, offset)
         == (done + [Line(StripBreak(pieces[0]), offset, offset + |pieces[0]|)]) + Numbered(pieces[1..], offset + |pieces[0]|)
  {
    hide StripBreak;
  }

  method NumberLines(text: string) returns (lines: seq<Line>)
    ensures lines == Lines(text)
  {
    var pieces := SplitLines(text);
    lines := [];
    var offset: nat := 0;
    for i := 0 to |pieces|
      invariant lines + Numbered(pieces[i..], offset) == Lines(text)
    {
      var start := offset;
      var end := offset + |pieces[i]|;
      NumberStep(lines, pieces[i..], offset);
      assert pieces[i..][1..] == pieces[i + 1..];
      lines := lines + [Line(StripBreak(pieces[i]), start, end)];
      offset := end;
    }
  }

  /** The blocks so far are those of a prefix of the cover, and the rest is the cover from here. */
  ghost predicate Progress(text: string, lines: seq<Line>, index: nat, done: seq<Range>, blocks: seq<Block>) {
    && index <= |lines| && Within(lines, done)
    && done + Cover(lines, index) == Cover(lines, 0)
    && blocks == BlocksOf(text, lines, done)
  }

  lemma ProgressSkips(text: string, lines: seq<Line>, i: nat, done: seq<Range>, blocks: seq<Block>)
    requires i < |lines| && IsBlank(lines[i].text) && Progress(text, lines, i, done, blocks)
    ensures Progress(text, lines, i + 1, done, blocks)
  {
    hide IsBlank, NextRange, Within, BlocksOf;
  }

  lemma ProgressStep(text: string, lines: seq<Line>, i: nat, done: seq<Range>, blocks: seq<Block>, r: Range)
    requires i < |lines| && !IsBlank(lines[i].text) && r == NextRange(lines, i) && Progress(text, lines, i, done, blocks)
    ensures Progress(text, lines, r.to, done + [r], blocks + [BlockOf(text, lines, r)])
  {
    hide IsBlank, NextRange, BlockOf;
    assert done + Cover(lines, i) == (done + [r]) + Cover(lines, r.to);
    assert BlocksOf(text, lines, done + [r]) == BlocksOf(text, lines, done) + [BlockOf(text, lines, r)];
  }

  lemma ProgressEnds(text: string, lines: seq<Line>, done: seq<Range>, blocks: seq<Block>)
    requires lines == Lines(text) && Progress(text, lines, |lines|, done, blocks)
    ensures blocks == Blocks(text)
  {
    hide Blank, NextRange, Within, BlocksOf, Lines;
  }

  lemma NextParts(lines: seq<Line>, i: nat)
    requires i < |lines| && !IsBlank(lines[i].text)
    ensures !Blank(lines, i)
    ensures var h, t, r := ParseHeading(lines[i].text).Some?, IsTableAt(lines, i), NextRange(lines, i);
            && r.from == i < r.to <= |lines|
            && r.kind == (if h then HeadingBlock else if t then TableBlock else TextBlock)
            && r.to == if h then i + 1 else if t then TableEnd(lines, i + 1) else TextEnd(lines, i + 1)
  {
    hide ParseHeading, IsTableAt, IsBlank;
  }

  lemma TableEndAt(lines: seq<Line>, i: nat)
    requires i <= |lines|
    ensures TableEnd(lines, i)
         == if i < |lines| && '|' in lines[i].text && !IsBlank(lines[i].text) then TableEnd(lines, i + 1) else i
  {
    hide IsBlank;
  }

  lemma TextEndAt(lines: seq<Line>, i: nat)
    requires i <= |lines|
    ensures TextEnd(lines, i)
         == if i < |lines| && !IsBlank(lines[i].text) && ParseHeading(lines[i].text).None? && !IsTableAt(lines, i)
            then TextEnd(lines, i + 1) else i
  {
    hide IsBlank, ParseHeading, IsTableAt;
  }

  method BlocksFromMarkdown(text: string) returns (blocks: seq<Block>)
    ensures blocks == Blocks(text)
  {
    var lines := NumberLines(text);
    ghost var done: seq<Range> := [];
    blocks := [];
    var index := 0;
    hide ParseHeading, IsTableAt, IsBlank, StripBreak, Lines, NextRange, Blank, InTable, InText, TableEnd,
      TextEnd, Cover, Blocks, BlocksOf, Slice;
    assert Progress(text, lines, 0, [], []);
    hide Progress;
    while index < |lines|
      invariant index <= |lines|
      invariant Progress(text, lines, index, done, blocks)
    {
      var line := lines[index];
      if IsBlank(line.text) {
        ProgressSkips(text, lines, index, done, blocks);
        index := index + 1;
        continue;
      }
      NextParts(lines, index);
      ghost var r := NextRange(lines, index);
      ProgressStep(text, lines, index, done, blocks, r);
      var heading := ParseHeading(line.text);
      if heading.Some? {
        blocks := blocks + [HeadingAt(line.start, heading.value)];
        index := index + 1;
      } else if IsTableAt(lines, index) {
        var tableEnd := line.end;
        index := index + 1;
        while index < |lines| && '|' in lines[index].text && !IsBlank(lines[index].text)
          invariant r.from < index <= |lines| && TableEnd(lines, index) == r.to && tableEnd == lines[index - 1].end
        {
          TableEndAt(lines, index);
          tableEnd := lines[index].end;
          index := index + 1;
        }
        TableEndAt(lines, index);
        blocks := blocks + [Block(TableBlock, Slice(text, line.start, tableEnd), line.start, tableEnd, None)];
      } else {
        var chunkEnd := line.end;
        index := index + 1;
        while index < |lines|
          invariant r.from < index <= |lines| && TextEnd(lines, index) == r.to && chunkEnd == lines[index - 1].end
        {
          TextEndAt(lines, index);
          if IsBlank(lines[index].text) || ParseHeading(lines[index].text).Some? { break; }
          if IsTableAt(lines, index) { break; }
          chunkEnd := lines[index].end;
          index := index + 1;
        }
        TextEndAt(lines, index);
        blocks := blocks + [Block(TextBlock, Slice(text, line.start, chunkEnd), line.start, chunkEnd, None)];
      }
      done := done + [r];
    }
    ProgressEnds(text, lines, done, blocks);
  }

  // ----- what the blocks are -----

  /** Every non-blank line belongs to exactly one block, and no blank line to any: the lines of the
      `n`th block are `Cover(Lines(text), 0)[n]`. */
  lemma EveryLineOnce(text: string, k: nat)
    requires k < |Lines(text)|
    ensures var lines, rs := Lines(text), Cover(Lines(text), 0);
            && |Blocks(text)| == |rs|
            && (!Blank(lines, k) <==> exists n :: 0 <= n < |rs| && Holds(rs[n], k))
            && forall m, n :: 0 <= m < n < |rs| ==> !(Holds(rs[m], k) && Holds(rs[n], k))
  {
    CoverSegments(Lines(text), 0);
    LineInOneRange(Lines(text), 0, Cover(Lines(text), 0), k);
  }

  lemma HeadingFits(line: string, h: Heading)
    requires ParseHeading(line) == Some(h)
    ensures h.gap >= 1 && h.level + h.gap + |h.title| <= |line|
    ensures h.title == line[h.level + h.gap..h.level + h.gap + |h.title|]
  {
    hide ParseHeading;
    ReadsAMatch(line);
    SliceOfSlice(line, h.level + h.gap, |line| - (h.level + h.gap), 0, |h.title|);
    assert line[h.level + h.gap..] == line[h.level + h.gap..|line|];
  }

  /** What a line says is in the text where the line starts. */
  lemma LineInText(text: string, lines: seq<Line>, i: nat)
    requires Tiles(text, lines, 0) && i < |lines|
    ensures SaysWhereItIs(text, lines[i])
  {
    TileAt(text, lines, 0, i);
    hide Tiles, StripBreak;
    var line := lines[i];
    SliceOfSlice(text, line.start, line.end - line.start, 0, |line.text|);
    assert line.start + (line.end - line.start) == line.end;
  }

  predicate SaysWhereItIs(text: string, line: Line) {
    line.start + |line.text| <= line.end <= |text| && line.text == text[line.start..line.start + |line.text|]
  }

  lemma BlockWithinLines(text: string, lines: seq<Line>, r: Range)
    requires Tiles(text, lines, 0) && WellKinded(lines, r)
    ensures var b := BlockOf(text, lines, r);
            lines[r.from].start <= b.start <= b.end <= lines[r.to - 1].end <= |text|
  {
    hide ParseHeading, IsTableAt, IsBlank, InTable, InText, Tiles, Slice, StripBreak, WellKinded;
    KindIsRight(lines, r);
    SliceBounds(text, lines, r);
    LineInText(text, lines, r.from);
    TileAt(text, lines, 0, r.from);
    if r.kind == HeadingBlock { HeadingFits(lines[r.from].text, ParseHeading(lines[r.from].text).value); }
  }

  lemma CoverFacts(text: string, n: nat)
    requires n < |Blocks(text)|
    ensures var lines, rs := Lines(text), Cover(Lines(text), 0);
            && n < |rs| && Tiles(text, lines, 0) && WellKinded(lines, rs[n])
            && |Blocks(text)| == |rs| && Blocks(text)[n] == BlockOf(text, lines, rs[n])
            && forall m :: 0 <= m < n ==> WellKinded(lines, rs[m]) && rs[m].to <= rs[n].from
  {
    hide WellKinded, BlockOf, Lines, Tiles, Cover, BlocksOf;
    LinesTile(text);
    CoverWithin(Lines(text));
    CoverSegments(Lines(text), 0);
    LaterRanges(Lines(text), 0, Cover(Lines(text), 0));
    assert Blocks(text) == BlocksOf(text, Lines(text), Cover(Lines(text), 0));
  }

  /** Block offsets are in bounds, in order and disjoint. */
  lemma BlocksInOrder(text: string, m: nat, n: nat)
    requires m < n < |Blocks(text)|
    ensures var bs := Blocks(text); 0 <= bs[m].start <= bs[m].end <= bs[n].start <= bs[n].end <= |text|
  {
    hide Tiles, WellKinded, BlockOf, Lines, Cover, Blocks;
    var lines, rs := Lines(text), Cover(Lines(text), 0);
    CoverFacts(text, n);
    CoverFacts(text, m);
    BlockWithinLines(text, lines, rs[m]);
    BlockWithinLines(text, lines, rs[n]);
    KindIsRight(lines, rs[m]);
    KindIsRight(lines, rs[n]);
    TilesOrdered(text, lines, rs[m].to - 1, rs[n].from);
  }

  /** A block other than a heading is the slice it names. */
  lemma SliceBlocksExact(text: string, n: nat)
    requires n < |Blocks(text)| && Blocks(text)[n].kind != HeadingBlock
    ensures var b := Blocks(text)[n];
            && b.start < b.end <= |text| && b.text == text[b.start..b.end] && b.level == None
  {
    hide ParseHeading, IsTableAt, IsBlank, InTable, InText, Tiles, Lines, Cover, Blocks, WellKinded;
    var lines, rs := Lines(text), Cover(Lines(text), 0);
    CoverFacts(text, n);
    KindIsRight(lines, rs[n]);
    SliceBounds(text, lines, rs[n]);
  }

  lemma KindIsRight(lines: seq<Line>, r: Range)
    requires WellKinded(lines, r)
    ensures r.from < r.to <= |lines|
    ensures r.kind == HeadingBlock ==> r.to == r.from + 1 && ParseHeading(lines[r.from].text).Some?
  {
    hide ParseHeading, IsTableAt, IsBlank, InTable, InText;
  }

  /** Where the title is not at the offsets the block names: a gap of more than one space, unless the
      title is itself one space and coincides with the character there. */
  predicate Misplaced(line: string, h: Heading)
    requires h.level + 1 < |line| && |h.title| > 0
  {
    h.gap != 1 && !(IsSpace(h.title[0]) && line[h.level + 1] == h.title[0])
  }

  /** A heading block is the slice it names exactly when it is not misplaced. */
  lemma HeadingExactIff(text: string, n: nat)
    requires n < |Blocks(text)| && Blocks(text)[n].kind == HeadingBlock
    ensures var b, lines, rs := Blocks(text)[n], Lines(text), Cover(Lines(text), 0);
            && b.start <= b.end <= |text|
            && n < |rs| && rs[n].from < |lines| && ParseHeading(lines[rs[n].from].text).Some?
            && var line, h := lines[rs[n].from].text, ParseHeading(lines[rs[n].from].text).value;
               && h.level + 1 < |line| && |h.title| > 0 && b.text == h.title && b.level == Some(h.level)
               && b.start == lines[rs[n].from].start + h.level + 1 && b.end == b.start + |h.title|
               && (b.text == text[b.start..b.end] <==> !Misplaced(line, h))
  {
    hide ParseHeading, IsTableAt, IsBlank, InTable, InText, Tiles, Lines, Cover, Blocks, WellKinded, StripBreak;
    var lines, rs := Lines(text), Cover(Lines(text), 0);
    CoverFacts(text, n);
    KindIsRight(lines, rs[n]);
    LineInText(text, lines, rs[n].from);
    HeadingPlace(text, lines[rs[n].from]);
  }

  lemma HeadingPlace(text: string, line: Line)
    requires ParseHeading(line.text).Some? && SaysWhereItIs(text, line)
    ensures var h := ParseHeading(line.text).value;
            var b := HeadingAt(line.start, h);
            && b.end <= |text| && h.level + 1 < |line.text| && |h.title| > 0
            && (b.text == text[b.start..b.end] <==> !Misplaced(line.text, h))
  {
    hide ParseHeading, StripBreak;
    var h := ParseHeading(line.text).value;
    ReadsAMatch(line.text);
    HeadingFits(line.text, h);
    TitleEnds(line.text, h);
    var at := h.level + 1;
    SliceOfSlice(text, line.start, |line.text|, at, |h.title|);
    if h.gap != 1 { assert IsSpace(line.text[at]) && line.text[at] == line.text[at..at + |h.title|][0]; }
  }

  lemma TitleEnds(line: string, h: Heading)
    requires ParseHeading(line) == Some(h)
    ensures |h.title| >= 1 && (IsSpace(h.title[0]) ==> |h.title| == 1)
  {
    ReadsAMatch(line);
    var k := HashRun(line);
    var w := SpaceRun(line[k..]);
    if k + w < |line| {
      assert line[k + w..][0] == line[k..][w];
      assert h.title[0] == line[k + w..][0];
    }
  }

  /** Headings are misplaced: two spaces behind the hash, and the block of `T` names the second space. */
  lemma TwoSpacesMisplace()
    ensures ParseHeading("#  T") == Some(Heading(1, 2, "T")) && Misplaced("#  T", Heading(1, 2, "T"))
    ensures Blocks("#  T") == [Block(HeadingBlock, "T", 2, 3, Some(1))] && "#  T"[2..3] == " "
  {
    hide ParseHeading, IsTableAt, Lines, Slice, TableEnd, TextEnd;
    var s := "#  T";
    TwoSpacesParse();
    OneLine(s);
    var line := Line(s, 0, 4);
    assert !IsSpace(s[3]);
    assert Cover([line], 1) == [];
    assert Cover([line], 0) == [Range(HeadingBlock, 0, 1)];
  }

  lemma TwoSpacesParse()
    ensures ParseHeading("#  T") == Some(Heading(1, 2, "T"))
  {
    var s := "#  T";
    HashRunIs(s, 1);
    assert s[1..] == "  T" && "  T"[1..] == " T" && " T"[1..] == "T";
    assert SpaceRun("T") == 0 && SpaceRun(" T") == 1 && SpaceRun("  T") == 2;
    assert s[3..] == "T" && TrimRight("T") == "T";
  }

  lemma OneLine(s: string)
    requires s == "#  T"
    ensures Lines(s) == [Line(s, 0, 4)]
  {
    assert s[1..] == "  T" && "  T"[1..] == " T" && " T"[1..] == "T";
    assert FirstLine("T") == 1 && FirstLine(" T") == 2 && FirstLine("  T") == 3 && FirstLine(s) == 4;
    assert s[..4] == s && s[4..] == "";
    assert SplitLines("") == [] && SplitLines(s) == [s];
    assert StripBreak(s) == s && Numbered([], 4) == [];
    assert [s][1..] == [];
  }
}
