/**
 The terminal tables of the command line tool (grm-cli/src/main.rs): the visible width of text
 holding SGR sequences (section 8.3.117 of ECMA-48), and the lines of a table.
 */
module TableWidth {
  import opened Prelude
  import opened Utf8

  const ESC := '\U{1b}'

  /** Where the scan is: in plain text, after an escape byte, or inside a control sequence. */
  datatype Scan = Ground | AfterEsc | InSequence

  function NextScan(s: Scan, c: char): Scan
  {
    match s
    case Ground => if c == ESC then AfterEsc else Ground
    case AfterEsc => if c == '[' then InSequence else Ground
    case InSequence => if c == 'm' then Ground else InSequence
  }

  /** How many columns a character takes; after a lone escape the next character is plain. */
  function Columns(s: Scan, c: char): nat
  {
    match s
    case Ground => if c == ESC then 0 else 1
    case AfterEsc => if c == '[' then 0 else 1
    case InSequence => 0
  }

  function Width(s: Scan, text: string): nat
    decreases |text|
  {
    if text == [] then 0 else Columns(s, text[0]) + Width(NextScan(s, text[0]), text[1..])
  }

  function Ends(s: Scan, text: string): Scan
    decreases |text|
  {
    if text == [] then s else Ends(NextScan(s, text[0]), text[1..])
  }

  function VisibleWidth(text: string): nat
  {
    Width(Ground, text)
  }

  // --------------------------------------------------------------- the scanner

  lemma WidthStep(s: Scan, text: string, k: nat)
    requires k < |text|
    ensures Width(s, text[k..]) == Columns(s, text[k]) + Width(NextScan(s, text[k]), text[k + 1..])
  {
    assert text[k..][1..] == text[k + 1..];
  }

  /** The byte loop inside a control sequence: from character k to just after its final byte, or to the end. */
  method SkipSequence(text: string, bytes: seq<Byte>, start: nat, ghost k: nat) returns (index: nat, ghost j: nat)
    requires bytes == Encode(text) && k <= |text| && start == Offset(text, k)
    ensures k <= j <= |text| && start <= index == Offset(text, j)
    ensures Width(InSequence, text[k..]) == Width(Ground, text[j..])
    ensures j < |text| ==> j > k
  {
    hide Encode, EncodeChar, Offset, Width;
    index, j := start, k;
    ghost var off := 0;
    OffsetEnd(text);
    while index < |bytes| && bytes[index] != 'm' as int
      invariant k <= j <= |text| && start <= index == Offset(text, j) + off
      invariant off == 0 || (j < |text| && off < |EncodeChar(text[j])| && text[j] as int >= 0x80)
      invariant Width(InSequence, text[k..]) == Width(InSequence, text[j..])
      decreases |bytes| - index
    {
      assert j < |text|;
      ByteAt(text, j, off);
      OffsetNext(text, j);
      index := index + 1;
      off := off + 1;
      if off == |EncodeChar(text[j])| {
        WidthStep(InSequence, text, j);
        j, off := j + 1, 0;
      }
    }
    if index < |bytes| {
      assert j < |text|;
      ByteAt(text, j, off);
      OffsetNext(text, j);
      WidthStep(InSequence, text, j);
      index := index + 1;
      j := j + 1;
    } else {
      PastEnd(text, j, off);
      NoColumns(InSequence);
      NoColumns(Ground);
      assert text[j..] == [];
    }
  }

  lemma PastEnd(text: string, j: nat, off: nat)
    requires j <= |text| && Offset(text, j) + off >= |Encode(text)|
    requires off == 0 || (j < |text| && off < |EncodeChar(text[j])|)
    ensures j == |text| && off == 0
  {
    if j < |text| {
      ByteAt(text, j, off);
    }
  }

  lemma NoColumns(s: Scan)
    ensures Width(s, []) == 0
  {
  }

  /** The source's byte scanner: it slices only at character boundaries and ends. */
  method ScanWidth(text: string) returns (width: nat)
    ensures width == VisibleWidth(text)
  {
    hide Encode, EncodeChar, Offset, Width, Boundary, SliceFrom;
    var bytes := Encode(text);
    var index := 0;
    width := 0;
    ghost var k := 0;
    OffsetEnd(text);
    assert text[0..] == text;
    while index < |bytes|
      invariant k <= |text| && index == Offset(text, k)
      invariant Width(Ground, text) == width + Width(Ground, text[k..])
      decreases |bytes| - index
    {
      assert k < |text|;
      ByteAt(text, k, 0);
      OffsetNext(text, k);
      WidthStep(Ground, text, k);
      ghost var scan := Ground;
      if bytes[index] == 0x1b {
        index := index + 1;
        k := k + 1;
        scan := AfterEsc;
        if k < |text| {
          ByteAt(text, k, 0);
          OffsetNext(text, k);
          WidthStep(AfterEsc, text, k);
        }
        if index < |bytes| && bytes[index] == '[' as int {
          assert k < |text|;
          index, k := SkipSequence(text, bytes, index + 1, k + 1);
          continue;
        }
      }
      SliceAt(text, k);
      var rest := SliceFrom(text, index);
      if rest != [] {
        width := width + 1;
        index := index + |EncodeChar(rest[0])|;
        k := k + 1;
      } else {
        assert text[k..] == [];
        NoColumns(scan);
        NoColumns(Ground);
        break;
      }
    }
    AtEnd(text, k);
    NoColumns(Ground);
    assert text[k..] == [];
  }

  // ------------------------------------------------------------ width of a concatenation

  lemma {:induction false} WidthConcat(s: Scan, a: string, b: string)
    ensures Width(s, a + b) == Width(s, a) + Width(Ends(s, a), b)
    ensures Ends(s, a + b) == Ends(Ends(s, a), b)
    decreases |a|
  {
    if a == [] {
      assert a + b == b;
    } else {
      WidthConcat(NextScan(s, a[0]), a[1..], b);
      assert (a + b)[1..] == a[1..] + b;
    }
  }

  /** Text without escapes is as wide as it is long. */
  predicate Plain(text: string)
  {
    ESC !in text
  }

  lemma {:induction false} PlainWidth(text: string)
    requires Plain(text)
    ensures Width(Ground, text) == |text| && Ends(Ground, text) == Ground
  {
    if text != [] {
      PlainWidth(text[1..]);
    }
  }

  lemma {:induction false} WidthAtMost(s: Scan, text: string)
    ensures Width(s, text) <= |text|
    decreases |text|
  {
    if text != [] {
      WidthAtMost(NextScan(s, text[0]), text[1..]);
    }
  }

  /** Text that starts inside a sequence is never wider than the same text started outside. */
  lemma {:induction false} SequenceSwallows(s: Scan, text: string)
    ensures Width(InSequence, text) <= Width(s, text)
    decreases |text|
  {
    if text != [] {
      if text[0] != 'm' {
        SequenceSwallows(NextScan(s, text[0]), text[1..]);
      } else if s == Ground {
      } else if s == AfterEsc {
      } else {
      }
    }
  }

  /** Leaves no control sequence open; a lone escape at the end is harmless before a space. */
  predicate Balanced(text: string)
  {
    Ends(Ground, text) != InSequence
  }

  // --------------------------------------------------------------------- colours

  datatype Colors = Colors(enabled: bool)

  const GREEN := [ESC] + "[32m"
  const BLUE := [ESC] + "[34m"
  const ORANGE := [ESC] + "[38;5;208m"
  const RESET := [ESC] + "[0m"

  function Wrap(colors: Colors, text: string, color: string): string
  {
    if colors.enabled then color + text + RESET else text
  }

  /** A whole control sequence: an escape, a bracket, parameters and the final letter. */
  ghost predicate Sgr(color: string)
  {
    exists params: string :: 'm' !in params && color == [ESC] + "[" + params + "m"
  }

  lemma {:induction false} ParamsSkipped(params: string, rest: string)
    requires 'm' !in params
    ensures Width(InSequence, params + "m" + rest) == Width(Ground, rest)
    ensures Ends(InSequence, params + "m" + rest) == Ends(Ground, rest)
  {
    if params == [] {
      assert params + "m" + rest == "m" + rest;
      assert ("m" + rest)[1..] == rest;
    } else {
      ParamsSkipped(params[1..], rest);
      assert (params + "m" + rest)[1..] == params[1..] + "m" + rest;
    }
  }

  lemma SgrSkipped(color: string, rest: string)
    requires Sgr(color)
    ensures Width(Ground, color + rest) == Width(Ground, rest) && Ends(Ground, color + rest) == Ends(Ground, rest)
  {
    var params :| 'm' !in params && color == [ESC] + "[" + params + "m";
    var tail := params + "m" + rest;
    assert color + rest == [ESC] + (['['] + tail);
    assert ([ESC] + (['['] + tail))[1..] == ['['] + tail && (['['] + tail)[1..] == tail;
    ParamsSkipped(params, rest);
  }

  lemma ConstantsAreSgr()
    ensures Sgr(GREEN) && Sgr(BLUE) && Sgr(ORANGE) && Sgr(RESET)
  {
    assert GREEN == [ESC] + "[" + "32" + "m" && 'm' !in "32";
    assert BLUE == [ESC] + "[" + "34" + "m" && 'm' !in "34";
    assert ORANGE == [ESC] + "[" + "38;5;208" + "m" && 'm' !in "38;5;208";
    assert RESET == [ESC] + "[" + "0" + "m" && 'm' !in "0";
  }

  /** How a reset reads where the text before it left the scan. */
  lemma ResetWidth()
    ensures Width(Ground, RESET) == 0 && Ends(Ground, RESET) == Ground
    ensures Width(InSequence, RESET) == 0 && Ends(InSequence, RESET) == Ground
    ensures Width(AfterEsc, RESET) == 4 && Ends(AfterEsc, RESET) == Ground
  {
    assert RESET == [ESC, '[', '0', 'm'];
    assert RESET[1..] == ['[', '0', 'm'] && RESET[1..][1..] == ['0', 'm'] && ['0', 'm'][1..] == ['m'] && ['m'][1..] == [];
    PlainWidth(['[', '0', 'm']);
    assert Width(InSequence, ['0', 'm']) == 0 && Ends(InSequence, ['0', 'm']) == Ground;
    assert Width(InSequence, ['[', '0', 'm']) == 0 && Ends(InSequence, ['[', '0', 'm']) == Ground;
  }

  /** Colouring keeps the visible width exactly when it is off or the text does not end in a lone escape. */
  lemma ColourKeepsWidth(colors: Colors, text: string, color: string)
    requires Sgr(color)
    ensures VisibleWidth(Wrap(colors, text, color)) == VisibleWidth(text) <==> !colors.enabled || Ends(Ground, text) != AfterEsc
    ensures colors.enabled ==> Balanced(Wrap(colors, text, color))
  {
    if colors.enabled {
      assert color + text + RESET == color + (text + RESET);
      SgrSkipped(color, text + RESET);
      WidthConcat(Ground, text, RESET);
      ResetWidth();
    }
  }

  // ----------------------------------------------------------------- the lines

  function Repeat(c: char, n: nat): (r: string)
    ensures |r| == n && forall i :: 0 <= i < n ==> r[i] == c
  {
    if n == 0 then "" else Repeat(c, n - 1) + [c]
  }

  function Border(widths: seq<nat>): string
  {
    if widths == [] then "+" else Border(widths[..|widths| - 1]) + Repeat('-', widths[|widths| - 1] + 2) + "+"
  }

  function Padding(cell: string, width: nat): nat
  {
    if width > VisibleWidth(cell) then width - VisibleWidth(cell) else 0
  }

  function Cell(cell: string, width: nat): string
  {
    " " + cell + Repeat(' ', Padding(cell, width)) + " |"
  }

  /** A row of cells, each in its column. */
  function Row(cells: seq<string>, widths: seq<nat>): string
    requires |cells| <= |widths|
  {
    if cells == [] then "|" else Row(cells[..|cells| - 1], widths) + Cell(cells[|cells| - 1], widths[|cells| - 1])
  }

  method FormatBorder(widths: seq<nat>) returns (line: string)
    ensures line == Border(widths)
  {
    line := "+";
    for i := 0 to |widths|
      invariant line == Border(widths[..i])
    {
      assert widths[..i + 1][..i] == widths[..i];
      line := line + Repeat('-', widths[i] + 2);
      line := line + "+";
    }
    assert widths[..|widths|] == widths;
  }

  /** The cells that have a width. */
  function Zipped(cells: seq<string>, widths: seq<nat>): (r: seq<string>)
    ensures |r| <= |widths| && r <= cells && (|r| == |cells| || |r| == |widths|)
  {
    if |cells| <= |widths| then cells else cells[..|widths|]
  }

  method FormatRow(cells: seq<string>, widths: seq<nat>) returns (line: string)
    ensures line == Row(Zipped(cells, widths), widths)
  {
    line := "|";
    var n := if |cells| <= |widths| then |cells| else |widths|;
    for i := 0 to n
      invariant line == Row(cells[..i], widths)
    {
      assert cells[..i + 1][..i] == cells[..i];
      var cell := cells[i];
      var visible := ScanWidth(cell);
      var padding := if widths[i] > visible then widths[i] - visible else 0;
      ghost var before := line;
      line := line + " ";
      line := line + cell;
      line := line + Repeat(' ', padding);
      line := line + " |";
      assert line == before + Cell(cell, widths[i]);
    }
    assert cells[..n] == Zipped(cells, widths);
  }

  /** Room for each cell with its two spaces and its bar. */
  function Span(widths: seq<nat>, n: nat): nat
    requires n <= |widths|
  {
    if n == 0 then 1 else Span(widths, n - 1) + widths[n - 1] + 3
  }

  lemma {:induction false} BorderWidth(widths: seq<nat>)
    ensures VisibleWidth(Border(widths)) == Span(widths, |widths|) && Plain(Border(widths))
  {
    PlainBorder(widths);
    PlainWidth(Border(widths));
  }

  lemma {:induction false} PlainBorder(widths: seq<nat>)
    ensures Plain(Border(widths)) && |Border(widths)| == Span(widths, |widths|)
  {
    if widths != [] {
      PlainBorder(widths[..|widths| - 1]);
      SpanPrefix(widths, |widths| - 1);
    }
  }

  lemma {:induction false} SpanPrefix(widths: seq<nat>, n: nat)
    requires n < |widths|
    ensures Span(widths[..|widths| - 1], n) == Span(widths, n)
  {
    if n > 0 {
      SpanPrefix(widths, n - 1);
    }
  }

  /** The columns of a text that a sequence left open before it hides. */
  function Hidden(text: string): nat
  {
    SequenceSwallows(Ground, text);
    Width(Ground, text) - Width(InSequence, text)
  }

  /** By how much cells outgrow their columns. */
  function Gained(cells: seq<string>, widths: seq<nat>): nat
    requires |cells| <= |widths|
  {
    if cells == [] then 0
    else
      var last, width := cells[|cells| - 1], widths[|cells| - 1];
      Gained(cells[..|cells| - 1], widths) + if VisibleWidth(last) > width then VisibleWidth(last) - width else 0
  }

  /** How many columns the cells that leave a sequence open hide, of their row and of what follows it. */
  function Lost(cells: seq<string>, widths: seq<nat>, rest: string): nat
    requires |cells| <= |widths|
    decreases |cells|
  {
    if cells == [] then 0
    else
      var last, width := cells[|cells| - 1], widths[|cells| - 1];
      Lost(cells[..|cells| - 1], widths, Cell(last, width) + rest)
      + if Balanced(last) then 0 else Hidden(Repeat(' ', Padding(last, width)) + " |" + rest)
  }

  /** Every cell's text stands in the row, set off by a space on each side. */
  lemma {:induction false} RowShowsCells(cells: seq<string>, widths: seq<nat>, i: nat)
    requires i < |cells| <= |widths|
    ensures exists before, blanks, after ::
              Row(cells, widths) == before + "| " + cells[i] + blanks + " |" + after && forall j :: 0 <= j < |blanks| ==> blanks[j] == ' '
    decreases |cells|
  {
    var n := |cells| - 1;
    var init := Row(cells[..n], widths);
    if i < n {
      RowShowsCells(cells[..n], widths, i);
      var before, blanks, after :| init == before + "| " + cells[..n][i] + blanks + " |" + after && forall j :: 0 <= j < |blanks| ==> blanks[j] == ' ';
      Assoc3(before + "| " + cells[i] + blanks + " |", after, Cell(cells[n], widths[n]));
      assert Row(cells, widths) == before + "| " + cells[i] + blanks + " |" + (after + Cell(cells[n], widths[n]));
    } else {
      RowEndsInBar(cells[..n], widths);
      var blanks := Repeat(' ', Padding(cells[n], widths[n]));
      var before := init[..|init| - 1];
      assert init == before + "|";
      assert Row(cells, widths) == before + "| " + cells[n] + blanks + " |" + "";
    }
  }

  lemma RowEndsInBar(cells: seq<string>, widths: seq<nat>)
    requires |cells| <= |widths|
    ensures var row := Row(cells, widths); row != [] && row[|row| - 1] == '|'
  {
  }

  lemma CellWidth(cell: string, width: nat, rest: string)
    ensures var hidden := if Balanced(cell) then 0 else Hidden(Repeat(' ', Padding(cell, width)) + " |" + rest);
            var room := if VisibleWidth(cell) > width then VisibleWidth(cell) else width;
            Width(Ground, Cell(cell, width) + rest) + hidden == room + 3 + Width(Ground, rest)
  {
    var blank := Repeat(' ', Padding(cell, width));
    var after := blank + " |";
    var tail := after + rest;
    assert Cell(cell, width) + rest == " " + (cell + tail);
    WidthConcat(Ground, " ", cell + tail);
    PlainWidth(" ");
    assert tail[0] == ' ';
    WidthConcat(Ground, cell, tail);
    assert Balanced(cell) ==> Width(Ends(Ground, cell), tail) == Width(Ground, tail);
    PlainWidth(after);
    WidthConcat(Ground, after, rest);
  }

  /** A row, followed by nothing or by more cells, is as wide as its columns, plus what outgrows them, less what is hidden. */
  lemma {:induction false} RowWidth(cells: seq<string>, widths: seq<nat>, rest: string)
    requires |cells| <= |widths|
    requires rest != [] ==> rest[0] == ' '
    ensures Width(Ground, Row(cells, widths) + rest) + Lost(cells, widths, rest)
            == Span(widths, |cells|) + Gained(cells, widths) + Width(Ground, rest)
    decreases |cells|
  {
    if cells == [] {
      WidthConcat(Ground, "|", rest);
      PlainWidth("|");
    } else {
      hide Width, Balanced, Repeat, Padding, Ends, Hidden;
      var n := |cells| - 1;
      var last := Cell(cells[n], widths[n]);
      CellWidth(cells[n], widths[n], rest);
      assert (last + rest)[0] == ' ';
      hide Cell;
      RowWidth(cells[..n], widths, last + rest);
      Assoc3(Row(cells[..n], widths), last, rest);
    }
  }

  /** Nothing is hidden exactly when every cell closes its sequences. */
  lemma {:induction false} LostNothing(cells: seq<string>, widths: seq<nat>, rest: string)
    requires |cells| <= |widths|
    ensures Lost(cells, widths, rest) == 0 <==> Shut(cells)
    decreases |cells|
  {
    if cells != [] {
      var n := |cells| - 1;
      LostNothing(cells[..n], widths, Cell(cells[n], widths[n]) + rest);
      var blank := Repeat(' ', Padding(cells[n], widths[n]));
      assert (blank + " |" + rest)[0] == ' ';
      HiddenSpace(blank + " |" + rest);
      hide Hidden, Width, Balanced;
      assert forall i :: 0 <= i < n ==> cells[..n][i] == cells[i];
    }
  }

  lemma HiddenSpace(text: string)
    requires text != [] && text[0] == ' '
    ensures Hidden(text) > 0
  {
    SequenceSwallows(Ground, text[1..]);
  }

  /** Nothing is gained exactly when every cell fits its column. */
  lemma {:induction false} GainedNothing(cells: seq<string>, widths: seq<nat>)
    requires |cells| <= |widths|
    ensures Gained(cells, widths) == 0 <==> Fits(cells, widths)
  {
    if cells != [] {
      var n := |cells| - 1;
      GainedNothing(cells[..n], widths);
      hide VisibleWidth;
      assert forall i :: 0 <= i < n ==> cells[..n][i] == cells[i];
    }
  }

  predicate Shut(cells: seq<string>)
  {
    forall i :: 0 <= i < |cells| ==> Balanced(cells[i])
  }

  datatype HeaderKind = PlainHeader | PropertyHeader | TypeHeader

  function Style(colors: Colors, header: string, kind: HeaderKind): string
  {
    match kind
    case PlainHeader => header
    case PropertyHeader => Wrap(colors, header, BLUE)
    case TypeHeader => Wrap(colors, header, GREEN)
  }

  /** Property names are blue, types green, and without colours nothing is added. */
  lemma HeaderColours(header: string)
    ensures Style(Colors(true), header, PropertyHeader) == [ESC, '[', '3', '4', 'm'] + header + [ESC, '[', '0', 'm']
    ensures Style(Colors(true), header, TypeHeader) == [ESC, '[', '3', '2', 'm'] + header + [ESC, '[', '0', 'm']
    ensures forall kind :: Style(Colors(true), header, PlainHeader) == Style(Colors(false), header, kind) == header
  {
    assert BLUE == [ESC, '[', '3', '4', 'm'] && GREEN == [ESC, '[', '3', '2', 'm'] && RESET == [ESC, '[', '0', 'm'];
  }

  function Styled(colors: Colors, headers: seq<string>, kinds: seq<HeaderKind>): (r: seq<string>)
    ensures |r| == if |headers| < |kinds| then |headers| else |kinds|
    ensures forall i :: 0 <= i < |r| ==> r[i] == Style(colors, headers[i], kinds[i])
  {
    if headers == [] || kinds == [] then []
    else [Style(colors, headers[0], kinds[0])] + Styled(colors, headers[1..], kinds[1..])
  }

  /** The columns' widths: the widest cell or the header's byte length, whichever is more, and no wider. */
  ghost predicate Measured(headers: seq<string>, rows: seq<seq<string>>, widths: seq<nat>)
  {
    && |widths| == |headers|
    && (forall i :: 0 <= i < |headers| ==> widths[i] >= |Encode(headers[i])|)
    && (forall row :: row in rows ==> Fits(row, widths))
    && (forall i :: 0 <= i < |headers| ==> widths[i] == |Encode(headers[i])| || Attained(rows, i, widths[i]))
  }

  predicate Fits(row: seq<string>, widths: seq<nat>)
  {
    |row| <= |widths| && forall i :: 0 <= i < |row| ==> widths[i] >= VisibleWidth(row[i])
  }

  ghost predicate Attained(rows: seq<seq<string>>, i: nat, width: nat)
  {
    exists row :: row in rows && i < |row| && VisibleWidth(row[i]) == width
  }

  lemma MeasureNoCells(headers: seq<string>, done: seq<seq<string>>, widths: seq<nat>)
    requires Measured(headers, done, widths)
    ensures Measured(headers, done + [[]], widths)
  {
    hide Width, Encode;
    assert forall row :: row in done + [[]] ==> row in done || row == [];
    forall i | 0 <= i < |headers| && Attained(done, i, widths[i])
      ensures Attained(done + [[]], i, widths[i])
    {
      var row :| row in done && i < |row| && VisibleWidth(row[i]) == widths[i];
      assert row in done + [[]];
    }
  }

  lemma MeasureCell(headers: seq<string>, done: seq<seq<string>>, part: seq<string>, cell: string, widths: seq<nat>, next: seq<nat>)
    requires Measured(headers, done + [part], widths) && |part| < |widths|
    requires next == widths[|part| := if widths[|part|] > VisibleWidth(cell) then widths[|part|] else VisibleWidth(cell)]
    ensures Measured(headers, done + [part + [cell]], next)
  {
    hide Width, Encode;
    var before, after, c := done + [part], done + [part + [cell]], |part|;
    assert part in before;
    assert Fits(part, widths);
    forall row | row in after
      ensures Fits(row, next)
    {
      if row in done {
        assert row in before && Fits(row, widths);
      } else {
        assert row == part + [cell];
        assert forall i :: 0 <= i < c ==> row[i] == part[i];
      }
    }
    forall i | 0 <= i < |headers|
      ensures next[i] == |Encode(headers[i])| || Attained(after, i, next[i])
    {
      if next[i] != widths[i] {
        assert (part + [cell]) in after && (part + [cell])[i] == cell;
      } else if Attained(before, i, widths[i]) {
        var row :| row in before && i < |row| && VisibleWidth(row[i]) == widths[i];
        if row in done {
          assert row in after;
        } else {
          assert (part + [cell]) in after && (part + [cell])[i] == part[i];
        }
      }
    }
  }

  function HeaderLengths(headers: seq<string>): (r: seq<nat>)
    ensures |r| == |headers| && forall i :: 0 <= i < |headers| ==> r[i] == |Encode(headers[i])|
  {
    if headers == [] then [] else HeaderLengths(headers[..|headers| - 1]) + [|Encode(headers[|headers| - 1])|]
  }

  /** The first loop of write_cli_table; a row longer than the header would be an index error there. */
  method Measure(headers: seq<string>, rows: seq<seq<string>>) returns (widths: seq<nat>)
    requires forall row :: row in rows ==> |row| <= |headers|
    ensures Measured(headers, rows, widths)
  {
    hide VisibleWidth, Encode, Measured;
    widths := HeaderLengths(headers);
    MeasureStart(headers, widths);
    assert rows[..0] == [];
    for r := 0 to |rows|
      invariant |widths| == |headers| && Measured(headers, rows[..r], widths)
    {
      var row := rows[r];
      assert row in rows;
      MeasureNoCells(headers, rows[..r], widths);
      assert row[..0] == [];
      for c := 0 to |row|
        invariant |widths| == |headers| && Measured(headers, rows[..r] + [row[..c]], widths)
      {
        var visible := ScanWidth(row[c]);
        ghost var before := widths;
        widths := widths[c := if widths[c] > visible then widths[c] else visible];
        MeasureCell(headers, rows[..r], row[..c], row[c], before, widths);
        assert row[..c + 1] == row[..c] + [row[c]];
      }
      assert row[..|row|] == row;
      assert rows[..r + 1] == rows[..r] + [row];
    }
    assert rows[..|rows|] == rows;
  }

  lemma MeasureStart(headers: seq<string>, widths: seq<nat>)
    requires |widths| == |headers| && forall i :: 0 <= i < |headers| ==> widths[i] == |Encode(headers[i])|
    ensures Measured(headers, [], widths)
  {
  }

  function RowLines(rows: seq<seq<string>>, widths: seq<nat>): (r: seq<string>)
    requires forall row :: row in rows ==> |row| <= |widths|
    ensures |r| == |rows| && forall i :: 0 <= i < |rows| ==> r[i] == Row(rows[i], widths)
  {
    if rows == [] then [] else RowLines(rows[..|rows| - 1], widths) + [Row(rows[|rows| - 1], widths)]
  }

  function Lines(colors: Colors, headers: seq<string>, kinds: seq<HeaderKind>, rows: seq<seq<string>>, widths: seq<nat>): seq<string>
    requires |widths| == |headers| && forall row :: row in rows ==> |row| <= |headers|
  {
    [Border(widths), Row(Styled(colors, headers, kinds), widths), Border(widths)] + RowLines(rows, widths) + [Border(widths)]
  }

  method WriteTable(colors: Colors, headers: seq<string>, kinds: seq<HeaderKind>, rows: seq<seq<string>>)
    returns (lines: seq<string>, widths: seq<nat>)
    requires forall row :: row in rows ==> |row| <= |headers|
    ensures Measured(headers, rows, widths) && |widths| == |headers|
    ensures lines == Lines(colors, headers, kinds, rows, widths)
    // the header between two borders, then the rows in order, then a border
    ensures |lines| == |rows| + 4 && lines[0] == lines[2] == lines[|rows| + 3] == Border(widths)
    ensures lines[1] == Row(Styled(colors, headers, kinds), widths)
    ensures forall r :: 0 <= r < |rows| ==> lines[3 + r] == Row(rows[r], widths)
  {
    hide Measured, Border, Row, Styled;
    widths := Measure(headers, rows);
    MeasuredLength(headers, rows, widths);
    var border := FormatBorder(widths);
    var header := FormatRow(Styled(colors, headers, kinds), widths);
    lines := [border, header, border];
    for r := 0 to |rows|
      invariant lines == [border, header, border] + RowLines(rows[..r], widths)
    {
      assert rows[..r + 1][..r] == rows[..r];
      assert rows[r] in rows;
      var line := FormatRow(rows[r], widths);
      lines := lines + [line];
    }
    assert rows[..|rows|] == rows;
    lines := lines + [border];
    assert lines == Lines(colors, headers, kinds, rows, widths);
    hide Lines, RowLines;
    LinesPlaced(colors, headers, kinds, rows, widths);
  }

  lemma LinesPlaced(colors: Colors, headers: seq<string>, kinds: seq<HeaderKind>, rows: seq<seq<string>>, widths: seq<nat>)
    requires |widths| == |headers| && forall row :: row in rows ==> |row| <= |headers|
    ensures var lines := Lines(colors, headers, kinds, rows, widths);
            && |lines| == |rows| + 4 && lines[0] == lines[2] == lines[|rows| + 3] == Border(widths)
            && lines[1] == Row(Styled(colors, headers, kinds), widths)
            && forall r :: 0 <= r < |rows| ==> lines[3 + r] == Row(rows[r], widths)
  {
    hide Border, Row, Styled, RowLines;
  }

  lemma MeasuredLength(headers: seq<string>, rows: seq<seq<string>>, widths: seq<nat>)
    requires Measured(headers, rows, widths)
    ensures |widths| == |headers|
  {
  }

  lemma {:induction false} SpanGrows(widths: seq<nat>, m: nat, n: nat)
    requires m <= n <= |widths|
    ensures Span(widths, m) <= Span(widths, n) && (m < n ==> Span(widths, m) < Span(widths, n))
  {
    if m < n {
      SpanGrows(widths, m, n - 1);
    }
  }

  /** A header stays within its column unless it is coloured and ends in a lone escape. */
  lemma HeaderFits(colors: Colors, headers: seq<string>, kinds: seq<HeaderKind>, rows: seq<seq<string>>, widths: seq<nat>, i: nat)
    requires Measured(headers, rows, widths) && i < |headers| && i < |kinds|
    requires !colors.enabled || kinds[i].PlainHeader? || Ends(Ground, headers[i]) != AfterEsc
    ensures VisibleWidth(Style(colors, headers[i], kinds[i])) <= widths[i]
  {
    WidthAtMost(Ground, headers[i]);
    ConstantsAreSgr();
    ColourKeepsWidth(colors, headers[i], BLUE);
    ColourKeepsWidth(colors, headers[i], GREEN);
    hide Encode, Wrap;
    assert |Encode(headers[i])| >= |headers[i]|;
  }

  /** A row of any length against the border. */
  lemma RowAgainstBorder(cells: seq<string>, widths: seq<nat>)
    requires |cells| <= |widths|
    ensures VisibleWidth(Row(cells, widths)) == VisibleWidth(Border(widths)) <==> Evens(cells, widths)
    ensures Fits(cells, widths) || (Shut(cells) && |cells| == |widths|) ==>
              (Evens(cells, widths) <==> |cells| == |widths| && Shut(cells) && Fits(cells, widths))
  {
    RowWidth(cells, widths, "");
    assert Row(cells, widths) + "" == Row(cells, widths);
    NoColumns(Ground);
    BorderWidth(widths);
    SpanGrows(widths, |cells|, |widths|);
    LostNothing(cells, widths, "");
    GainedNothing(cells, widths);
    hide Width, Row, Border, Balanced, Lost, Gained, Fits, Shut;
  }

  /** What the cells gain makes up for what they hide and for the columns they leave empty. */
  predicate Evens(cells: seq<string>, widths: seq<nat>)
    requires |cells| <= |widths|
  {
    Span(widths, |cells|) + Gained(cells, widths) == Span(widths, |widths|) + Lost(cells, widths, "")
  }

  lemma RowMatchesBorder(headers: seq<string>, rows: seq<seq<string>>, widths: seq<nat>, row: seq<string>)
    requires Measured(headers, rows, widths) && row in rows && |row| <= |headers|
    ensures VisibleWidth(Row(row, widths)) == VisibleWidth(Border(widths)) <==> Fills(headers, row)
  {
    hide VisibleWidth, Row, Border, Balanced, Shut, Evens;
    RowAgainstBorder(row, widths);
  }

  /**
   The lines of a table line up exactly when every row is full, every cell closes its sequences,
   and the header row comes out even. Cells never outgrow their columns, but a coloured header
   can; unless one does while another leaves a sequence open or a kind is missing, the header
   row comes out even exactly when it is full, closed and fits.
   */
  lemma TableLinesUp(colors: Colors, headers: seq<string>, kinds: seq<HeaderKind>, rows: seq<seq<string>>, widths: seq<nat>)
    requires Measured(headers, rows, widths) && forall row :: row in rows ==> |row| <= |headers|
    ensures var styled := Styled(colors, headers, kinds);
            && ((forall line :: line in Lines(colors, headers, kinds, rows, widths) ==> VisibleWidth(line) == VisibleWidth(Border(widths)))
                <==> Evens(styled, widths) && forall row :: row in rows ==> Fills(headers, row))
            && (Fits(styled, widths) || (Shut(styled) && |styled| == |headers|) ==>
                  (Evens(styled, widths) <==> Fills(headers, styled) && Fits(styled, widths)))
  {
    hide VisibleWidth, Row, Border, Balanced, Measured, Fits, Shut, Evens, Styled;
    MeasuredLength(headers, rows, widths);
    var drawn, styled := RowLines(rows, widths), Styled(colors, headers, kinds);
    RowAgainstBorder(styled, widths);
    AllLines(Border(widths), Row(styled, widths), drawn);
    forall r | 0 <= r < |rows|
      ensures VisibleWidth(drawn[r]) == VisibleWidth(Border(widths)) <==> Fills(headers, rows[r])
    {
      RowMatchesBorder(headers, rows, widths, rows[r]);
    }
    hide Fills;
    assert (forall row :: row in rows ==> Fills(headers, row)) <==> forall r :: 0 <= r < |rows| ==> Fills(headers, rows[r]);
  }

  /** A lone escape takes no room, but four columns once coloured. */
  lemma ColouredEscapeWidens(color: string)
    requires Sgr(color)
    ensures VisibleWidth([ESC]) == 0 && VisibleWidth(Wrap(Colors(true), [ESC], color)) == 4
  {
    assert color + [ESC] + RESET == color + ([ESC] + RESET);
    SgrSkipped(color, [ESC] + RESET);
    WidthConcat(Ground, [ESC], RESET);
    ResetWidth();
    assert [ESC][1..] == [];
  }

  /** A header of one lone escape, coloured, sticks out of its table. */
  lemma EscapedHeaderSticksOut(widths: seq<nat>)
    requires Measured([[ESC]], [], widths)
    ensures exists line :: line in Lines(Colors(true), [[ESC]], [PropertyHeader], [], widths) && VisibleWidth(line) != VisibleWidth(Border(widths))
  {
    var styled := Styled(Colors(true), [[ESC]], [PropertyHeader]);
    ConstantsAreSgr();
    ColouredEscapeWidens(BLUE);
    ColourKeepsWidth(Colors(true), [ESC], BLUE);
    TableLinesUp(Colors(true), [[ESC]], [PropertyHeader], [], widths);
    assert |Encode([ESC])| == 1;
    assert widths[0] == 1;
    assert !Fits(styled, widths);
  }

  /** A cell for every column, none of them leaving a sequence open. */
  predicate Fills(headers: seq<string>, row: seq<string>)
  {
    |row| == |headers| && Shut(row)
  }

  lemma AllLines(border: string, header: string, drawn: seq<string>)
    ensures (forall line :: line in [border, header, border] + drawn + [border] ==> VisibleWidth(line) == VisibleWidth(border))
            <==> VisibleWidth(header) == VisibleWidth(border) && forall r :: 0 <= r < |drawn| ==> VisibleWidth(drawn[r]) == VisibleWidth(border)
  {
    hide VisibleWidth;
    var lines := [border, header, border] + drawn + [border];
    assert lines[1] == header && lines[1] in lines;
    if forall line :: line in lines ==> VisibleWidth(line) == VisibleWidth(border) {
      forall r | 0 <= r < |drawn|
        ensures VisibleWidth(drawn[r]) == VisibleWidth(border)
      {
        assert lines[r + 3] == drawn[r] && lines[r + 3] in lines;
      }
    }
  }
}
