/**
 * The text `saveMap` writes: the map as a C array literal that a raycasting
 * renderer can paste into its source. The text is defined here the way the
 * save routine emits it, piece by piece in row-major order; a reader for
 * that text, which the editor itself does not have, shows the format keeps
 * every cell, and `SplitMapText` states its exact line structure.
 */
module MapFormat {
  import opened Options
  import opened Tiles
  import opened Text
  import opened WorldMap

  /** The declaration line, which states the dimensions (without its newline). */
  function HeaderLine(): (s: string)
    ensures '\n' !in s
  {
    "int worldMap[" + IntText(MapHeight) + "][" + IntText(MapWidth) + "] = {"
  }

  /** Spelled out, the declaration line is `int worldMap[24][24] = {`. */
  lemma HeaderLineIsLiteral()
    ensures HeaderLine() == "int worldMap[24][24] = {"
  {
  }

  /** The text of each cell of a row, as the stream writes it. */
  function IntTexts(row: seq<int>): (texts: seq<string>)
    ensures |texts| == |row|
  {
    seq(|row|, i requires 0 <= i < |row| => IntText(row[i]))
  }

  /** The first `n` cell texts of a row, each followed by a comma unless it is the row's last cell. */
  function ValuesText(texts: seq<string>, n: nat): (r: string)
    requires n <= |texts|
    ensures (forall i :: 0 <= i < n ==> '\n' !in texts[i]) ==> '\n' !in r
  {
    if n == 0 then ""
    else ValuesText(texts, n - 1) + texts[n - 1] + (if n - 1 < |texts| - 1 then "," else "")
  }

  /** Row `y` in braces, indented, followed by a comma unless it is the last row (without its newline). */
  function RowBody(g: seq<seq<int>>, y: int): (r: string)
    requires IsGrid(g) && 0 <= y < MapHeight
    ensures '\n' !in r
  {
    "  {" + ValuesText(IntTexts(g[y]), MapWidth) + "}" + (if y < MapHeight - 1 then "," else "")
  }

  /** The lines of the first `n` rows, each ended by a newline. */
  function RowsText(g: seq<seq<int>>, n: nat): string
    requires IsGrid(g) && n <= MapHeight
  {
    if n == 0 then "" else RowsText(g, n - 1) + RowBody(g, n - 1) + "\n"
  }

  /** The whole text that `saveMap` writes to its file. */
  function MapText(g: seq<seq<int>>): string
    requires IsGrid(g)
  {
    HeaderLine() + "\n" + RowsText(g, MapHeight) + "};\n"
  }

  /** Writing the next cell text, and its comma unless it is the last, extends the written values by one cell. */
  lemma ValuesTextStep(prefix: string, texts: seq<string>, x: nat, written: string, text: string)
    requires x < |texts|
    requires written == prefix + ValuesText(texts, x)
    requires text == written + texts[x] + (if x < |texts| - 1 then "," else "")
    ensures text == prefix + ValuesText(texts, x + 1)
  {
  }

  /** A piece without `c`, followed by one `c`, adds exactly one occurrence of `c` to the text before it. */
  lemma OccurrencesStep(before: string, piece: string, c: char)
    requires c !in piece
    ensures Occurrences(before + piece + [c], c) == Occurrences(before, c) + 1
  {
    OccurrencesAppend(before + piece, [c], c);
    OccurrencesAppend(before, piece, c);
    OccurrencesAbsent(piece, c);
    assert [c][..0] == [];
  }

  /** A row holds exactly one comma between consecutive cells: one per cell written mid-row, none after the last. */
  lemma {:induction false} ValuesTextCommas(texts: seq<string>, n: nat)
    requires n <= |texts|
    requires forall i :: 0 <= i < |texts| ==> ',' !in texts[i]
    ensures Occurrences(ValuesText(texts, n), ',') == if n == |texts| && n > 0 then n - 1 else n
  {
    if n > 0 {
      var before, t := ValuesText(texts, n - 1), texts[n - 1];
      ValuesTextCommas(texts, n - 1);
      if n - 1 < |texts| - 1 {
        assert ValuesText(texts, n) == before + t + [','];
        OccurrencesStep(before, t, ',');
      } else {
        assert ValuesText(texts, n) == before + t;
        OccurrencesAppend(before, t, ',');
        OccurrencesAbsent(t, ',');
      }
    }
  }

  /** A row line holds mapWidth - 1 commas between its cells, and one more unless it is the last row. */
  lemma RowBodyCommas(g: seq<seq<int>>, y: int)
    requires IsGrid(g) && 0 <= y < MapHeight
    ensures Occurrences(RowBody(g, y), ',') == (MapWidth - 1) + (if y < MapHeight - 1 then 1 else 0)
  {
    var texts := IntTexts(g[y]);
    var values := ValuesText(texts, MapWidth);
    assert forall i :: 0 <= i < |texts| ==> ',' !in texts[i];
    ValuesTextCommas(texts, MapWidth);
    OccurrencesAbsent("  {", ',');
    OccurrencesAppend("  {", values, ',');
    if y < MapHeight - 1 {
      assert RowBody(g, y) == "  {" + values + "}" + [','];
      OccurrencesStep("  {" + values, "}", ',');
    } else {
      assert RowBody(g, y) == "  {" + values + "}";
      OccurrencesAppend("  {" + values, "}", ',');
      OccurrencesAbsent("}", ',');
    }
  }

  /** The first `n` rows hold exactly `n` newlines: one ending each row line. */
  lemma {:induction false} RowsTextNewlines(g: seq<seq<int>>, n: nat)
    requires IsGrid(g) && n <= MapHeight
    ensures Occurrences(RowsText(g, n), '\n') == n
  {
    if n > 0 {
      RowsTextNewlines(g, n - 1);
      OccurrencesStep(RowsText(g, n - 1), RowBody(g, n - 1), '\n');
    }
  }

  /** The saved text holds exactly mapHeight + 2 newlines: after the declaration, after each row and after `};`. */
  lemma MapTextNewlines(g: seq<seq<int>>)
    requires IsGrid(g)
    ensures Occurrences(MapText(g), '\n') == MapHeight + 2
  {
    var h, rows := HeaderLine(), RowsText(g, MapHeight);
    var front := h + "\n" + rows;
    assert Occurrences(h + "\n", '\n') == 1 by {
      OccurrencesAppend(h, "\n", '\n');
      OccurrencesAbsent(h, '\n');
    }
    assert Occurrences(front, '\n') == MapHeight + 1 by {
      RowsTextNewlines(g, MapHeight);
      OccurrencesAppend(h + "\n", rows, '\n');
    }
    assert MapText(g) == front + "};" + ['\n'] by {
      Regroup3(front, "};", ['\n']);
    }
    OccurrencesStep(front, "};", '\n');
  }

  /** Concatenation regrouped to the left. */
  lemma Regroup3<X>(a: seq<X>, b: seq<X>, c: seq<X>)
    ensures a + (b + c) == a + b + c
  {
  }

  /** A row's pieces appended one by one after a prefix, regrouped into one line. */
  lemma AppendRow<X>(h: seq<X>, r: seq<X>, o: seq<X>, v: seq<X>, b: seq<X>, c: seq<X>, nl: seq<X>)
    ensures h + r + o + v + b + c + nl == h + (r + (o + v + b + c) + nl)
  {
  }

  /** Closing row `y` with its brace, its comma unless it is the last row, and a newline extends the written rows by one. */
  lemma RowsTextStep(header: string, g: seq<seq<int>>, y: nat, done: string, text: string)
    requires IsGrid(g) && y < MapHeight
    requires done == header + RowsText(g, y) + "  {" + ValuesText(IntTexts(g[y]), MapWidth)
    requires text == done + "}" + (if y < MapHeight - 1 then "," else "") + "\n"
    ensures text == header + RowsText(g, y + 1)
  {
    AppendRow(header, RowsText(g, y), "  {", ValuesText(IntTexts(g[y]), MapWidth), "}",
              if y < MapHeight - 1 then "," else "", "\n");
  }

  /** The row lines of a grid, in order. */
  function RowBodies(g: seq<seq<int>>): (bodies: seq<string>)
    requires IsGrid(g)
    ensures |bodies| == MapHeight
  {
    seq(MapHeight, y requires 0 <= y < MapHeight => RowBody(g, y))
  }

  /**
   * The intended line structure: the declaration, one line per row, the
   * closing `};`, and nothing after the final newline.
   */
  function Lines(g: seq<seq<int>>): (lines: seq<string>)
    requires IsGrid(g)
    ensures |lines| == MapHeight + 3
  {
    [HeaderLine()] + RowBodies(g) + ["};", ""]
  }

  /** The cells written so far are the cell texts joined by commas, plus a pending comma mid-row. */
  lemma {:induction false} ValuesTextIsJoin(texts: seq<string>, n: nat)
    requires 1 <= n <= |texts|
    ensures ValuesText(texts, n) == JoinSep(texts[..n], ',') + (if n < |texts| then "," else "")
  {
    var pending := if n < |texts| then "," else "";
    if n == 1 {
      assert texts[..1] == [texts[0]];
    } else {
      var before, t := JoinSep(texts[..n - 1], ','), texts[n - 1];
      assert ValuesText(texts, n - 1) == before + "," by {
        ValuesTextIsJoin(texts, n - 1);
      }
      assert ValuesText(texts, n) == ValuesText(texts, n - 1) + t + pending;
      assert JoinSep(texts[..n], ',') == before + [','] + t by {
        JoinSepSnoc(texts[..n - 1], t, ',');
        PrefixPlusNext(texts, n);
      }
    }
  }

  /** A complete row holds its cell texts separated by commas, with no trailing comma. */
  lemma RowBodyShape(g: seq<seq<int>>, y: int)
    requires IsGrid(g) && 0 <= y < MapHeight
    ensures RowBody(g, y) ==
      "  {" + JoinSep(IntTexts(g[y]), ',') + (if y < MapHeight - 1 then "}," else "}")
  {
    var texts := IntTexts(g[y]);
    var inner := JoinSep(texts, ',');
    ValuesTextIsJoin(texts, MapWidth);
    assert texts[..MapWidth] == texts;
    assert ValuesText(texts, MapWidth) == inner;
    if y < MapHeight - 1 {
      assert "  {" + inner + "}" + "," == "  {" + inner + "},";
    }
  }

  /** No line of the intended structure contains a newline. */
  lemma LinesHaveNoNewline(g: seq<seq<int>>)
    requires IsGrid(g)
    ensures forall i :: 0 <= i < |Lines(g)| ==> '\n' !in Lines(g)[i]
  {
    forall y | 0 <= y < MapHeight
      ensures '\n' !in RowBody(g, y)
    {
      RowBodyShape(g, y);
      JoinSepAvoids(IntTexts(g[y]), ',', '\n');
    }
  }

  /** Appending a line and its newline to newline-joined lines extends the join by that line. */
  lemma JoinLinesSnoc(h: string, done: string, lines: seq<string>, line: string)
    requires |lines| >= 1
    requires h + "\n" + done == JoinSep(lines, '\n') + "\n"
    ensures h + "\n" + (done + line + "\n") == JoinSep(lines + [line], '\n') + "\n"
  {
    JoinSepSnoc(lines, line, '\n');
    Regroup(h + "\n", done, JoinSep(lines, '\n'), "\n", line);
  }

  /** Regrouping concatenations: equal heads stay equal after the same tail is added. */
  lemma Regroup<X>(p: seq<X>, d: seq<X>, j: seq<X>, nl: seq<X>, l: seq<X>)
    requires p + d == j + nl
    ensures p + (d + l + nl) == j + nl + l + nl
  {
  }

  /** A first element followed by a prefix, extended by the prefix's next element. */
  lemma ExtendPrefix<X>(h: X, s: seq<X>, n: nat)
    requires 0 < n <= |s|
    ensures [h] + s[..n - 1] + [s[n - 1]] == [h] + s[..n]
  {
  }

  /** A prefix extended by the next element is the longer prefix. */
  lemma PrefixPlusNext<X>(s: seq<X>, n: nat)
    requires 0 < n <= |s|
    ensures s[..n - 1] + [s[n - 1]] == s[..n]
  {
  }

  /** A first line `h` and the first `n` rows are those lines joined by newlines, with a final newline. */
  lemma {:induction false} RowsTextIsJoin(g: seq<seq<int>>, n: nat, h: string)
    requires IsGrid(g) && n <= MapHeight
    ensures h + "\n" + RowsText(g, n) == JoinSep([h] + RowBodies(g)[..n], '\n') + "\n"
  {
    var bodies := RowBodies(g);
    if n == 0 {
      assert [h] + bodies[..0] == [h];
    } else {
      var rows, body := RowsText(g, n - 1), RowBody(g, n - 1);
      assert RowsText(g, n) == rows + body + "\n";
      assert body == bodies[n - 1];
      RowsTextIsJoin(g, n - 1, h);
      var prefix := [h] + bodies[..n - 1];
      JoinLinesSnoc(h, rows, prefix, body);
      ExtendPrefix(h, bodies, n);
    }
  }

  /**
   * The exact shape of the saved text: split at newlines, it is the
   * declaration line, then each row line in order (each one `  {` + its
   * cells joined by commas + `}`, followed by a comma except on the last
   * row), then `};`, then the empty rest after the final newline.
   */
  lemma SplitMapText(g: seq<seq<int>>)
    requires IsGrid(g)
    ensures MapText(g) == JoinSep(Lines(g), '\n')
    ensures Split(MapText(g), '\n') == Lines(g)
  {
    var h, bodies := HeaderLine(), RowBodies(g);
    RowsTextIsJoin(g, MapHeight, h);
    var full := [h] + bodies;
    WholePrefix(h, bodies);
    JoinSepSnoc(full, "};", '\n');
    JoinSepSnoc(full + ["};"], "", '\n');
    AppendTwo(full, "};", "");
    assert full + ["};", ""] == Lines(g);
    calc {
      MapText(g);
      (h + "\n" + RowsText(g, MapHeight)) + "};\n";
      JoinSep(full, '\n') + "\n" + "};" + "\n";
      JoinSep(full + ["};"], '\n') + "\n" + "";
      JoinSep(Lines(g), '\n');
    }
    LinesHaveNoNewline(g);
    SplitJoinSep(Lines(g), '\n');
  }

  /** The prefix of a sequence up to its length is the whole sequence, after a first element. */
  lemma WholePrefix<X>(h: X, s: seq<X>)
    ensures [h] + s[..|s|] == [h] + s
  {
  }

  /** Appending two elements one at a time is appending the pair. */
  lemma AppendTwo<X>(s: seq<X>, x: X, y: X)
    ensures s + [x] + [y] == s + [x, y]
  {
  }

  /** Reads a list of cell texts; fails if any of them is not an integer. */
  function ParseInts(cells: seq<string>): (r: Option<seq<int>>)
    ensures r.Some? ==> |r.value| == |cells|
  {
    if |cells| == 0 then Some([])
    else match ParseInts(cells[..|cells| - 1])
      case None => None
      case Some(vs) =>
        match ParseInt(cells[|cells| - 1])
        case None => None
        case Some(v) => Some(vs + [v])
  }

  /** Reads one row line; `last` says whether it must end without the separating comma. */
  function ParseRow(body: string, last: bool): (r: Option<seq<int>>)
    ensures r.Some? ==> |r.value| == MapWidth
  {
    var close := if last then "}" else "},";
    if |body| < 3 + |close| || body[..3] != "  {" || body[|body| - |close|..] != close then None
    else
      var cells := Split(body[3..|body| - |close|], ',');
      if |cells| != MapWidth then None else ParseInts(cells)
  }

  /** Reads the first `n` row lines. */
  function ParseRows(bodies: seq<string>, n: nat): (r: Option<seq<seq<int>>>)
    requires |bodies| == MapHeight && n <= MapHeight
    ensures r.Some? ==> |r.value| == n && forall y :: 0 <= y < n ==> |r.value[y]| == MapWidth
  {
    if n == 0 then Some([])
    else match ParseRows(bodies, n - 1)
      case None => None
      case Some(rows) =>
        match ParseRow(bodies[n - 1], n == MapHeight)
        case None => None
        case Some(row) => Some(rows + [row])
  }

  /** Reads a saved map back; any text that is not in the saved format is rejected. */
  function ParseMap(text: string): (r: Option<seq<seq<int>>>)
    ensures r.Some? ==> IsGrid(r.value)
  {
    var lines := Split(text, '\n');
    if |lines| != MapHeight + 3 || lines[0] != HeaderLine()
       || lines[MapHeight + 1] != "};" || lines[MapHeight + 2] != ""
    then None
    else ParseRows(lines[1..MapHeight + 1], MapHeight)
  }

  /** Cell texts that each read back as a value read back, together, as those values. */
  lemma {:induction false} ParseIntsOf(cells: seq<string>, row: seq<int>)
    requires |cells| == |row|
    requires forall i :: 0 <= i < |row| ==> ParseInt(cells[i]) == Some(row[i])
    ensures ParseInts(cells) == Some(row)
  {
    var n := |row|;
    if n > 0 {
      assert ParseInts(cells[..n - 1]) == Some(row[..n - 1]) by {
        ParseIntsOf(cells[..n - 1], row[..n - 1]);
      }
      assert ParseInts(cells) == Some(row[..n - 1] + [row[n - 1]]);
      PrefixPlusNext(row, n);
      assert row[..n] == row;
    }
  }

  /** The cell texts of any row read back as that row. */
  lemma ParseIntsRoundTrip(row: seq<int>)
    ensures ParseInts(IntTexts(row)) == Some(row)
  {
    var texts := IntTexts(row);
    forall i | 0 <= i < |row|
      ensures ParseInt(texts[i]) == Some(row[i])
    {
      IntTextRoundTrip(row[i]);
    }
    ParseIntsOf(texts, row);
  }

  /** A row line is read by stripping its frame and splitting the rest at commas. */
  lemma ParseFramedRow(inner: string, last: bool)
    ensures ParseRow("  {" + inner + (if last then "}" else "},"), last) ==
      var cells := Split(inner, ','); if |cells| != MapWidth then None else ParseInts(cells)
  {
  }

  /** Each saved row line reads back as that row. */
  lemma ParseRowRoundTrip(g: seq<seq<int>>, y: int)
    requires IsGrid(g) && 0 <= y < MapHeight
    ensures ParseRow(RowBody(g, y), y == MapHeight - 1) == Some(g[y])
  {
    var texts := IntTexts(g[y]);
    RowBodyShape(g, y);
    ParseFramedRow(JoinSep(texts, ','), y == MapHeight - 1);
    assert forall i :: 0 <= i < |texts| ==> ',' !in texts[i];
    SplitJoinSep(texts, ',');
    ParseIntsRoundTrip(g[y]);
  }

  lemma {:induction false} ParseRowsRoundTrip(g: seq<seq<int>>, n: nat)
    requires IsGrid(g) && n <= MapHeight
    ensures ParseRows(RowBodies(g), n) == Some(g[..n])
  {
    if n > 0 {
      var bodies := RowBodies(g);
      ParseRowsRoundTrip(g, n - 1);
      assert bodies[n - 1] == RowBody(g, n - 1);
      ParseRowRoundTrip(g, n - 1);
      assert (n == MapHeight) == (n - 1 == MapHeight - 1);
      assert ParseRows(bodies, n) == Some(g[..n - 1] + [g[n - 1]]);
      PrefixPlusNext(g, n);
    }
  }

  /** Reading the saved text back yields exactly the grid that was saved. */
  lemma MapTextRoundTrip(g: seq<seq<int>>)
    requires IsGrid(g)
    ensures ParseMap(MapText(g)) == Some(g)
  {
    SplitMapText(g);
    var lines := Lines(g);
    assert lines[1..MapHeight + 1] == RowBodies(g);
    ParseRowsRoundTrip(g, MapHeight);
    assert g[..MapHeight] == g;
  }

  /** Different grids are saved as different texts: no cell is lost. */
  lemma MapTextInjective(g1: seq<seq<int>>, g2: seq<seq<int>>)
    requires IsGrid(g1) && IsGrid(g2)
    ensures MapText(g1) == MapText(g2) <==> g1 == g2
  {
    MapTextRoundTrip(g1);
    MapTextRoundTrip(g2);
  }
}
