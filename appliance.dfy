/**
 * pdf_to_csv: the appliance consumption report. Each page's text is cut
 * into lines, the first eight (the page heading) are skipped, and every line
 * that still has six whitespace-separated fields after "*" and '"' are
 * removed becomes a row: the appliance name (the leading fields, joined by
 * single spaces, accents removed), then power, days, daily use, its unit
 * and consumption, with "-" standing for a use of 1 and for the unit "h".
 */
module Appliance {
  import opened Wrappers
  import opened Text

  /** The header row written before any page is read. */
  const Header: seq<string> := ["aparelho", "potencia", "dias", "utilizacao", "medida", "consumo"]

  /** Lines of a page that belong to its heading. */
  const HeadingLines: nat := 8

  /** The csv.writer: the rows written so far, in order. */
  class RowWriter {
    var rows: seq<seq<string>>

    constructor()
      ensures rows == []
    {
      rows := [];
    }

    method WriteRow(r: seq<string>)
      modifies this
      ensures rows == old(rows) + [r]
    {
      rows := rows + [r];
    }
  }

  /** The line with every "*" and '"' removed. */
  function Clean(line: string): (r: string)
    ensures '*' !in r && '"' !in r
  {
    var r := RemoveChar(RemoveChar(line, '*'), '"');
    FilterAvoids(RemoveChar(line, '*'), x => x != '"', '*');
    r
  }

  /** A field of a row: a token with neither "*" nor '"'. */
  predicate Field(f: string) {
    f != "" && NoSpace(f) && '*' !in f && '"' !in f
  }

  /** The row one line of a page gives, or None when it has fewer than six fields. */
  function ParseLine(line: string): (r: Option<seq<string>>)
    ensures r.None? <==> |Split(Clean(line))| < 6
    ensures r.Some? ==> |r.value| == 6
    ensures r.Some? ==> Field(r.value[1]) && Field(r.value[2]) && Field(r.value[3]) && Field(r.value[4]) && Field(r.value[5])
    ensures r.Some? ==> r.value[3] != "-" && r.value[4] != "-"
    ensures r.Some? ==> forall i :: 0 <= i < |r.value[0]| ==> !IsAccented(r.value[0][i]) && !IsCombiningMark(r.value[0][i])
  {
    var parts := Split(Clean(line));
    if |parts| < 6 then None
    else
      CleanFields(line);
      Some(RowOf(parts))
  }

  /** Every token of a cleaned line is a field. */
  lemma CleanFields(line: string)
    ensures var parts := Split(Clean(line)); forall i :: 0 <= i < |parts| ==> Field(parts[i])
  {
    SplitAvoids(Clean(line), '*');
    SplitAvoids(Clean(line), '"');
  }

  /**
   * The row of a line's fields: the leading fields joined by single spaces
   * with accents removed, then the last five, "-" standing for a use of 1
   * and for the unit "h".
   */
  function RowOf(parts: seq<string>): (row: seq<string>)
    requires |parts| >= 6 && forall i :: 0 <= i < |parts| ==> Field(parts[i])
    ensures |row| == 6 && Field(row[1]) && Field(row[2]) && Field(row[3]) && Field(row[4]) && Field(row[5])
    ensures row[3] != "-" && row[4] != "-"
    ensures forall i :: 0 <= i < |row[0]| ==> !IsAccented(row[0][i]) && !IsCombiningMark(row[0][i])
  {
    var n := |parts|;
    var usage := if parts[n - 3] == "-" then "1" else parts[n - 3];
    var unit := if parts[n - 2] == "-" then "h" else parts[n - 2];
    assert Field(parts[n - 5]) && Field(parts[n - 4]) && Field(parts[n - 1]);
    assert Field(usage) && Field(unit);
    [RemoveAccents(Join(parts[..n - 5], ' ')), parts[n - 5], parts[n - 4], usage, unit, parts[n - 1]]
  }

  /** The rows a run of lines gives, in order. */
  function RowsOf(lines: seq<string>): (rows: seq<seq<string>>)
    ensures |rows| <= |lines|
    ensures forall k :: 0 <= k < |rows| ==> |rows[k]| == 6 && rows[k][3] != "-" && rows[k][4] != "-"
  {
    if lines == [] then []
    else
      var last := lines[|lines| - 1];
      RowsOf(lines[..|lines| - 1]) + LineRows(last)
  }

  /** The row one line gives, if any. */
  function LineRows(line: string): (rows: seq<seq<string>>)
    ensures |rows| <= 1
    ensures forall k :: 0 <= k < |rows| ==> |rows[k]| == 6 && rows[k][3] != "-" && rows[k][4] != "-"
  {
    match ParseLine(line)
    case Some(r) => [r]
    case None => []
  }

  lemma RowsOfStep(lines: seq<string>, j: nat)
    requires j < |lines|
    ensures RowsOf(lines[..j + 1]) == RowsOf(lines[..j]) + LineRows(lines[j])
  {
    assert lines[..j + 1][..j] == lines[..j];
  }

  /** lines[8:] */
  function Body(text: string): seq<string> {
    var ls := Lines(text);
    if |ls| <= HeadingLines then [] else ls[HeadingLines..]
  }

  /** The rows of every page, page after page; a page without text gives none. */
  function Extract(pages: seq<Option<string>>): (rows: seq<seq<string>>)
    ensures forall k :: 0 <= k < |rows| ==> |rows[k]| == 6 && rows[k][3] != "-" && rows[k][4] != "-"
  {
    if pages == [] then []
    else
      Extract(pages[..|pages| - 1]) + PageRows(pages[|pages| - 1])
  }

  /** The rows of one page; a page whose text is missing or empty gives none. */
  function PageRows(page: Option<string>): (rows: seq<seq<string>>)
    ensures forall k :: 0 <= k < |rows| ==> |rows[k]| == 6 && rows[k][3] != "-" && rows[k][4] != "-"
  {
    if page.None? || page.value == "" then [] else RowsOf(Body(page.value))
  }

  lemma ExtractStep(pages: seq<Option<string>>, p: nat)
    requires p < |pages|
    ensures Extract(pages[..p + 1]) == Extract(pages[..p]) + PageRows(pages[p])
  {
    assert pages[..p + 1][..p] == pages[..p];
  }

  /** pdf_to_csv over the pages' extracted text: the header, then every row in document order. */
  method PdfToCsv(pages: seq<Option<string>>) returns (w: RowWriter)
    ensures fresh(w)
    ensures w.rows == [Header] + Extract(pages)
  {
    w := new RowWriter();
    w.WriteRow(Header);
    assert Extract(pages[..0]) == [];
    for p := 0 to |pages|
      invariant w.rows == [Header] + Extract(pages[..p])
    {
      ExtractStep(pages, p);
      ghost var before := w.rows;
      var text := pages[p];
      if text.Some? && text.value != "" {
        WriteLines(w, Body(text.value));
      }
      assert w.rows == before + PageRows(pages[p]);
      AppendAssoc([Header], Extract(pages[..p]), PageRows(pages[p]));
    }
    assert pages[..|pages|] == pages;
  }

  /** Concatenation regroups; kept as a lemma so the loops above and below see only this instance. */
  lemma AppendAssoc<T>(a: seq<T>, b: seq<T>, c: seq<T>)
    ensures (a + b) + c == a + (b + c)
  {
  }

  /** The inner loop: every line of a page's body that parses is written, in order. */
  method WriteLines(w: RowWriter, lines: seq<string>)
    modifies w
    ensures w.rows == old(w.rows) + RowsOf(lines)
  {
    for j := 0 to |lines|
      invariant w.rows == old(w.rows) + RowsOf(lines[..j])
    {
      RowsOfStep(lines, j);
      ghost var before := w.rows;
      var found := LineRows(lines[j]);
      if found != [] {
        w.WriteRow(found[0]);
        assert found == [found[0]];
      }
      assert w.rows == before + found;
      AppendAssoc(old(w.rows), RowsOf(lines[..j]), LineRows(lines[j]));
    }
    assert lines[..|lines|] == lines;
  }

  // ------------------------------------------------------------ what the extractor promises

  /** Rows come out in the order of their lines: a longer text only adds rows at the end. */
  lemma {:induction false} RowsOfAppend(a: seq<string>, b: seq<string>)
    ensures RowsOf(a + b) == RowsOf(a) + RowsOf(b)
  {
    if b != [] {
      var init := b[..|b| - 1];
      var last := b[|b| - 1];
      assert (a + b)[..|a + b| - 1] == a + init;
      assert RowsOf(a + b) == RowsOf(a + init) + LineRows(last);
      RowsOfAppend(a, init);
      AppendAssoc(RowsOf(a), RowsOf(init), LineRows(last));
    } else {
      assert a + b == a;
    }
  }

  /** Pages are read in order: the rows of two runs of pages are those of the first, then the second. */
  lemma {:induction false} ExtractAppend(a: seq<Option<string>>, b: seq<Option<string>>)
    ensures Extract(a + b) == Extract(a) + Extract(b)
  {
    if b != [] {
      var init := b[..|b| - 1];
      var last := b[|b| - 1];
      assert (a + b)[..|a + b| - 1] == a + init;
      assert Extract(a + b) == Extract(a + init) + PageRows(last);
      ExtractAppend(a, init);
      AppendAssoc(Extract(a), Extract(init), PageRows(last));
    } else {
      assert a + b == a;
    }
  }

  /** Pages whose text is missing or empty add no row. */
  lemma BlankPages(pages: seq<Option<string>>)
    requires forall p :: 0 <= p < |pages| ==> pages[p].None? || pages[p].value == ""
    ensures Extract(pages) == []
  {
    if pages != [] {
      BlankPages(pages[..|pages| - 1]);
    }
  }

  /**
   * The first eight lines of a page never give a row: a page written as a
   * heading of eight lines and then a body gives exactly the body's rows.
   */
  lemma HeadingSkipped(heading: seq<string>, body: seq<string>)
    requires |heading| == HeadingLines && body != []
    requires forall i :: 0 <= i < |heading| ==> '\n' !in heading[i]
    requires forall i :: 0 <= i < |body| ==> '\n' !in body[i]
    ensures Body(Join(heading + body, '\n')) == body
  {
    var ls := heading + body;
    JoinLines(ls);
    assert ls[HeadingLines..] == body;
  }

  /** A word of a report line: not blank, no whitespace, no "*" and no '"'. */
  predicate Plain(w: string) {
    w != [] && NoSpace(w) && '*' !in w && '"' !in w
  }

  /** A line of words (none blank, none with "*" or '"') reads back field by field. */
  lemma ParseWords(ws: seq<string>)
    requires |ws| >= 6
    requires forall i :: 0 <= i < |ws| ==> Plain(ws[i])
    ensures var n := |ws|;
      ParseLine(Join(ws, ' ')) == Some([RemoveAccents(Join(ws[..n - 5], ' ')), ws[n - 5], ws[n - 4],
        if ws[n - 3] == "-" then "1" else ws[n - 3], if ws[n - 2] == "-" then "h" else ws[n - 2], ws[n - 1]])
  {
    var line := Join(ws, ' ');
    JoinAvoids(ws, ' ', '*');
    JoinAvoids(ws, ' ', '"');
    FilterAllKept(line, x => x != '*');
    FilterAllKept(line, x => x != '"');
    assert Clean(line) == line;
    SplitJoin(ws);
  }

  /** Joining adds only separators. */
  lemma {:induction false} JoinAvoids(ws: seq<string>, sep: char, c: char)
    requires c != sep && forall i :: 0 <= i < |ws| ==> c !in ws[i]
    ensures c !in Join(ws, sep)
  {
    if |ws| > 1 {
      JoinAvoids(ws[1..], sep, c);
    }
  }

  /** Fewer than six fields give no row, whatever they are. */
  lemma ShortLineSkipped(ws: seq<string>)
    requires |ws| < 6
    requires forall i :: 0 <= i < |ws| ==> Plain(ws[i])
    ensures ParseLine(Join(ws, ' ')).None?
  {
    var line := Join(ws, ' ');
    JoinAvoids(ws, ' ', '*');
    JoinAvoids(ws, ' ', '"');
    FilterAllKept(line, x => x != '*');
    FilterAllKept(line, x => x != '"');
    assert Clean(line) == line;
    SplitJoin(ws);
  }

  /**
   * A report line whose use and unit are "-": the name is every word before
   * the last five, the use reads as "1" and the unit as "h".
   */
  lemma DashedLine(name: seq<string>, power: string, days: string, kwh: string)
    requires |name| >= 1 && forall i :: 0 <= i < |name| ==> Plain(name[i])
    requires Plain(power) && Plain(days) && Plain(kwh)
    ensures ParseLine(Join(name + [power, days, "-", "-", kwh], ' ')) ==
      Some([RemoveAccents(Join(name, ' ')), power, days, "1", "h", kwh])
  {
    var ws := name + [power, days, "-", "-", kwh];
    DashedWords(name, power, days, kwh);
    ParseWords(ws);
  }

  /** The words of a dashed line, where they sit, and that each is plain. */
  lemma DashedWords(name: seq<string>, power: string, days: string, kwh: string)
    requires |name| >= 1 && forall i :: 0 <= i < |name| ==> Plain(name[i])
    requires Plain(power) && Plain(days) && Plain(kwh)
    ensures var ws := name + [power, days, "-", "-", kwh]; var n := |ws|;
      n >= 6 && (forall i :: 0 <= i < n ==> Plain(ws[i])) && ws[..n - 5] == name &&
      ws[n - 5] == power && ws[n - 4] == days && ws[n - 3] == "-" && ws[n - 2] == "-" && ws[n - 1] == kwh
  {
    var tail := [power, days, "-", "-", kwh];
    var ws := name + tail;
    var n := |ws|;
    assert ws[..n - 5] == name;
    DashPlain("-");
    assert Plain(tail[0]) && Plain(tail[1]) && Plain(tail[4]);
    assert Plain(tail[2]) && Plain(tail[3]);
    forall i | 0 <= i < n ensures Plain(ws[i]) {
      if i < |name| {
        assert ws[i] == name[i];
      } else {
        var k := i - |name|;
        assert ws[i] == tail[k];
        assert k == 0 || k == 1 || k == 2 || k == 3 || k == 4;
      }
    }
    assert ws[n - 5] == power && ws[n - 4] == days && ws[n - 3] == "-" && ws[n - 2] == "-" && ws[n - 1] == kwh;
  }

  lemma DashPlain(d: string)
    requires d == "-"
    ensures Plain(d)
  {
    assert |d| == 1 && d[0] == '-';
    assert forall i :: 0 <= i < |d| ==> d[i] == '-';
  }
}
