/** Rendering a list of bundle diffs as a Markdown table. */
module MarkdownDiff {
  import opened Strings
  import opened Sizes
  import opened Bundles

  datatype Compression = Gzip | Brotli

  /** The two formatters the renderer calls but whose definitions are not part of this
      model: `formatSize(compression, delta, { style: "markdown" })` and
      `formatPercent(delta)`. They are taken as arbitrary functions. */
  datatype Collaborators = Collaborators(
    formatSize: (Compression, SizeDelta) -> string,
    formatPercent: SizeDelta -> string)

  /** `num(value)`: a size as printed in the table, a number and a unit ending in `B`. */
  function Num(value: nat): (r: string)
    ensures |r| >= 2 && IsDigit(r[0]) && r[|r| - 1] == 'B'
  {
    PrettySize(value)
  }

  /** `sign(value)`: `+` for every value that is not negative, zero included. */
  function Sign(value: int): (r: string)
    ensures r == "+" <==> value >= 0
    ensures r == "-" <==> value < 0
  {
    if value >= 0 then "+" else "-"
  }

  function Abs(value: int): nat {
    if value >= 0 then value else -value
  }

  /** `diff(value)`: a signed change, sign first and then the size of its magnitude. */
  function Diff(value: int): (r: string)
    ensures |r| >= 3
    ensures r[0] == '+' <==> value >= 0
    ensures r[0] == '-' <==> value < 0
    ensures r[1..] == PrettySize(Abs(value))
  {
    Sign(value) + PrettySize(Abs(value))
  }

  /** `name.replace(/ /g, "&nbsp;")`: no space is left, a name without spaces is kept
      as it is, and nothing gets shorter. */
  function EscapeName(name: string): (r: string)
    ensures ' ' !in r
    ensures ' ' !in name ==> r == name
    ensures |r| >= |name|
  {
    if name == [] then []
    else
      assert name == [name[0]] + name[1..];
      (if name[0] == ' ' then "&nbsp;" else [name[0]]) + EscapeName(name[1..])
  }

  function CompressedColumn(h: Collaborators, it: BundleDiff): string {
    h.formatSize(Gzip, it.gzip) + "<br>" + h.formatSize(Brotli, it.brotli)
  }

  /** A table row made of cells: `| c1 | c2 | ... |`. */
  function Row(cells: seq<string>): (r: string)
    ensures StartsWith(r, "| ") && EndsWith(r, " |")
  {
    Framed("| ", Join(cells, " | "), " |");
    "| " + Join(cells, " | ") + " |"
  }

  /** A five-cell row is the source's row template. */
  lemma {:induction false} RowOfFive(a: string, b: string, c: string, d: string, e: string)
    ensures Row([a, b, c, d, e]) == "| " + a + " | " + b + " | " + c + " | " + d + " | " + e + " |"
  {
    var sep := " | ";
    assert [d, e][1..] == [e];
    assert Join([e], sep) == e;
    var j2 := Join([d, e], sep);
    assert j2 == d + sep + e;
    assert [c, d, e][1..] == [d, e];
    var j3 := Join([c, d, e], sep);
    assert j3 == c + sep + j2;
    assert [b, c, d, e][1..] == [c, d, e];
    var j4 := Join([b, c, d, e], sep);
    assert j4 == b + sep + j3;
    assert [a, b, c, d, e][1..] == [b, c, d, e];
    var j5 := Join([a, b, c, d, e], sep);
    assert j5 == a + sep + j4;
    assert Row([a, b, c, d, e]) == "| " + j5 + " |";
  }

  /** The cells of `renderAddedRow`: one per header column, the name marked as added,
      no old size, and always a change of +0.00%. */
  function AddedCells(h: Collaborators, it: BundleDiff): (r: seq<string>)
    ensures |r| == |HeaderCells|
    ensures EndsWith(r[0], " (added)") && StartsWith(r[2], "N/A \U{2192} ") && r[4] == "+0.00%"
  {
    var name := EscapeName(it.name);
    var sizeCol := "N/A \U{2192} **" + Num(it.raw.newSize) + "**";
    var percent := "+0.00%";
    var r := [name + " (added)", NatToString(|it.newFiles|) + " file(s)", sizeCol, CompressedColumn(h, it), percent];
    assert r[0][|r[0]| - 8..] == " (added)" && r[2][..6] == "N/A \U{2192} ";
    r
  }

  /** The cells of `renderRemovedRow`: one per header column, the name marked as
      removed, no new size, and N/A for the files, compressed sizes and change. */
  function RemovedCells(it: BundleDiff): (r: seq<string>)
    ensures |r| == |HeaderCells|
    ensures EndsWith(r[0], " (removed)") && EndsWith(r[2], " \U{2192} N/A")
    ensures r[1] == r[3] == r[4] == "N/A"
  {
    var name := EscapeName(it.name);
    var sizeCol := Num(it.raw.oldSize) + " \U{2192} N/A";
    var r := [name + " (removed)", "N/A", sizeCol, "N/A", "N/A"];
    assert r[0][|r[0]| - 10..] == " (removed)" && r[2][|r[2]| - 6..] == " \U{2192} N/A";
    r
  }

  /** The cells of `renderUpdatedRow`: one per header column, the name unmarked, and
      the change as the percent formatter prints it. */
  function UpdatedCells(h: Collaborators, it: BundleDiff): (r: seq<string>)
    ensures |r| == |HeaderCells|
    ensures r[0] == EscapeName(it.name) && r[4] == h.formatPercent(it.raw)
    ensures EndsWith(r[1], " file(s)") && EndsWith(r[2], ")")
  {
    var name := EscapeName(it.name);
    var sizeCol := Num(it.raw.oldSize) + " \U{2192} **" + Num(it.raw.newSize) + "** ("
      + Diff(it.raw.difference) + ")";
    var percent := h.formatPercent(it.raw);
    var r := [name, NatToString(|it.newFiles|) + " file(s)", sizeCol, CompressedColumn(h, it), percent];
    assert r[1][|r[1]| - 8..] == " file(s)" && r[2][|r[2]| - 1..] == ")";
    r
  }

  /** The cells of the row for one diff, by its status; every status has a row with
      the header's five columns. */
  function Cells(h: Collaborators, it: BundleDiff): (r: seq<string>)
    ensures |r| == |HeaderCells|
  {
    match it.status
    case Added => AddedCells(h, it)
    case Removed => RemovedCells(it)
    case Updated => UpdatedCells(h, it)
  }

  /** The row for one diff: whatever its status, it starts with `| ` and ends with ` |`. */
  function RenderRow(h: Collaborators, it: BundleDiff): (r: string)
    ensures StartsWith(r, "| ") && EndsWith(r, " |")
  {
    Row(Cells(h, it))
  }

  const Title: string := "## Bundle sizes"
  const HeaderCells: seq<string> := ["Bundle", "Files", "Size", "Compressed", "Change"]
  const Alignment: string := "|---|---|---:|---:|---:|"

  function Rows(h: Collaborators, results: seq<BundleDiff>): seq<string> {
    seq(|results|, i requires 0 <= i < |results| => RenderRow(h, results[i]))
  }

  /** `markdownFormat(results)`: the heading, the table header, then the rows joined
      by line breaks and a final line break. */
  function MarkdownFormat(h: Collaborators, results: seq<BundleDiff>): (r: string)
    ensures StartsWith(r, Title + "\n\n") && EndsWith(r, "\n")
  {
    var header := Title + "\n\n";
    var tableHeader := Row(HeaderCells) + "\n" + Alignment + "\n";
    var rows := Join(Rows(h, results), "\n");
    Framed(Title + "\n\n", tableHeader + rows, "\n");
    AppendAssoc(header, tableHeader, rows);
    header + tableHeader + rows + "\n"
  }

  // ---------------------------------------------------------------------------
  // Properties

  /** The added-row template, over its variable parts. */
  lemma AddedTemplate(name: string, files: string, num: string, comp: string)
    ensures Row([name + " (added)", files + " file(s)", "N/A \U{2192} **" + num + "**", comp, "+0.00%"])
      == "| " + name + " (added) | " + files + " file(s) | N/A \U{2192} **" + num + "** | "
         + comp + " | +0.00% |"
  {
    RowOfFive(name + " (added)", files + " file(s)", "N/A \U{2192} **" + num + "**", comp, "+0.00%");
    var p0 := "| " + name;
    assert "| " + (name + " (added)") + " | " == p0 + " (added) | " by {
      AppendAssoc(p0, " (added)", " | ");
      AppendAssoc("| ", name, " (added)");
    }
    var p1 := p0 + " (added) | " + files;
    assert p0 + " (added) | " + (files + " file(s)") + " | " == p1 + " file(s) | " by {
      AppendAssoc(p1, " file(s)", " | ");
      AppendAssoc(p0 + " (added) | ", files, " file(s)");
    }
    var p2 := p1 + " file(s) | N/A \U{2192} **" + num;
    assert p1 + " file(s) | " + ("N/A \U{2192} **" + num + "**") + " | " == p2 + "** | " by {
      AppendAssoc(p2, "**", " | ");
      AppendAssoc(p1 + " file(s) | ", "N/A \U{2192} **" + num, "**");
      AppendAssoc(p1 + " file(s) | ", "N/A \U{2192} **", num);
      AppendAssoc(p1, " file(s) | ", "N/A \U{2192} **");
    }
    var p3 := p2 + "** | " + comp;
    assert p3 + " | " + "+0.00%" + " |" == p3 + " | +0.00% |" by {
      AppendAssoc(p3 + " | ", "+0.00%", " |");
      AppendAssoc(p3, " | ", "+0.00%" + " |");
    }
  }

  /** An added row: the name marked "(added)", the number of new files, no old size,
      and always a change of +0.00%. */
  lemma AddedRowColumns(h: Collaborators, it: BundleDiff)
    requires it.status == Added
    ensures RenderRow(h, it) == "| " + EscapeName(it.name) + " (added) | "
      + NatToString(|it.newFiles|) + " file(s) | N/A \U{2192} **" + Num(it.raw.newSize) + "** | "
      + CompressedColumn(h, it) + " | +0.00% |"
    ensures EndsWith(RenderRow(h, it), " | +0.00% |")
  {
    AddedTemplate(EscapeName(it.name), NatToString(|it.newFiles|), Num(it.raw.newSize), CompressedColumn(h, it));
    var r := RenderRow(h, it);
    var tail := " | +0.00% |";
    assert r[|r| - |tail|..] == tail;
  }

  /** The removed-row template, over its variable parts. */
  lemma RemovedTemplate(name: string, num: string)
    ensures Row([name + " (removed)", "N/A", num + " \U{2192} N/A", "N/A", "N/A"])
      == "| " + name + " (removed) | N/A | " + num + " \U{2192} N/A | N/A | N/A |"
  {
    RowOfFive(name + " (removed)", "N/A", num + " \U{2192} N/A", "N/A", "N/A");
    var p0 := "| " + name;
    assert "| " + (name + " (removed)") + " | " + "N/A" + " | " == p0 + " (removed) | N/A | " by {
      AppendAssoc("| ", name, " (removed)");
      AppendAssoc(p0, " (removed)", " | ");
      AppendAssoc(p0, " (removed)" + " | ", "N/A");
      AppendAssoc(p0, " (removed)" + " | " + "N/A", " | ");
    }
    var p1 := p0 + " (removed) | N/A | " + num;
    assert p0 + " (removed) | N/A | " + (num + " \U{2192} N/A") + " | " + "N/A" + " | " + "N/A" + " |"
      == p1 + " \U{2192} N/A | N/A | N/A |" by {
      AppendAssoc(p0 + " (removed) | N/A | ", num, " \U{2192} N/A");
      AppendAssoc(p1, " \U{2192} N/A", " | ");
      AppendAssoc(p1, " \U{2192} N/A" + " | ", "N/A");
      AppendAssoc(p1, " \U{2192} N/A" + " | " + "N/A", " | ");
      AppendAssoc(p1, " \U{2192} N/A" + " | " + "N/A" + " | ", "N/A");
      AppendAssoc(p1, " \U{2192} N/A" + " | " + "N/A" + " | " + "N/A", " |");
    }
  }

  /** A removed row: the name marked "(removed)", the old size and N/A everywhere else. */
  lemma RemovedRowColumns(h: Collaborators, it: BundleDiff)
    requires it.status == Removed
    ensures RenderRow(h, it) == "| " + EscapeName(it.name) + " (removed) | N/A | "
      + Num(it.raw.oldSize) + " \U{2192} N/A | N/A | N/A |"
  {
    RemovedTemplate(EscapeName(it.name), Num(it.raw.oldSize));
  }

  /** The updated-row template, over its variable parts. */
  lemma UpdatedTemplate(name: string, files: string, sizeCol: string, comp: string, percent: string)
    ensures Row([name, files + " file(s)", sizeCol, comp, percent])
      == "| " + name + " | " + files + " file(s) | " + sizeCol + " | " + comp + " | " + percent + " |"
  {
    RowOfFive(name, files + " file(s)", sizeCol, comp, percent);
    var p0 := "| " + name + " | " + files;
    assert "| " + name + " | " + (files + " file(s)") + " | " == p0 + " file(s) | " by {
      AppendAssoc("| " + name + " | ", files, " file(s)");
      AppendAssoc(p0, " file(s)", " | ");
    }
  }

  /** An updated row: the name, the number of new files, old size, bold new size and
      the signed raw difference, the compressed sizes and the percent change. */
  lemma UpdatedRowColumns(h: Collaborators, it: BundleDiff)
    requires it.status == Updated
    ensures RenderRow(h, it) == "| " + EscapeName(it.name) + " | " + NatToString(|it.newFiles|)
      + " file(s) | " + Num(it.raw.oldSize) + " \U{2192} **" + Num(it.raw.newSize) + "** ("
      + Diff(it.raw.difference) + ")" + " | " + CompressedColumn(h, it) + " | "
      + h.formatPercent(it.raw) + " |"
  {
    var sizeCol := Num(it.raw.oldSize) + " \U{2192} **" + Num(it.raw.newSize) + "** ("
      + Diff(it.raw.difference) + ")";
    UpdatedTemplate(EscapeName(it.name), NatToString(|it.newFiles|), sizeCol,
      CompressedColumn(h, it), h.formatPercent(it.raw));
    var p := "| " + EscapeName(it.name) + " | " + NatToString(|it.newFiles|) + " file(s) | ";
    AppendAssoc(p, Num(it.raw.oldSize) + " \U{2192} **" + Num(it.raw.newSize) + "** ("
      + Diff(it.raw.difference), ")");
    AppendAssoc(p, Num(it.raw.oldSize) + " \U{2192} **" + Num(it.raw.newSize) + "** (",
      Diff(it.raw.difference));
    AppendAssoc(p, Num(it.raw.oldSize) + " \U{2192} **" + Num(it.raw.newSize), "** (");
    AppendAssoc(p, Num(it.raw.oldSize) + " \U{2192} **", Num(it.raw.newSize));
    AppendAssoc(p, Num(it.raw.oldSize), " \U{2192} **");
  }

  /** A removed row depends on the bundle's name and old raw size only. */
  lemma RemovedRowDependsOnNameAndOldSize(h1: Collaborators, h2: Collaborators, a: BundleDiff, b: BundleDiff)
    requires a.status == Removed && b.status == Removed
    requires a.name == b.name && a.raw.oldSize == b.raw.oldSize
    ensures RenderRow(h1, a) == RenderRow(h2, b)
  {
  }

  /** An added row does not depend on anything about the old bundle. */
  lemma AddedRowIgnoresOldSide(h: Collaborators, a: BundleDiff, oldFiles: seq<FileResult>, oldSize: nat, difference: int)
    requires a.status == Added
    ensures RenderRow(h, a) == RenderRow(h, a.(oldFiles := oldFiles, raw := a.raw.(oldSize := oldSize, difference := difference)))
  {
  }

  /** What follows the sign of a change has no sign of its own, and opposite changes
      print the same magnitude. */
  lemma DiffShape(value: int)
    ensures var d := Diff(value);
      && '-' !in d[1..] && '+' !in d[1..]
      && Diff(-value)[1..] == d[1..]
  {
    PrettySizeChars(Abs(value));
  }

  /** Escaping works character by character: it distributes over concatenation. */
  lemma {:induction false} EscapeNameAppend(a: string, b: string)
    ensures EscapeName(a + b) == EscapeName(a) + EscapeName(b)
  {
    if a != [] {
      var head := if a[0] == ' ' then "&nbsp;" else [a[0]];
      assert (a + b)[0] == a[0] && (a + b)[1..] == a[1..] + b;
      assert EscapeName(a + b) == head + EscapeName(a[1..] + b);
      EscapeNameAppend(a[1..], b);
      AppendAssoc(head, EscapeName(a[1..]), EscapeName(b));
    } else {
      assert a + b == b;
    }
  }

  /** A space is replaced by `&nbsp;`, any other character is kept. */
  lemma EscapeNameChar(c: char)
    ensures EscapeName([c]) == if c == ' ' then "&nbsp;" else [c]
  {
  }

  /** The text of one row has no line break when the bundle name and the collaborators'
      cells have none. */
  predicate SingleLine(h: Collaborators, it: BundleDiff) {
    && '\n' !in it.name
    && '\n' !in h.formatSize(Gzip, it.gzip)
    && '\n' !in h.formatSize(Brotli, it.brotli)
    && '\n' !in h.formatPercent(it.raw)
  }

  lemma {:induction false} EscapeNameKeepsLines(name: string)
    ensures '\n' in EscapeName(name) <==> '\n' in name
  {
    if name != [] {
      EscapeNameKeepsLines(name[1..]);
      assert name == [name[0]] + name[1..];
    }
  }

  /** The parts of a row the renderer prints itself never hold a line break. */
  lemma PrintedPartsSingleLine(it: BundleDiff)
    ensures '\n' !in Num(it.raw.oldSize) && '\n' !in Num(it.raw.newSize)
    ensures '\n' !in Diff(it.raw.difference)
    ensures '\n' !in NatToString(|it.newFiles|)
  {
    PrettySizeChars(it.raw.oldSize);
    PrettySizeChars(it.raw.newSize);
    PrettySizeChars(Abs(it.raw.difference));
    var files := NatToString(|it.newFiles|);
    assert forall i | 0 <= i < |files| :: IsDigit(files[i]);
  }

  /** A row of cells without line breaks has none. */
  lemma CellsSingleLine(cells: seq<string>)
    requires forall i | 0 <= i < |cells| :: '\n' !in cells[i]
    ensures '\n' !in Row(cells)
  {
    JoinExcludes(cells, " | ", '\n');
  }

  /** The added-row cells have no line break when their variable parts have none. */
  lemma AddedLine(name: string, files: string, num: string, comp: string)
    requires '\n' !in name && '\n' !in files && '\n' !in num && '\n' !in comp
    ensures '\n' !in Row([name + " (added)", files + " file(s)", "N/A \U{2192} **" + num + "**", comp, "+0.00%"])
  {
    CellsSingleLine([name + " (added)", files + " file(s)", "N/A \U{2192} **" + num + "**", comp, "+0.00%"]);
  }

  /** The removed-row cells have no line break when their variable parts have none. */
  lemma RemovedLine(name: string, num: string)
    requires '\n' !in name && '\n' !in num
    ensures '\n' !in Row([name + " (removed)", "N/A", num + " \U{2192} N/A", "N/A", "N/A"])
  {
    CellsSingleLine([name + " (removed)", "N/A", num + " \U{2192} N/A", "N/A", "N/A"]);
  }

  /** The updated-row cells have no line break when their variable parts have none. */
  lemma UpdatedLine(name: string, files: string, oldNum: string, newNum: string, diff: string,
                    comp: string, percent: string)
    requires '\n' !in name && '\n' !in files && '\n' !in oldNum && '\n' !in newNum
    requires '\n' !in diff && '\n' !in comp && '\n' !in percent
    ensures '\n' !in Row([name, files + " file(s)", oldNum + " \U{2192} **" + newNum + "** (" + diff + ")",
                          comp, percent])
  {
    CellsSingleLine([name, files + " file(s)", oldNum + " \U{2192} **" + newNum + "** (" + diff + ")",
                     comp, percent]);
  }

  lemma RowSingleLine(h: Collaborators, it: BundleDiff)
    requires SingleLine(h, it)
    ensures '\n' !in RenderRow(h, it)
  {
    EscapeNameKeepsLines(it.name);
    PrintedPartsSingleLine(it);
    var name, files := EscapeName(it.name), NatToString(|it.newFiles|);
    var oldNum, newNum := Num(it.raw.oldSize), Num(it.raw.newSize);
    match it.status {
      case Added =>
        AddedLine(name, files, newNum, CompressedColumn(h, it));
      case Removed =>
        RemovedLine(name, oldNum);
      case Updated =>
        UpdatedLine(name, files, oldNum, newNum, Diff(it.raw.difference), CompressedColumn(h, it),
                    h.formatPercent(it.raw));
    }
  }

  lemma JoinHeading(title: string, header: string, align: string)
    ensures Join([title, "", header, align], "\n") == title + "\n\n" + header + "\n" + align
  {
    var nl := "\n";
    var fixed := [title, "", header, align];
    assert fixed[1..] == ["", header, align];
    assert fixed[1..][1..] == [header, align];
    assert fixed[1..][1..][1..] == [align];
    assert Join([align], nl) == align;
    assert Join([header, align], nl) == header + nl + align;
    assert Join(["", header, align], nl) == "" + nl + (header + nl + align);
    assert "" + nl + (header + nl + align) == nl + header + nl + align;
    AppendAssoc(title + nl, nl + header + nl, align);
    AppendAssoc(title + nl, nl + header, nl);
    AppendAssoc(title + nl, nl, header);
  }

  /** The layout of the output, over its variable parts: a join of its lines. */
  lemma LayoutLines(title: string, header: string, align: string, rows: seq<string>)
    ensures title + "\n\n" + (header + "\n" + align + "\n") + Join(rows, "\n") + "\n"
      == Join([title, "", header, align] + (if rows == [] then [""] else rows) + [""], "\n")
  {
    var fixed := [title, "", header, align];
    var body := if rows == [] then [""] else rows;
    var nl := "\n";
    JoinAppend(fixed + body, [""], nl);
    JoinAppend(fixed, body, nl);
    assert Join([""], nl) == "";
    assert Join(body, nl) == Join(rows, nl);
    JoinHeading(title, header, align);
    var x := title + "\n\n";
    AppendAssoc(x, header + nl + align, nl);
    AppendAssoc(x, header + nl, align);
    AppendAssoc(x, header, nl);
  }

  /** The layout split back into lines, when none of the parts holds a line break. */
  lemma LayoutSplit(title: string, header: string, align: string, rows: seq<string>)
    requires '\n' !in title && '\n' !in header && '\n' !in align
    requires forall i | 0 <= i < |rows| :: '\n' !in rows[i]
    ensures Split(title + "\n\n" + (header + "\n" + align + "\n") + Join(rows, "\n") + "\n", '\n')
      == [title, "", header, align] + (if rows == [] then [""] else rows) + [""]
  {
    var fixed := [title, "", header, align];
    var body := if rows == [] then [""] else rows;
    var lines := fixed + body + [""];
    LayoutLines(title, header, align, rows);
    forall i | 0 <= i < |lines| ensures '\n' !in lines[i] {
      if i < |fixed| {
      } else if i < |fixed| + |body| {
        assert lines[i] == body[i - |fixed|];
      }
    }
    SplitJoin(lines, '\n');
  }

  /** The lines of the output: the heading, a blank line, the two header lines, one row
      per diff in input order (a blank line when there are none), and the empty text
      after the final line break. */
  lemma MarkdownLines(h: Collaborators, results: seq<BundleDiff>)
    requires forall i | 0 <= i < |results| :: SingleLine(h, results[i])
    ensures var rows := Rows(h, results);
      && |rows| == |results|
      && (forall i | 0 <= i < |results| :: rows[i] == RenderRow(h, results[i]))
      && Split(MarkdownFormat(h, results), '\n') ==
         [Title, "", Row(HeaderCells), Alignment] + (if results == [] then [""] else rows) + [""]
  {
    RowsSingleLine(h, results);
    HeaderSingleLine();
    MarkdownLayout(h, results);
    LayoutSplit(Title, Row(HeaderCells), Alignment, Rows(h, results));
  }

  lemma RowsSingleLine(h: Collaborators, results: seq<BundleDiff>)
    requires forall i | 0 <= i < |results| :: SingleLine(h, results[i])
    ensures forall i | 0 <= i < |Rows(h, results)| :: '\n' !in Rows(h, results)[i]
  {
    var rows := Rows(h, results);
    forall i | 0 <= i < |rows| ensures '\n' !in rows[i] {
      RowSingleLine(h, results[i]);
    }
  }

  lemma HeaderSingleLine()
    ensures '\n' !in Title && '\n' !in Row(HeaderCells) && '\n' !in Alignment
  {
    assert '\n' !in Title by {
      assert forall i | 0 <= i < |Title| :: Title[i] != '\n';
    }
    assert '\n' !in Alignment by {
      assert forall i | 0 <= i < |Alignment| :: Alignment[i] != '\n';
    }
    assert '\n' !in Row(HeaderCells) by {
      CellsSingleLine(HeaderCells);
    }
  }

  /** The output over its parts, as the layout lemmas take it. */
  lemma MarkdownLayout(h: Collaborators, results: seq<BundleDiff>)
    ensures MarkdownFormat(h, results)
      == Title + "\n\n" + (Row(HeaderCells) + "\n" + Alignment + "\n") + Join(Rows(h, results), "\n") + "\n"
  {
  }
}
