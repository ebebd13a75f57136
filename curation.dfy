/** The batch curation script of the Market-and-Sell category: the curated
    data for one process page, the Markdown table rows it renders, and the
    chain of placeholder rewrites `curateFile` applies to the page text. */
module Curation {
  import opened Seqs
  import opened Text

  // ---- the curated data ----

  datatype GraphDl = GraphDl(actor: string, result: string)

  /** `CuratedData`: every field is required except `overview`. */
  datatype CuratedData = CuratedData(
    description: string,
    overview: Option<string>,
    hierarchy: string,
    graphdl: GraphDl,
    actions: seq<(string, string)>,
    events: seq<(string, string)>,
    searches: seq<(string, string)>,
    processFlow: string,
    raci: seq<(string, string, string, string, string)>,
    relatedProcesses: seq<(string, string)>,
    relatedDepartments: seq<(string, string)>,
    relatedOccupations: seq<(string, string)>,
    kpis: seq<(string, string, string)>,
    usage: string)

  // ---- table rows: `| a | b |` ----

  /** The cells after the opening bar: ` c |` for each cell. */
  function CellText(cells: seq<string>): string {
    if cells == [] then "" else " " + cells[0] + " |" + CellText(cells[1..])
  }

  /** One Markdown table row: a bar, then each cell padded by one space on
      either side and closed by a bar. */
  function Row(cells: seq<string>): string {
    "|" + CellText(cells)
  }

  function Pad(c: string): string { " " + c + " " }

  /** Drops the one padding space on either side of a cell. */
  function Unpad(p: string): string {
    if |p| >= 2 then p[1..|p| - 1] else p
  }

  /** Reads the cells back from a row: the pieces between the bars, unpadded. */
  function CellsOf(row: string): seq<string> {
    var pieces := Split(row, '|');
    if |pieces| < 2 then [] else MapSeq(Unpad, pieces[1..|pieces| - 1])
  }

  predicate NoBar(cells: seq<string>) {
    forall i :: 0 <= i < |cells| ==> '|' !in cells[i]
  }

  /** The text after the opening bar is the padded cells joined by bars,
      followed by an empty piece. */
  lemma {:induction false} CellTextAsJoin(cells: seq<string>)
    ensures CellText(cells) == Join(MapSeq(Pad, cells) + [""], "|")
  {
    if cells != [] {
      CellTextAsJoin(cells[1..]);
      var pads := MapSeq(Pad, cells);
      assert pads == [Pad(cells[0])] + MapSeq(Pad, cells[1..]);
      assert pads + [""] == [Pad(cells[0])] + (MapSeq(Pad, cells[1..]) + [""]);
      JoinCons(Pad(cells[0]), MapSeq(Pad, cells[1..]) + [""], "|");
    }
  }

  /** A row splits at its bars into an empty piece, the padded cells and an
      empty piece, provided no cell holds a bar. */
  lemma RowPieces(cells: seq<string>)
    requires NoBar(cells)
    ensures Split(Row(cells), '|') == [""] + MapSeq(Pad, cells) + [""]
  {
    var ws := [""] + MapSeq(Pad, cells) + [""];
    CellTextAsJoin(cells);
    assert ws == [""] + (MapSeq(Pad, cells) + [""]);
    JoinCons("", MapSeq(Pad, cells) + [""], "|");
    forall i | 0 <= i < |ws|
      ensures '|' !in ws[i]
    {
      if 0 < i < |ws| - 1 {
        assert ws[i] == " " + cells[i - 1] + " ";
      }
    }
    SplitJoin(ws, '|');
  }

  /** Rendering a row and reading it back gives the cells, one per tuple
      component, when no cell holds a bar. */
  lemma RowCells(cells: seq<string>)
    requires NoBar(cells)
    ensures CellsOf(Row(cells)) == cells
  {
    RowPieces(cells);
    var pieces := [""] + MapSeq(Pad, cells) + [""];
    assert pieces[1..|pieces| - 1] == MapSeq(Pad, cells);
    forall i | 0 <= i < |cells|
      ensures Unpad(Pad(cells[i])) == cells[i]
    {
      assert Pad(cells[i])[1..|Pad(cells[i])| - 1] == cells[i];
    }
  }

  /** One more cell after an opening bar: the cell text starts with the
      padded cell and its closing bar. */
  lemma RowCons(pre: string, c: string, cells: seq<string>)
    ensures pre + " " + c + " |" + CellText(cells) == pre + CellText([c] + cells)
  {
    assert ([c] + cells)[0] == c && ([c] + cells)[1..] == cells;
    var t := CellText(cells);
    assert CellText([c] + cells) == " " + c + " |" + t;
    assert pre + " " + c + " |" + t == pre + (" " + c + " |" + t);
  }

  /** `([a, d]) => `| ${a} | ${d} |``, the row of every two-column table. */
  function PairRow(p: (string, string)): (r: string)
    ensures r == "| " + p.0 + " | " + p.1 + " |"
  {
    assert "| " + p.0 + " | " + p.1 + " |" == Row([p.0, p.1]) by {
      RowCons("| " + p.0 + " |", p.1, []);
      assert "| " + p.0 + " | " + p.1 + " |" == "| " + p.0 + " |" + " " + p.1 + " |" + CellText([]);
      RowCons("|", p.0, [p.1]);
      assert "| " + p.0 + " |" == "|" + " " + p.0 + " |";
      assert "| " + p.0 + " |" + CellText([p.1]) == "|" + " " + p.0 + " |" + CellText([p.1]);
      assert [p.0] + [p.1] == [p.0, p.1];
    }
    Row([p.0, p.1])
  }

  /** `([a, r, ac, c, i]) => `| ${a} | ${r} | ${ac} | ${c} | ${i} |``, a RACI row. */
  function RaciRow(t: (string, string, string, string, string)): (r: string)
    ensures r == "| " + t.0 + " | " + t.1 + " | " + t.2 + " | " + t.3 + " | " + t.4 + " |"
  {
    assert "| " + t.0 + " | " + t.1 + " | " + t.2 + " | " + t.3 + " | " + t.4 + " |"
        == Row([t.0, t.1, t.2, t.3, t.4]) by {
      var x1 := "|" + " " + t.0 + " |";
      var x2 := x1 + " " + t.1 + " |";
      var x3 := x2 + " " + t.2 + " |";
      var x4 := x3 + " " + t.3 + " |";
      var x5 := x4 + " " + t.4 + " |";
      assert x5 == "| " + t.0 + " | " + t.1 + " | " + t.2 + " | " + t.3 + " | " + t.4 + " |";
      RowCons(x4, t.4, []);
      assert x5 + CellText([]) == x5;
      RowCons(x3, t.3, [t.4]);
      RowCons(x2, t.2, [t.3] + [t.4]);
      RowCons(x1, t.1, [t.2] + ([t.3] + [t.4]));
      RowCons("|", t.0, [t.1] + ([t.2] + ([t.3] + [t.4])));
      assert [t.0] + ([t.1] + ([t.2] + ([t.3] + [t.4]))) == [t.0, t.1, t.2, t.3, t.4];
    }
    Row([t.0, t.1, t.2, t.3, t.4])
  }

  /** `([k, d, u]) => `| ${k} | ${d} | ${u} |``, a KPI row. */
  function KpiRow(t: (string, string, string)): (r: string)
    ensures r == "| " + t.0 + " | " + t.1 + " | " + t.2 + " |"
  {
    assert "| " + t.0 + " | " + t.1 + " | " + t.2 + " |" == Row([t.0, t.1, t.2]) by {
      var x1 := "|" + " " + t.0 + " |";
      var x2 := x1 + " " + t.1 + " |";
      var x3 := x2 + " " + t.2 + " |";
      assert x3 == "| " + t.0 + " | " + t.1 + " | " + t.2 + " |";
      RowCons(x2, t.2, []);
      assert x3 + CellText([]) == x3;
      RowCons(x1, t.1, [t.2]);
      RowCons("|", t.0, [t.1] + [t.2]);
      assert [t.0] + ([t.1] + [t.2]) == [t.0, t.1, t.2];
    }
    Row([t.0, t.1, t.2])
  }

  /** A two-column row has exactly two cells, the pair's components. */
  lemma PairRowCells(p: (string, string))
    requires '|' !in p.0 && '|' !in p.1
    ensures CellsOf(PairRow(p)) == [p.0, p.1]
  {
    RowCells([p.0, p.1]);
  }

  /** A RACI row has exactly five cells, in the tuple's order. */
  lemma RaciRowCells(t: (string, string, string, string, string))
    requires '|' !in t.0 && '|' !in t.1 && '|' !in t.2 && '|' !in t.3 && '|' !in t.4
    ensures CellsOf(RaciRow(t)) == [t.0, t.1, t.2, t.3, t.4]
  {
    RowCells([t.0, t.1, t.2, t.3, t.4]);
  }

  /** A KPI row has exactly three cells, in the tuple's order. */
  lemma KpiRowCells(t: (string, string, string))
    requires '|' !in t.0 && '|' !in t.1 && '|' !in t.2
    ensures CellsOf(KpiRow(t)) == [t.0, t.1, t.2]
  {
    RowCells([t.0, t.1, t.2]);
  }

  // ---- tables: `rows.join('\n')` ----

  /** The cell text ends with a bar unless it is empty, and holds a line
      break only if a cell does. */
  lemma {:induction false} CellTextShape(cells: seq<string>)
    ensures CellText(cells) != [] ==> CellText(cells)[|CellText(cells)| - 1] == '|'
    ensures (forall i :: 0 <= i < |cells| ==> '\n' !in cells[i]) ==> '\n' !in CellText(cells)
  {
    if cells != [] {
      CellTextShape(cells[1..]);
      var h, t := " " + cells[0] + " |", CellText(cells[1..]);
      assert CellText(cells) == h + t;
      assert h[|h| - 1] == '|';
      if t != [] {
        assert (h + t)[|h + t| - 1] == t[|t| - 1];
      }
    }
  }

  /** Every row starts and ends with a bar; it holds a line break only if a
      cell does. */
  lemma RowShape(cells: seq<string>)
    ensures Row(cells)[0] == '|' && Row(cells)[|Row(cells)| - 1] == '|'
    ensures (forall i :: 0 <= i < |cells| ==> '\n' !in cells[i]) ==> '\n' !in Row(cells)
  {
    CellTextShape(cells);
    var t := CellText(cells);
    if t != [] {
      assert ("|" + t)[|"|" + t| - 1] == t[|t| - 1];
    }
  }

  /** The last piece of a join ends the joined text. */
  lemma {:induction false} JoinEndsWithLast(ws: seq<string>, sep: string)
    requires ws != []
    ensures |ws[|ws| - 1]| <= |Join(ws, sep)|
    ensures Join(ws, sep)[|Join(ws, sep)| - |ws[|ws| - 1]|..] == ws[|ws| - 1]
  {
    if |ws| > 1 {
      JoinEndsWithLast(ws[1..], sep);
    }
  }

  function Table(rows: seq<string>): string {
    Join(rows, "\n")
  }

  /** A table of rows renders one line per row, none empty, with no line
      break after the last: the text is empty exactly when there are no
      rows, ends with a bar otherwise, and splits back into the rows. */
  lemma TableLines(rows: seq<string>, cells: seq<seq<string>>)
    requires |rows| == |cells|
    requires forall i :: 0 <= i < |rows| ==> rows[i] == Row(cells[i])
    requires forall i, j :: 0 <= i < |cells| && 0 <= j < |cells[i]| ==> '\n' !in cells[i][j]
    ensures Table(rows) == [] <==> rows == []
    ensures rows != [] ==> Table(rows)[|Table(rows)| - 1] == '|'
    ensures rows != [] ==> Split(Table(rows), '\n') == rows
  {
    forall i | 0 <= i < |rows|
      ensures '\n' !in rows[i] && rows[i][|rows[i]| - 1] == '|'
    {
      RowShape(cells[i]);
    }
    if rows != [] {
      JoinEndsWithLast(rows, "\n");
      SplitJoin(rows, '\n');
    }
  }

  /** `pairs.map(...).join('\n')`: empty exactly when there are no pairs,
      and every pair's row stands in it. */
  function PairTable(pairs: seq<(string, string)>): (r: string)
    ensures r == [] <==> pairs == []
    ensures forall i :: 0 <= i < |pairs| ==> Includes(r, PairRow(pairs[i]))
  {
    JoinHoldsEach(MapSeq(PairRow, pairs), "\n");
    Table(MapSeq(PairRow, pairs))
  }

  /** `data.raci.map(...).join('\n')`: empty exactly when there are no
      entries, and every entry's row stands in it. */
  function RaciTable(raci: seq<(string, string, string, string, string)>): (r: string)
    ensures r == [] <==> raci == []
    ensures forall i :: 0 <= i < |raci| ==> Includes(r, RaciRow(raci[i]))
  {
    JoinHoldsEach(MapSeq(RaciRow, raci), "\n");
    Table(MapSeq(RaciRow, raci))
  }

  /** `data.kpis.map(...).join('\n')`: empty exactly when there are no KPIs,
      and every KPI's row stands in it. */
  function KpiTable(kpis: seq<(string, string, string)>): (r: string)
    ensures r == [] <==> kpis == []
    ensures forall i :: 0 <= i < |kpis| ==> Includes(r, KpiRow(kpis[i]))
  {
    JoinHoldsEach(MapSeq(KpiRow, kpis), "\n");
    Table(MapSeq(KpiRow, kpis))
  }

  /** A two-column table has one line per pair, the pair's row, and no
      trailing line break; no pairs render as the empty text. */
  lemma PairTableLines(pairs: seq<(string, string)>)
    requires forall i :: 0 <= i < |pairs| ==> '\n' !in pairs[i].0 && '\n' !in pairs[i].1
    ensures PairTable(pairs) == [] <==> pairs == []
    ensures pairs != [] ==> Split(PairTable(pairs), '\n') == MapSeq(PairRow, pairs)
    ensures pairs != [] ==> PairTable(pairs)[|PairTable(pairs)| - 1] == '|'
  {
    var cells := seq(|pairs|, i requires 0 <= i < |pairs| => [pairs[i].0, pairs[i].1]);
    TableLines(MapSeq(PairRow, pairs), cells);
  }

  /** A RACI table has one five-cell line per assignment. */
  lemma RaciTableLines(raci: seq<(string, string, string, string, string)>)
    requires forall i :: 0 <= i < |raci| ==>
      '\n' !in raci[i].0 && '\n' !in raci[i].1 && '\n' !in raci[i].2 && '\n' !in raci[i].3 && '\n' !in raci[i].4
    ensures RaciTable(raci) == [] <==> raci == []
    ensures raci != [] ==> Split(RaciTable(raci), '\n') == MapSeq(RaciRow, raci)
    ensures raci != [] ==> RaciTable(raci)[|RaciTable(raci)| - 1] == '|'
  {
    var cells := seq(|raci|, i requires 0 <= i < |raci| => [raci[i].0, raci[i].1, raci[i].2, raci[i].3, raci[i].4]);
    TableLines(MapSeq(RaciRow, raci), cells);
  }

  /** A KPI table has one three-cell line per indicator. */
  lemma KpiTableLines(kpis: seq<(string, string, string)>)
    requires forall i :: 0 <= i < |kpis| ==> '\n' !in kpis[i].0 && '\n' !in kpis[i].1 && '\n' !in kpis[i].2
    ensures KpiTable(kpis) == [] <==> kpis == []
    ensures kpis != [] ==> Split(KpiTable(kpis), '\n') == MapSeq(KpiRow, kpis)
    ensures kpis != [] ==> KpiTable(kpis)[|KpiTable(kpis)| - 1] == '|'
  {
    var cells := seq(|kpis|, i requires 0 <= i < |kpis| => [kpis[i].0, kpis[i].1, kpis[i].2]);
    TableLines(MapSeq(KpiRow, kpis), cells);
  }

  // ---- the description line: /^> TODO: Business-as-Code definition for .+$/m ----

  const DescriptionMarker: string := "> TODO: Business-as-Code definition for "

  /** Under the `m` flag `^` matches at the start or after a line terminator;
      `.+` needs at least one character other than a line terminator. */
  predicate DescriptionLineAt(s: string, i: int) {
    && 0 <= i
    && (i == 0 || (i <= |s| && IsLineTerminator(s[i - 1])))
    && OccursAt(s, DescriptionMarker, i)
    && i + |DescriptionMarker| < |s|
    && !IsLineTerminator(s[i + |DescriptionMarker|])
  }

  /** Where the line holding position `j` ends: at the next line terminator
      or at the end of the text. */
  function LineEnd(s: string, j: nat): (e: nat)
    requires j <= |s|
    ensures j <= e <= |s|
    ensures forall k :: j <= k < e ==> !IsLineTerminator(s[k])
    ensures e == |s| || IsLineTerminator(s[e])
    decreases |s| - j
  {
    if j == |s| || IsLineTerminator(s[j]) then j else LineEnd(s, j + 1)
  }

  function FindDescriptionLine(s: string, from: nat): (r: Option<nat>)
    ensures r.Some? ==> from <= r.value && DescriptionLineAt(s, r.value)
    ensures forall j :: from <= j && (r.None? || j < r.value) ==> !DescriptionLineAt(s, j)
    decreases |s| - from
  {
    if from >= |s| then None
    else if DescriptionLineAt(s, from) then Some(from)
    else FindDescriptionLine(s, from + 1)
  }

  /** The marker holds no line terminator, so it lies on one line. */
  lemma MarkerOneLine()
    ensures NoLineTerminator(DescriptionMarker)
  {
  }

  /** `i` is the first place where the description pattern matches. */
  ghost predicate FirstDescriptionLine(s: string, i: int) {
    DescriptionLineAt(s, i) && forall j :: 0 <= j < i ==> !DescriptionLineAt(s, j)
  }

  /** `s[i..e]` is the whole line from `i`: `.+$` stops at the first line
      terminator or at the end of the text. */
  predicate LineFrom(s: string, i: nat, e: nat) {
    i + |DescriptionMarker| < e <= |s| && NoLineTerminator(s[i..e]) && (e == |s| || IsLineTerminator(s[e]))
  }

  /** The first description line is replaced in full, up to its line
      terminator or the end of the text, by `> ` and the description; a
      text without such a line is left as it is. */
  function ReplaceDescriptionLine(s: string, description: string): (r: string)
    ensures (forall i :: !DescriptionLineAt(s, i)) ==> r == s
    ensures (exists i :: DescriptionLineAt(s, i)) ==>
      exists i: nat, e: nat :: FirstDescriptionLine(s, i) && LineFrom(s, i, e) &&
                               r == s[..i] + "> " + description + s[e..]
  {
    match FindDescriptionLine(s, 0)
    case None => s
    case Some(i) =>
      var e := LineEnd(s, i + |DescriptionMarker|);
      assert FirstDescriptionLine(s, i);
      assert LineFrom(s, i, e) by {
        var m := i + |DescriptionMarker|;
        assert s[i..m] == DescriptionMarker;
        MarkerOneLine();
        forall k | 0 <= k < e - i
          ensures !IsLineTerminator(s[i..e][k])
        {
          if k < |DescriptionMarker| {
            assert s[i..e][k] == DescriptionMarker[k];
          } else {
            assert s[i..e][k] == s[i + k];
          }
        }
      }
      s[..i] + "> " + description + s[e..]
  }

  // ---- lazy patterns under the `s` flag: /pre.+?post/s ----

  /** `pre` at `i`, then at least one character of any kind, then `post` at `k`. */
  predicate LazyAt(s: string, pre: string, post: string, i: int, k: int) {
    OccursAt(s, pre, i) && i + |pre| + 1 <= k && OccursAt(s, post, k)
  }

  /** The match at (`i`, `k`) starts leftmost and, from that start, ends
      nearest. */
  ghost predicate FirstLazy(s: string, pre: string, post: string, i: int, k: int) {
    && LazyAt(s, pre, post, i, k)
    && forall i', k' :: LazyAt(s, pre, post, i', k') ==> i < i' || (i == i' && k <= k')
  }

  /** `s.replace(/pre.+?post/s, rep)`: the leftmost start wins, and from it
      the shortest match; with no match the text is left as it is. */
  function ReplaceLazy(s: string, pre: string, post: string, rep: string): (r: string)
    ensures (forall i, k :: !LazyAt(s, pre, post, i, k)) ==> r == s
    ensures (exists i, k :: LazyAt(s, pre, post, i, k)) ==>
      exists i, k :: FirstLazy(s, pre, post, i, k) && r == s[..i] + rep + s[k + |post|..]
  {
    match IndexOf(s, pre, 0)
    case None => s
    case Some(i) =>
      match IndexOf(s, post, i + |pre| + 1)
      case None =>
        assert forall i', k' :: !LazyAt(s, pre, post, i', k') by {
          forall i', k' | OccursAt(s, pre, i') && i' + |pre| + 1 <= k'
            ensures !OccursAt(s, post, k')
          {
            assert i <= i';
          }
        }
        s
      case Some(k) =>
        assert FirstLazy(s, pre, post, i, k) by {
          forall i', k' | LazyAt(s, pre, post, i', k')
            ensures i < i' || (i == i' && k <= k')
          {
            assert i <= i';
          }
        }
        s[..i] + rep + s[k + |post|..]
  }

  // ---- the rewrites of `curateFile` ----

  const OverviewPlaceholder: string := "TODO: Add process overview"
  const HierarchyStart: string := "```mermaid\ngraph TD\n    A["
  const HierarchyEnd: string := "]\n    A --> B[TODO]\n```"
  const GraphDlPlaceholder: string := "  actor: TODO\n  result: TODO"
  const TwoColumnPlaceholder: string := "| TODO | TODO |"
  const ProcessFlowPlaceholder: string := "```mermaid\ngraph TD\n    A[TODO] --> B[TODO]\n```"
  const RaciPlaceholder: string := "| TODO | TODO | TODO | TODO | TODO |"
  const KpiPlaceholder: string := "| TODO | TODO | TODO |"
  const UsageStart: string := "```typescript\nimport { TODO } from '@headlessly/"
  const UsageEnd: string := "'\n\nconst client = TODO()\n\n// TODO: Example action calls\n```"

  /** One `content = content.replace(...)` of the script. */
  datatype Rewrite =
    | DescriptionLine(description: string)
    | Literal(pattern: string, replacement: string)
    | Lazy(start: string, end: string, replacement: string)

  /** The text holds what the rewrite looks for. */
  ghost predicate Present(w: Rewrite, s: string) {
    match w
    case DescriptionLine(_) => exists i :: DescriptionLineAt(s, i)
    case Literal(pattern, _) => Includes(s, pattern)
    case Lazy(start, end, _) => exists i, k :: LazyAt(s, start, end, i, k)
  }

  /** One rewrite; it changes nothing when what it looks for is absent. */
  function Apply(w: Rewrite, s: string): (r: string)
    ensures !Present(w, s) ==> r == s
  {
    match w
    case DescriptionLine(d) => ReplaceDescriptionLine(s, d)
    case Literal(pattern, replacement) => ReplaceFirst(s, pattern, replacement)
    case Lazy(start, end, replacement) => ReplaceLazy(s, start, end, replacement)
  }

  /** The rewrites applied in order, the first one first. */
  function ApplyAll(ws: seq<Rewrite>, s: string): string
    decreases |ws|
  {
    if ws == [] then s else Apply(ws[|ws| - 1], ApplyAll(ws[..|ws| - 1], s))
  }

  lemma ApplyAllSnoc(ws: seq<Rewrite>, w: Rewrite, s: string)
    ensures ApplyAll(ws + [w], s) == Apply(w, ApplyAll(ws, s))
  {
    assert (ws + [w])[..|ws|] == ws;
  }

  /** Rewrites none of which finds its placeholder leave the text unchanged. */
  lemma {:induction false} ApplyAllAbsent(ws: seq<Rewrite>, s: string)
    requires forall i :: 0 <= i < |ws| ==> !Present(ws[i], s)
    ensures ApplyAll(ws, s) == s
    decreases |ws|
  {
    if ws != [] {
      ApplyAllAbsent(ws[..|ws| - 1], s);
    }
  }

  /** A table placeholder row and the heading after it become the table
      and the same heading. */
  function TableRewrite(placeholder: string, table: string, heading: string): Rewrite {
    Literal(placeholder + "\n\n" + heading, table + "\n\n" + heading)
  }

  /** A table rewrite keeps its section heading: the result holds the
      heading exactly when the text did, and once the placeholder was found
      the table stands right before the heading. */
  lemma TableRewriteKeepsHeading(s: string, placeholder: string, table: string, heading: string)
    ensures Includes(Apply(TableRewrite(placeholder, table, heading), s), heading) <==> Includes(s, heading)
    ensures Includes(s, placeholder + "\n\n" + heading) ==>
      Includes(Apply(TableRewrite(placeholder, table, heading), s), table + "\n\n" + heading)
  {
    var pat, rep := placeholder + "\n\n" + heading, table + "\n\n" + heading;
    var r := Apply(TableRewrite(placeholder, table, heading), s);
    if Includes(s, pat) {
      IncludesMiddle(placeholder + "\n\n", heading, "");
      assert placeholder + "\n\n" + heading + "" == pat;
      IncludesTrans(s, pat, heading);
      IncludesMiddle(table + "\n\n", heading, "");
      assert table + "\n\n" + heading + "" == rep;
      IncludesTrans(r, rep, heading);
    }
  }

  function Fenced(language: string, body: string): string {
    "```" + language + "\n" + body + "\n```"
  }

  /** Whether `if (data.overview)` holds: present and not the empty string. */
  predicate HasOverview(data: CuratedData) {
    data.overview.Some? && data.overview.value != ""
  }

  /** The rewrites of `curateFile`, in the order the script applies them. */
  function Recipe(data: CuratedData): (r: seq<Rewrite>)
    ensures |r| == if HasOverview(data) then 14 else 13
    ensures r[0] == DescriptionLine(data.description)
    ensures r[|r| - 1] == Lazy(UsageStart, UsageEnd, Fenced("typescript", data.usage))
  {
    RecipeHead(data) + RecipeTail(data)
  }

  /** The rewrites up to the searches table: the description line first,
      the overview only when there is one, the searches table last. */
  function RecipeHead(data: CuratedData): (r: seq<Rewrite>)
    ensures |r| == if HasOverview(data) then 7 else 6
    ensures r[0] == DescriptionLine(data.description)
    ensures r[1] == if HasOverview(data) then Literal(OverviewPlaceholder, data.overview.value)
                    else Lazy(HierarchyStart, HierarchyEnd, Fenced("mermaid", data.hierarchy))
    ensures r[|r| - 1] == TableRewrite(TwoColumnPlaceholder, PairTable(data.searches), "## Process Flow")
  {
    [DescriptionLine(data.description)]
    + (if HasOverview(data) then [Literal(OverviewPlaceholder, data.overview.value)] else [])
    + [Lazy(HierarchyStart, HierarchyEnd, Fenced("mermaid", data.hierarchy))]
    + [Literal(GraphDlPlaceholder, "  actor: " + data.graphdl.actor + "\n  result: " + data.graphdl.result)]
    + [TableRewrite(TwoColumnPlaceholder, PairTable(data.actions), "## Events")]
    + [TableRewrite(TwoColumnPlaceholder, PairTable(data.events), "## Searches")]
    + [TableRewrite(TwoColumnPlaceholder, PairTable(data.searches), "## Process Flow")]
  }

  /** The rewrites from the process flow on: seven of them, whatever the
      overview, from the process-flow diagram to the usage block. */
  function RecipeTail(data: CuratedData): (r: seq<Rewrite>)
    ensures |r| == 7
    ensures r[0] == Literal(ProcessFlowPlaceholder, Fenced("mermaid", data.processFlow))
    ensures r[6] == Lazy(UsageStart, UsageEnd, Fenced("typescript", data.usage))
  {
    [Literal(ProcessFlowPlaceholder, Fenced("mermaid", data.processFlow))]
    + [TableRewrite(RaciPlaceholder, RaciTable(data.raci), "## Related Processes")]
    + [TableRewrite(TwoColumnPlaceholder, PairTable(data.relatedProcesses), "## Related Departments")]
    + [TableRewrite(TwoColumnPlaceholder, PairTable(data.relatedDepartments), "## Related Occupations")]
    + [TableRewrite(TwoColumnPlaceholder, PairTable(data.relatedOccupations), "## KPIs")]
    + [TableRewrite(KpiPlaceholder, KpiTable(data.kpis), "## Usage")]
    + [Lazy(UsageStart, UsageEnd, Fenced("typescript", data.usage))]
  }

  /** The overview placeholder is rewritten only when `overview` is present
      and not empty, and then right after the description line; otherwise
      the recipe has one step less. */
  lemma OverviewOnlyWhenPresent(data: CuratedData)
    ensures |Recipe(data)| == if HasOverview(data) then 14 else 13
    ensures (Recipe(data)[1].Literal? && Recipe(data)[1].pattern == OverviewPlaceholder) <==> HasOverview(data)
    ensures HasOverview(data) ==> Recipe(data)[1] == Literal(OverviewPlaceholder, data.overview.value)
  {
    var h, t := RecipeHead(data), RecipeTail(data);
    assert Recipe(data)[1] == (h + t)[1] == h[1];
  }

  /** `content = content.replace(...)` for one rewrite, recording it among
      the rewrites done so far. */
  method Step(w: Rewrite, s: string, ghost done: seq<Rewrite>, ghost content: string)
    returns (r: string, ghost done': seq<Rewrite>)
    requires s == ApplyAll(done, content)
    ensures done' == done + [w]
    ensures r == Apply(w, s) && r == ApplyAll(done', content)
  {
    r := Apply(w, s);
    done' := done + [w];
    ApplyAllSnoc(done, w, content);
  }

  /** Rewriting with `a` and then with `b` is rewriting with `a + b`. */
  lemma {:induction false} ApplyAllAppend(a: seq<Rewrite>, b: seq<Rewrite>, s: string)
    ensures ApplyAll(a + b, s) == ApplyAll(b, ApplyAll(a, s))
    decreases |b|
  {
    if b == [] {
      assert a + b == a;
    } else {
      var n := |b| - 1;
      var init := b[..n];
      assert b == init + [b[n]];
      assert a + b == (a + init) + [b[n]];
      ApplyAllSnoc(a + init, b[n], s);
      ApplyAllSnoc(init, b[n], ApplyAll(a, s));
      ApplyAllAppend(a, init, s);
    }
  }

  /** The first half of `curateFile`'s rewriting, up to the searches table. */
  method CurateHead(content: string, data: CuratedData) returns (r: string)
    ensures r == ApplyAll(RecipeHead(data), content)
  {
    ghost var done: seq<Rewrite> := [];
    r := content;
    var w: Rewrite;

    w := DescriptionLine(data.description);
    r, done := Step(w, r, done, content);
    assert done == [w];

    if data.overview.Some? && data.overview.value != "" {
      w := Literal(OverviewPlaceholder, data.overview.value);
      r, done := Step(w, r, done, content);
    }
    assert done == [DescriptionLine(data.description)]
      + (if HasOverview(data) then [Literal(OverviewPlaceholder, data.overview.value)] else []);

    w := Lazy(HierarchyStart, HierarchyEnd, Fenced("mermaid", data.hierarchy));
    r, done := Step(w, r, done, content);

    w := Literal(GraphDlPlaceholder, "  actor: " + data.graphdl.actor + "\n  result: " + data.graphdl.result);
    r, done := Step(w, r, done, content);

    var actionsTable := PairTable(data.actions);
    w := TableRewrite(TwoColumnPlaceholder, actionsTable, "## Events");
    r, done := Step(w, r, done, content);

    var eventsTable := PairTable(data.events);
    w := TableRewrite(TwoColumnPlaceholder, eventsTable, "## Searches");
    r, done := Step(w, r, done, content);

    var searchesTable := PairTable(data.searches);
    w := TableRewrite(TwoColumnPlaceholder, searchesTable, "## Process Flow");
    r, done := Step(w, r, done, content);
    assert done == RecipeHead(data);
  }

  /** The second half of `curateFile`'s rewriting, from the process flow on. */
  method CurateTail(s: string, data: CuratedData) returns (r: string)
    ensures r == ApplyAll(RecipeTail(data), s)
  {
    ghost var done: seq<Rewrite> := [];
    r := s;
    var w: Rewrite;

    w := Literal(ProcessFlowPlaceholder, Fenced("mermaid", data.processFlow));
    r, done := Step(w, r, done, s);
    assert done == [w];

    var raciTable := RaciTable(data.raci);
    w := TableRewrite(RaciPlaceholder, raciTable, "## Related Processes");
    r, done := Step(w, r, done, s);

    var relProcesses := PairTable(data.relatedProcesses);
    w := TableRewrite(TwoColumnPlaceholder, relProcesses, "## Related Departments");
    r, done := Step(w, r, done, s);

    var relDepts := PairTable(data.relatedDepartments);
    w := TableRewrite(TwoColumnPlaceholder, relDepts, "## Related Occupations");
    r, done := Step(w, r, done, s);

    var relOccs := PairTable(data.relatedOccupations);
    w := TableRewrite(TwoColumnPlaceholder, relOccs, "## KPIs");
    r, done := Step(w, r, done, s);

    var kpisTable := KpiTable(data.kpis);
    w := TableRewrite(KpiPlaceholder, kpisTable, "## Usage");
    r, done := Step(w, r, done, s);

    w := Lazy(UsageStart, UsageEnd, Fenced("typescript", data.usage));
    r, done := Step(w, r, done, s);
    assert done == RecipeTail(data);
  }

  /** The text rewriting of `curateFile(relPath, data)`: the page content is
      rewritten step by step, and a page with none of the placeholders comes
      back unchanged. */
  method CurateContent(content: string, data: CuratedData) returns (r: string)
    ensures r == ApplyAll(Recipe(data), content)
    ensures (forall i :: 0 <= i < |Recipe(data)| ==> !Present(Recipe(data)[i], content)) ==> r == content
  {
    var mid := CurateHead(content, data);
    r := CurateTail(mid, data);
    ApplyAllAppend(RecipeHead(data), RecipeTail(data), content);
    if forall i :: 0 <= i < |Recipe(data)| ==> !Present(Recipe(data)[i], content) {
      ApplyAllAbsent(Recipe(data), content);
    }
  }
}
