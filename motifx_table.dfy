/**
 * What getPep builds from a table with one header line followed by data lines: the keys in
 * first-appearance order, every key's peptide/group list, the gene set, the group label and the
 * peptide upload file.
 *
 * A data line is taken through the three cells getPep reads from it (a `Row`); the link between
 * the lines and the rows is made once, in TableFold.
 */
module MotifxTable {
  import opened Wrappers
  import opened Text
  import opened OrderedMaps
  import opened MotifxTool

  /** The cells of a data line that getPep uses: its Ppep value, its peptide and its group. */
  datatype Row = Row(gene: string, peptide: string, group: string)

  /** The fields reach all three columns. */
  predicate Fits(fields: seq<string>, c: Columns)
  {
    c.pep < |fields| && c.gene < |fields| && c.group < |fields|
  }

  /** The cells at the three columns. */
  function Pick(fields: seq<string>, c: Columns): Row
    requires Fits(fields, c)
  {
    Row(fields[c.gene], fields[c.pep], fields[c.group])
  }

  /** A header line that names the three columns at c. */
  predicate HeaderAt(header: string, c: Columns)
  {
    IsHeader(header) && HeaderColumns(CommaFields(header), 0) == Ok(c)
  }

  /** A data line, not looking like a header, whose cells at the columns c are row. */
  predicate DataLine(line: string, c: Columns, row: Row)
  {
    !IsHeader(line) && Fits(CommaFields(line), c) && Pick(CommaFields(line), c) == row
  }

  /** Data lines whose cells are rows. */
  predicate DataLines(data: seq<string>, c: Columns, rows: seq<Row>)
  {
    |data| == |rows| && forall i | 0 <= i < |data| :: DataLine(data[i], c, rows[i])
  }

  /** The Ppep value of every row, in order. */
  function GeneKeys(rows: seq<Row>): (ks: seq<string>)
    ensures |ks| == |rows| && forall i | 0 <= i < |rows| :: ks[i] == rows[i].gene
  {
    seq(|rows|, i requires 0 <= i < |rows| => rows[i].gene)
  }

  /** Peptide and group of every one of the first m rows whose Ppep value is k, in order. */
  function Collected(rows: seq<Row>, k: string, m: nat): seq<string>
    requires m <= |rows|
  {
    if m == 0 then []
    else
      var r := rows[m - 1];
      Collected(rows, k, m - 1) + (if r.gene == k then [r.peptide, r.group] else [])
  }

  /** The genes of the first m rows. */
  function GeneSet(rows: seq<Row>, m: nat): set<string>
    requires m <= |rows|
  {
    set i | 0 <= i < m :: GenePrefix(rows[i].gene)
  }

  /** Row i is the first row whose Ppep value is k. */
  predicate FirstRow(rows: seq<Row>, k: string, i: nat)
  {
    i < |rows| && rows[i].gene == k && forall j | 0 <= j < i :: rows[j].gene != k
  }

  /** The map getPep builds from the first m rows. */
  function PepRows(rows: seq<Row>, m: nat): PepMap
    requires m <= |rows|
  {
    if m == 0 then Empty()
    else
      var pep := PepRows(rows, m - 1);
      var r := rows[m - 1];
      pep.Put(r.gene, Entry(pep, r.gene) + [r.peptide, r.group])
  }

  /** The gene set getPep builds from the first m rows. */
  function GenesRows(rows: seq<Row>, m: nat): set<string>
    requires m <= |rows|
  {
    if m == 0 then {} else GenesRows(rows, m - 1) + {GenePrefix(rows[m - 1].gene)}
  }

  /** getPep's state after a header with columns c and the first m rows. */
  function Rows(rows: seq<Row>, c: Columns, m: nat): PepState
    requires m <= |rows|
  {
    PepState(Some(c), PepRows(rows, m), GenesRows(rows, m))
  }

  /* ---------------------------------------------------------------- the fold over the table */

  /** Rows grows by one AddRow per row. */
  lemma RowsStep(rows: seq<Row>, c: Columns, m: nat)
    requires 0 < m <= |rows|
    ensures Rows(rows, c, m) ==
      AddRow(Rows(rows, c, m - 1), rows[m - 1].gene, rows[m - 1].peptide, rows[m - 1].group)
  {
  }

  lemma ConsIndex<T>(x: T, xs: seq<T>, m: nat)
    requires 0 < m <= |xs|
    ensures ([x] + xs)[m] == xs[m - 1]
  {
  }

  /** A data line under a header with columns c is one AddRow. */
  lemma PepStepData(st: PepState, line: string, n: nat, c: Columns, row: Row)
    requires st.cols == Some(c) && DataLine(line, c, row)
    ensures PepStep(st, line, n) == Ok(AddRow(st, row.gene, row.peptide, row.group))
  {
  }

  /** Line n of a fold whose state has columns c, being a data line, is one AddRow. */
  lemma FoldDataLine(st: PepState, lines: seq<string>, n: nat, s: PepState, c: Columns, row: Row)
    requires n < |lines| && PepFold(st, lines[..n]) == Ok(s) && s.cols == Some(c)
    requires DataLine(lines[n], c, row)
    ensures PepFold(st, lines[..n + 1]) == Ok(AddRow(s, row.gene, row.peptide, row.group))
  {
    PepFoldStep(st, lines, n);
    PepStepData(s, lines[n], n, c, row);
  }

  /** The header then the first m data lines fold to Rows(rows, c, m). */
  lemma {:induction false} TableFold(header: string, data: seq<string>, c: Columns, rows: seq<Row>, m: nat)
    requires HeaderAt(header, c) && DataLines(data, c, rows) && m <= |data|
    ensures PepFold(Start(), ([header] + data)[..m + 1]) == Ok(Rows(rows, c, m))
  {
    var lines := [header] + data;
    if m == 0 {
      PepFoldStep(Start(), lines, 0);
      assert lines[..0] == [];
    } else {
      var n := m - 1;
      ConsIndex(header, data, m);
      TableFold(header, data, c, rows, n);
      FoldDataLine(Start(), lines, m, Rows(rows, c, n), c, rows[n]);
      RowsStep(rows, c, m);
    }
  }

  /** The header then all the data lines fold to Rows(rows, c, |rows|). */
  lemma TableFoldAll(header: string, data: seq<string>, c: Columns, rows: seq<Row>)
    requires HeaderAt(header, c) && DataLines(data, c, rows)
    ensures PepFold(Start(), [header] + data) == Ok(Rows(rows, c, |rows|))
  {
    TableFold(header, data, c, rows, |data|);
    assert ([header] + data)[..|data| + 1] == [header] + data;
  }

  /** Every list holds at least a peptide and a group. */
  lemma {:induction false} RowsPairs(rows: seq<Row>, m: nat)
    requires m <= |rows|
    ensures Pairs(PepRows(rows, m))
  {
    if m > 0 {
      var n := m - 1;
      RowsPairs(rows, n);
      var pep := PepRows(rows, n);
      var r := rows[n];
      var e := Entry(pep, r.gene) + [r.peptide, r.group];
      assert PepRows(rows, m) == pep.Put(r.gene, e);
      PutPairs(pep, r.gene, e);
    }
  }

  /** Keys appear in the order their Ppep value first appears. */
  lemma {:induction false} RowsKeys(rows: seq<Row>, m: nat)
    requires m <= |rows|
    ensures PepRows(rows, m).keys == FirstSeen(GeneKeys(rows)[..m])
  {
    if m > 0 {
      var n := m - 1;
      RowsKeys(rows, n);
      RowsPairs(rows, n);
      var ks := GeneKeys(rows);
      var pep := PepRows(rows, n);
      var r := rows[n];
      SnocSlice(ks, n);
      PutFirstSeen(pep, ks[..n], r.gene, Entry(pep, r.gene) + [r.peptide, r.group]);
    }
  }

  /** Every key's list is the peptide and group of each of its rows, in row order. */
  lemma {:induction false} RowsEntries(rows: seq<Row>, m: nat)
    requires m <= |rows|
    ensures forall k :: Entry(PepRows(rows, m), k) == Collected(rows, k, m)
  {
    if m > 0 {
      var n := m - 1;
      RowsEntries(rows, n);
    }
  }

  /** The gene set holds the gene of every row and nothing else. */
  lemma {:induction false} RowsGenes(rows: seq<Row>, m: nat)
    requires m <= |rows|
    ensures GenesRows(rows, m) == GeneSet(rows, m)
  {
    if m > 0 {
      var n := m - 1;
      RowsGenes(rows, n);
      assert GeneSet(rows, m) == GeneSet(rows, n) + {GenePrefix(rows[n].gene)};
    }
  }

  /* ---------------------------------------------------------------- reading the table's text */

  /** A trailing newline does not change how getPep treats a line. */
  lemma PepStepNewline(st: PepState, line: string, n: nat)
    ensures PepStep(st, line + "\n", n) == PepStep(st, line, n)
  {
    RStripNewline(line);
  }

  /** Folding the lines with their newlines is folding the bare lines. */
  lemma {:induction false} PepFoldTerminated(st: PepState, lines: seq<string>)
    ensures PepFold(st, Terminated(lines)) == PepFold(st, lines)
  {
    if |lines| > 0 {
      var n := |lines| - 1;
      PepFoldTerminated(st, lines[..n]);
      assert Terminated(lines)[..n] == Terminated(lines[..n]);
      if PepFold(st, lines[..n]).Ok? {
        PepStepNewline(PepFold(st, lines[..n]).value, lines[n], n);
      }
    }
  }

  /** A header and data lines without newlines make lines without newlines. */
  lemma ConsNoNewline(header: string, data: seq<string>)
    requires '\n' !in header && forall i | 0 <= i < |data| :: '\n' !in data[i]
    ensures forall i | 0 <= i < |[header] + data| :: '\n' !in ([header] + data)[i]
  {
    forall i | 0 <= i < |[header] + data|
      ensures '\n' !in ([header] + data)[i]
    {
      if i > 0 {
        ConsIndex(header, data, i);
      }
    }
  }

  /** getPep reads a file holding a header line then data lines into Rows. */
  lemma ReadTable(header: string, data: seq<string>, c: Columns, rows: seq<Row>)
    requires HeaderAt(header, c) && DataLines(data, c, rows)
    requires '\n' !in header && forall i | 0 <= i < |data| :: '\n' !in data[i]
    ensures PepFold(Start(), FileLines(Unlines([header] + data))) == Ok(Rows(rows, c, |rows|))
  {
    ConsNoNewline(header, data);
    FileLinesUnlines([header] + data);
    PepFoldTerminated(Start(), [header] + data);
    TableFoldAll(header, data, c, rows);
  }

  /**
   * getPep on the file holding a header line then data lines: the fold of AddRow over every
   * data row, whose keys are the distinct Ppep values in order of first appearance, whose lists
   * hold the peptide and group of each of a key's rows, and whose gene set is the genes of all
   * rows.
   */
  lemma PepTable(header: string, data: seq<string>, c: Columns, rows: seq<Row>)
    requires HeaderAt(header, c) && DataLines(data, c, rows)
    requires '\n' !in header && forall i | 0 <= i < |data| :: '\n' !in data[i]
    ensures PepFold(Start(), FileLines(Unlines([header] + data))) == Ok(Rows(rows, c, |rows|))
    ensures Pairs(PepRows(rows, |rows|))
    ensures PepRows(rows, |rows|).keys == FirstSeen(GeneKeys(rows))
    ensures forall k :: Entry(PepRows(rows, |rows|), k) == Collected(rows, k, |rows|)
    ensures GenesRows(rows, |rows|) == GeneSet(rows, |rows|)
  {
    ReadTable(header, data, c, rows);
    assert GeneKeys(rows)[..|rows|] == GeneKeys(rows);
    RowsPairs(rows, |rows|);
    RowsKeys(rows, |rows|);
    RowsEntries(rows, |rows|);
    RowsGenes(rows, |rows|);
  }

  /**
   * Column order does not matter: two tables holding the same rows, with the three named columns
   * at different positions, give the same pep and the same gene set.
   */
  lemma ColumnOrderFree(h1: string, d1: seq<string>, c1: Columns, h2: string, d2: seq<string>, c2: Columns, rows: seq<Row>)
    requires HeaderAt(h1, c1) && DataLines(d1, c1, rows)
    requires HeaderAt(h2, c2) && DataLines(d2, c2, rows)
    requires '\n' !in h1 && forall i | 0 <= i < |d1| :: '\n' !in d1[i]
    requires '\n' !in h2 && forall i | 0 <= i < |d2| :: '\n' !in d2[i]
    ensures var r1 := PepFold(Start(), FileLines(Unlines([h1] + d1)));
      var r2 := PepFold(Start(), FileLines(Unlines([h2] + d2)));
      r1.Ok? && r2.Ok? && r1.value.pep == r2.value.pep && r1.value.genes == r2.value.genes
  {
    ReadTable(h1, d1, c1, rows);
    ReadTable(h2, d2, c2, rows);
  }

  /**
   * ... as long as the Ppep column stays first: a first line whose text does not start with
   * "Ppep" is read as a data row before any header, and getPep fails on line 0.
   */
  lemma HeaderMustComeFirst(header: string, data: seq<string>)
    requires !IsHeader(header)
    requires '\n' !in header && forall i | 0 <= i < |data| :: '\n' !in data[i]
    ensures PepFold(Start(), FileLines(Unlines([header] + data))) == Err(NoHeader(0))
  {
    var lines := [header] + data;
    ConsNoNewline(header, data);
    FileLinesUnlines(lines);
    PepFoldTerminated(Start(), lines);
    PepFoldStep(Start(), lines, 0);
    assert lines[..0] == [];
    PepFoldErr(Start(), lines, 1);
  }

  /* ---------------------------------------------------------------- first rows */

  /** With no row for k among the first m, k has no entries. */
  lemma {:induction false} CollectedNone(rows: seq<Row>, k: string, m: nat)
    requires m <= |rows|
    requires forall j | 0 <= j < m :: rows[j].gene != k
    ensures Collected(rows, k, m) == []
  {
    if m > 0 {
      CollectedNone(rows, k, m - 1);
    }
  }

  /** A key's list starts with the peptide and group of its first row. */
  lemma {:induction false} CollectedFirst(rows: seq<Row>, k: string, i: nat, m: nat)
    requires FirstRow(rows, k, i) && i < m <= |rows|
    ensures |Collected(rows, k, m)| >= 2
    ensures Collected(rows, k, m)[..2] == [rows[i].peptide, rows[i].group]
  {
    if m == i + 1 {
      CollectedNone(rows, k, i);
    } else {
      CollectedFirst(rows, k, i, m - 1);
      var prev := Collected(rows, k, m - 1);
      var r := rows[m - 1];
      var tail := if r.gene == k then [r.peptide, r.group] else [];
      assert (prev + tail)[..2] == prev[..2];
    }
  }

  /** Every Ppep value that occurs has a first row. */
  lemma {:induction false} FirstRowExists(rows: seq<Row>, k: string, m: nat)
    requires m <= |rows|
    requires exists j | 0 <= j < m :: rows[j].gene == k
    ensures exists i: nat :: FirstRow(rows, k, i) && i < m
  {
    var n := m - 1;
    if forall j | 0 <= j < n :: rows[j].gene != k {
      assert FirstRow(rows, k, n);
    } else {
      FirstRowExists(rows, k, n);
    }
  }

  /** The first group collected for the first row's Ppep value is the first row's group. */
  lemma CollectedFirstGroup(rows: seq<Row>)
    requires |rows| > 0
    ensures |Collected(rows, rows[0].gene, |rows|)| >= 2
    ensures Collected(rows, rows[0].gene, |rows|)[1] == rows[0].group
  {
    var k := rows[0].gene;
    assert FirstRow(rows, k, 0);
    CollectedFirst(rows, k, 0, |rows|);
    assert Collected(rows, k, |rows|)[1] == Collected(rows, k, |rows|)[..2][1];
  }

  /** group is the group of the first data row. */
  lemma GroupIsFirstRow(rows: seq<Row>)
    requires |rows| > 0
    ensures Pairs(PepRows(rows, |rows|)) && |PepRows(rows, |rows|).keys| > 0
    ensures FirstGroup(PepRows(rows, |rows|)) == rows[0].group
  {
    var ks := GeneKeys(rows);
    RowsPairs(rows, |rows|);
    RowsKeys(rows, |rows|);
    RowsEntries(rows, |rows|);
    assert ks[..|rows|] == ks;
    FirstSeenHead(ks);
    CollectedFirstGroup(rows);
  }

  /** The first peptide collected for a Ppep value that occurs is the peptide of its first row. */
  lemma CollectedFirstPeptide(rows: seq<Row>, k: string)
    requires k in GeneKeys(rows)
    ensures |Collected(rows, k, |rows|)| >= 2
    ensures exists j: nat :: FirstRow(rows, k, j) && Collected(rows, k, |rows|)[0] == rows[j].peptide
  {
    var ks := GeneKeys(rows);
    var i :| 0 <= i < |ks| && ks[i] == k;
    FirstRowExists(rows, k, |rows|);
    var j: nat :| FirstRow(rows, k, j) && j < |rows|;
    CollectedFirst(rows, k, j, |rows|);
    assert Collected(rows, k, |rows|)[0] == Collected(rows, k, |rows|)[..2][0];
  }

  /** Line i of the peptide upload file is the peptide of the first row whose Ppep value is the i-th key. */
  lemma PepFileFirstRows(rows: seq<Row>)
    ensures Pairs(PepRows(rows, |rows|))
    ensures var pep := PepRows(rows, |rows|);
      forall i | 0 <= i < |FirstPeptides(pep)| ::
        exists j: nat :: FirstRow(rows, pep.keys[i], j) && FirstPeptides(pep)[i] == rows[j].peptide
  {
    var pep := PepRows(rows, |rows|);
    var ks := GeneKeys(rows);
    RowsPairs(rows, |rows|);
    RowsKeys(rows, |rows|);
    RowsEntries(rows, |rows|);
    assert ks[..|rows|] == ks;
    forall i | 0 <= i < |FirstPeptides(pep)|
      ensures exists j: nat :: FirstRow(rows, pep.keys[i], j) && FirstPeptides(pep)[i] == rows[j].peptide
    {
      FirstSeenHas(ks, pep.keys[i]);
      CollectedFirstPeptide(rows, pep.keys[i]);
    }
  }
}
