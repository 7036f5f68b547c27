/**
 * The bookkeeping of Motifx.py that does not talk to the motif-x web site: reading the peptide
 * table (getPep) into the `pep` dictionary, the gene set and the group label; the peptide upload
 * file (pepFile); collecting the motif texts of a results page (parseResults' dictionary update);
 * the results table (writeResults); and the defaults main() gives to the occurrence and width
 * parameters.
 */
module MotifxTool {
  import opened Wrappers
  import opened Text
  import opened OrderedMaps

  /** The three columns getPep looks up by name in the header row. */
  const PeptideColumn: string := "Motif_X_Input_Peptide"
  const GeneColumn: string := "Ppep"
  const GroupColumn: string := "Group"

  /** A line whose rstrip() starts with this is taken for the header row. */
  const HeaderPrefix: string := "Ppep"

  /** Positions of the peptide, Ppep and group columns in the current header. */
  datatype Columns = Columns(pep: nat, gene: nat, group: nat)

  /** Why getPep raises, with the zero-based index of the line that raised. */
  datatype PepError =
    | MissingColumn(line: nat, name: string)  // headers.index(name): ValueError
    | NoHeader(line: nat)                     // a data row before any header: unbound column index
    | ShortRow(line: nat)                     // data[col] past the end of the row: IndexError
    | NoPeptides                              // next(iter(pep.values())) on an empty dict: StopIteration

  /** Ppep value -> [peptide, group, peptide, group, ...], in first-insertion order. */
  type PepMap = OrderedMap<string, seq<string>>

  /** getPep's loop state: the current header's columns (if one was seen), pep and geneList. */
  datatype PepState = PepState(cols: Option<Columns>, pep: PepMap, genes: set<string>)

  /** Why writeResults raises (both are IndexError in the source). */
  datatype WriteError =
    | NoMotifText(motif: string)  // v[0] on an empty list
    | TooFewLines(motif: string)  // pop from a list of fewer than five lines

  /** list.index(x): the first position of x, or None where Python raises ValueError. */
  function IndexOf(xs: seq<string>, x: string): (r: Option<nat>)
    ensures r.None? <==> x !in xs
    ensures r.Some? ==> r.value < |xs| && xs[r.value] == x && forall j | 0 <= j < r.value :: xs[j] != x
  {
    if |xs| == 0 then None
    else if xs[0] == x then Some(0)
    else match IndexOf(xs[1..], x)
      case None => None
      case Some(i) => Some(i + 1)
  }

  /** The header's column positions, looked up in the order the source does. */
  function HeaderColumns(headers: seq<string>, n: nat): Result<Columns, PepError>
  {
    match IndexOf(headers, PeptideColumn)
    case None => Err(MissingColumn(n, PeptideColumn))
    case Some(p) =>
      match IndexOf(headers, GeneColumn)
      case None => Err(MissingColumn(n, GeneColumn))
      case Some(g) =>
        match IndexOf(headers, GroupColumn)
        case None => Err(MissingColumn(n, GroupColumn))
        case Some(q) => Ok(Columns(p, g, q))
  }

  /** Position i holds x and no earlier position does: what list.index(x) returns. */
  predicate FirstAt(xs: seq<string>, i: nat, x: string)
  {
    i < |xs| && xs[i] == x && forall j | 0 <= j < i :: xs[j] != x
  }

  /** The first of the three column names, in lookup order, that the header lacks. */
  function FirstMissing(headers: seq<string>): string
  {
    if PeptideColumn !in headers then PeptideColumn
    else if GeneColumn !in headers then GeneColumn
    else GroupColumn
  }

  /**
   * The header is read exactly when it names all three columns; each position is the first
   * occurrence of its name, and otherwise the error names the first missing column.
   */
  lemma HeaderColumnsSpec(headers: seq<string>, n: nat)
    ensures HeaderColumns(headers, n).Ok? <==>
      PeptideColumn in headers && GeneColumn in headers && GroupColumn in headers
    ensures HeaderColumns(headers, n).Ok? ==>
      var c := HeaderColumns(headers, n).value;
      FirstAt(headers, c.pep, PeptideColumn) && FirstAt(headers, c.gene, GeneColumn) && FirstAt(headers, c.group, GroupColumn)
    ensures HeaderColumns(headers, n).Err? ==> HeaderColumns(headers, n).error == MissingColumn(n, FirstMissing(headers))
  {
  }

  /** pep[key] of a defaultdict(list): the empty list for a key not yet present. */
  function Entry(pep: PepMap, key: string): seq<string>
  {
    if key in pep.values then pep.values[key] else []
  }

  /** The gene name in a Ppep value: the text before its first underscore. */
  function GenePrefix(ppep: string): string
  {
    Split(ppep, '_')[0]
  }

  /** The gene name is the longest prefix of the Ppep value without an underscore. */
  lemma GenePrefixSpec(ppep: string)
    ensures GenePrefix(ppep) <= ppep && '_' !in GenePrefix(ppep)
    ensures |GenePrefix(ppep)| == |ppep| || ppep[|GenePrefix(ppep)|] == '_'
  {
    SplitFirst(ppep, '_');
    SplitSpec(ppep, '_');
  }

  predicate IsHeader(line: string)
  {
    StartsWith(RStrip(line), HeaderPrefix)
  }

  /** One data row: peptide then group appended under its Ppep key, its gene added to the set. */
  function AddRow(st: PepState, key: string, peptide: string, group: string): PepState
  {
    PepState(st.cols, st.pep.Put(key, Entry(st.pep, key) + [peptide, group]), st.genes + {GenePrefix(key)})
  }

  /** One iteration of getPep's loop, on line n. */
  function PepStep(st: PepState, line: string, n: nat): Result<PepState, PepError>
  {
    if IsHeader(line) then
      match HeaderColumns(CommaFields(line), n)
      case Err(e) => Err(e)
      case Ok(c) => Ok(st.(cols := Some(c)))
    else
      match st.cols
      case None => Err(NoHeader(n))
      case Some(c) =>
        var data := CommaFields(line);
        if c.gene >= |data| || c.pep >= |data| || c.group >= |data| then Err(ShortRow(n))
        else Ok(AddRow(st, data[c.gene], data[c.pep], data[c.group]))
  }

  /** getPep's loop over the lines of the table, from state st. */
  function PepFold(st: PepState, lines: seq<string>): Result<PepState, PepError>
  {
    if |lines| == 0 then Ok(st)
    else
      match PepFold(st, lines[..|lines| - 1])
      case Err(e) => Err(e)
      case Ok(s) => PepStep(s, lines[|lines| - 1], |lines| - 1)
  }

  /** The state getPep starts from in the constructor. */
  function Start(): PepState
  {
    PepState(None, Empty(), {})
  }

  /** Every value of pep holds at least a peptide and a group. */
  ghost predicate Pairs(pep: PepMap)
  {
    pep.Valid() && forall k | k in pep.values :: |pep.values[k]| >= 2
  }

  lemma PutPairs(pep: PepMap, key: string, entry: seq<string>)
    requires Pairs(pep) && |entry| >= 2
    ensures Pairs(pep.Put(key, entry))
  {
    pep.PutValid(key, entry);
  }

  /** next(iter(pep.values()))[1]: the group stored first under the first key. */
  function FirstGroup(pep: PepMap): string
    requires Pairs(pep) && |pep.keys| > 0
  {
    pep.values[pep.keys[0]][1]
  }

  /** The first peptide stored under each key, in key order: the lines pepFile writes. */
  function FirstPeptides(pep: PepMap): (ps: seq<string>)
    requires Pairs(pep)
    ensures |ps| == |pep.keys|
  {
    seq(|pep.keys|, i requires 0 <= i < |pep.keys| && Pairs(pep) => pep.values[pep.keys[i]][0])
  }

  /** Each remaining line of a motif's text, as `line,group,motif`. */
  function FormatRows(lines: seq<string>, group: string, motif: string): (rows: seq<string>)
    ensures |rows| == |lines|
  {
    seq(|lines|, i requires 0 <= i < |lines| => lines[i] + "," + group + "," + motif)
  }

  /** The rows writeResults emits for motif k: the text's lines without the first 2 and last 3. */
  function MotifRows(k: string, v: seq<string>, group: string): (r: Result<seq<string>, WriteError>)
    ensures r.Err? <==> |v| == 0 || |Split(v[0], '\n')| < 5
    ensures r.Ok? ==> |r.value| == |Split(v[0], '\n')| - 5
  {
    if |v| == 0 then Err(NoMotifText(k))
    else
      var lines := Split(v[0], '\n');
      if |lines| < 5 then Err(TooFewLines(k))
      else Ok(FormatRows(lines[2..|lines| - 3], group, k))
  }

  /**
   * A written row splits back on commas into its peptide, the group and the motif, the three
   * fields getQuerySeq of exactFastaMatch.py reads from this file.
   */
  lemma FormatRowFields(line: string, group: string, motif: string)
    requires ',' !in line && ',' !in group && ',' !in motif
    requires motif == "" || !IsSpace(motif[|motif| - 1])
    ensures CommaFields(line + "," + group + "," + motif) == [line, group, motif]
  {
    var parts := [line, group, motif];
    assert parts[1..] == [group, motif];
    assert [group, motif][1..] == [motif];
    assert Join([group, motif], ',') == group + "," + motif;
    var row := line + "," + group + "," + motif;
    assert Join(parts, ',') == line + "," + (group + "," + motif) == row;
    if motif != "" {
      assert row[|row| - 1] == motif[|motif| - 1];
    }
    RStripKeeps(row);
    SplitJoin(parts, ',');
  }

  /** What writeResults writes for the motifs ks, in order, and the error that stops it, if any. */
  datatype Written = Written(rows: seq<string>, err: Option<WriteError>)

  function WriteAll(ks: seq<string>, result: map<string, seq<string>>, group: string): Written
    requires forall i | 0 <= i < |ks| :: ks[i] in result
  {
    if |ks| == 0 then Written([], None)
    else
      var w := WriteAll(ks[..|ks| - 1], result, group);
      var k := ks[|ks| - 1];
      if w.err.Some? then w
      else match MotifRows(k, result[k], group)
        case Err(e) => Written(w.rows, Some(e))
        case Ok(rows) => Written(w.rows + rows, None)
  }

  /** str.isdigit() on ASCII text: non-empty and all of '0'..'9'. */
  predicate IsDigits(s: string)
  {
    |s| > 0 && forall i | 0 <= i < |s| :: '0' <= s[i] <= '9'
  }

  /**
   * The occurrence parameter main() passes on: "10" when -o is absent or empty, the given text
   * when it is all digits, and None where the program exits.
   */
  function ChooseOccurrence(arg: Option<string>): (r: Option<string>)
    ensures r.None? <==> arg.Some? && arg.value != "" && !IsDigits(arg.value)
    ensures r.Some? ==> IsDigits(r.value)
    ensures r.Some? && arg.Some? && arg.value != "" ==> r.value == arg.value
    ensures arg.None? || arg.value == "" ==> r == Some("10")
  {
    if arg.None? || arg.value == "" then Some("10")
    else if IsDigits(arg.value) then Some(arg.value)
    else None
  }

  /** The motif width main() passes on: 13 when -w is absent or 0, the given value otherwise. */
  function ChooseWidth(arg: Option<int>): (w: int)
    ensures w != 0
    ensures arg.Some? && arg.value != 0 ==> w == arg.value
    ensures arg.None? || arg.value == 0 ==> w == 13
  {
    if arg.None? || arg.value == 0 then 13 else arg.value
  }

  /* ---------------------------------------------------------------- lemmas about the fold */

  /** The fold over one more line is one more step. */
  lemma PepFoldStep(st: PepState, lines: seq<string>, n: nat)
    requires n < |lines|
    ensures PepFold(st, lines[..n + 1]) ==
      match PepFold(st, lines[..n])
      case Err(e) => Err(e)
      case Ok(s) => PepStep(s, lines[n], n)
  {
    assert lines[..n + 1][..n] == lines[..n];
    assert lines[..n + 1][n] == lines[n];
  }

  /** Once a prefix has failed, the whole fold fails the same way. */
  lemma {:induction false} PepFoldErr(st: PepState, lines: seq<string>, n: nat)
    requires n <= |lines|
    requires PepFold(st, lines[..n]).Err?
    ensures PepFold(st, lines) == PepFold(st, lines[..n])
    decreases |lines| - n
  {
    if n < |lines| {
      PepFoldStep(st, lines, n);
      PepFoldErr(st, lines, n + 1);
    } else {
      assert lines[..n] == lines;
    }
  }

  /** A failed fold names the line that failed, and the lines before it fold without error. */
  lemma {:induction false} PepFoldErrLine(st: PepState, lines: seq<string>)
    requires PepFold(st, lines).Err?
    ensures PepFold(st, lines).error != NoPeptides
    ensures PepFold(st, lines).error.line < |lines|
    ensures PepFold(st, lines[..PepFold(st, lines).error.line]).Ok?
  {
    var n := |lines| - 1;
    assert lines[..n + 1] == lines;
    PepFoldStep(st, lines, n);
    if PepFold(st, lines[..n]).Err? {
      PepFoldErrLine(st, lines[..n]);
      var e := PepFold(st, lines[..n]).error;
      assert lines[..n][..e.line] == lines[..e.line];
    }
  }

  /** One step keeps each value a list of at least a peptide and a group. */
  lemma PepStepPairs(st: PepState, line: string, n: nat)
    requires Pairs(st.pep)
    requires PepStep(st, line, n).Ok?
    ensures Pairs(PepStep(st, line, n).value.pep)
  {
    if !IsHeader(line) {
      var c := st.cols.value;
      var data := CommaFields(line);
      PutPairs(st.pep, data[c.gene], Entry(st.pep, data[c.gene]) + [data[c.pep], data[c.group]]);
    }
  }

  /** Every step keeps each value a list of at least a peptide and a group. */
  lemma {:induction false} PepFoldPairs(st: PepState, lines: seq<string>)
    requires Pairs(st.pep)
    requires PepFold(st, lines).Ok?
    ensures Pairs(PepFold(st, lines).value.pep)
  {
    if |lines| > 0 {
      var n := |lines| - 1;
      PepFoldStep(st, lines, n);
      assert lines[..n + 1] == lines;
      PepFoldPairs(st, lines[..n]);
      PepStepPairs(PepFold(st, lines[..n]).value, lines[n], n);
    }
  }

  /* ---------------------------------------------------------------- the Motifx object */

  class Motifx {
    var occurrence: string
    var width: int
    var group: string
    var pep: PepMap
    var geneList: set<string>
    var result: OrderedMap<string, seq<string>>

    ghost predicate Valid()
      reads this
    {
      Pairs(pep) && result.Valid()
    }

    /** The fields __init__ sets before reading the table. */
    constructor (occ: string, wid: int)
      ensures Valid()
      ensures occurrence == occ && width == wid && group == ""
      ensures pep == Empty() && geneList == {} && result == Empty()
    {
      occurrence := occ;
      width := wid;
      group := "";
      pep := Empty();
      geneList := {};
      result := Empty();
    }

    /**
     * getPep over the text of the converted table. On success pep and geneList are the fold of
     * every line and group comes from the first key; on an error in a line they hold the fold of
     * the lines before it.
     */
    method GetPep(text: string) returns (err: Option<PepError>)
      requires Valid()
      modifies this`pep, this`geneList, this`group
      ensures Valid()
      ensures var r := PepFold(PepState(None, old(pep), old(geneList)), FileLines(text));
        && (err.None? <==> r.Ok? && r.value.pep.keys != [])
        && (r.Ok? ==> pep == r.value.pep && geneList == r.value.genes)
        && (r.Ok? && r.value.pep.keys == [] ==> err == Some(NoPeptides))
        && (r.Err? ==> err == Some(r.error))
      ensures err.None? ==> |pep.keys| > 0 && group == FirstGroup(pep)
      ensures err.Some? ==> group == old(group)
      ensures err.Some? && err.value != NoPeptides ==>
        var lines := FileLines(text);
        && err.value.line < |lines|
        && var p := PepFold(PepState(None, old(pep), old(geneList)), lines[..err.value.line]);
        && p.Ok? && p.value.pep == pep && p.value.genes == geneList
    {
      var lines := FileLines(text);
      ghost var st0 := PepState(None, pep, geneList);
      var cols: Option<Columns> := None;
      assert lines[..0] == [];
      for i := 0 to |lines|
        invariant PepFold(st0, lines[..i]) == Ok(PepState(cols, pep, geneList))
        invariant Pairs(pep) && group == old(group)
      {
        PepFoldStep(st0, lines, i);
        var next, e := ReadLine(lines[i], i, cols);
        if e.Some? {
          err := e;
          PepFoldErr(st0, lines, i + 1);
          assert lines[..|lines|] == lines;
          return;
        }
        cols := next;
      }
      assert lines[..|lines|] == lines;
      if pep.keys == [] {
        err := Some(NoPeptides);
        return;
      }
      group := pep.values[pep.keys[0]][1];
      err := None;
    }

    /**
     * The body of getPep's loop for line n: a header row sets the column positions, a data row
     * appends its peptide and group under its Ppep value and adds its gene; on an error nothing
     * has changed.
     */
    method ReadLine(line: string, n: nat, cols: Option<Columns>) returns (next: Option<Columns>, err: Option<PepError>)
      requires Pairs(pep)
      modifies this`pep, this`geneList
      ensures Pairs(pep)
      ensures PepStep(PepState(cols, old(pep), old(geneList)), line, n)
        == if err.None? then Ok(PepState(next, pep, geneList)) else Err(err.value)
      ensures err.Some? ==> pep == old(pep) && geneList == old(geneList) && err.value != NoPeptides && err.value.line == n
    {
      next, err := cols, None;
      var row := RStrip(line);
      if StartsWith(row, HeaderPrefix) {
        var headers := Split(row, ',');
        assert IsHeader(line) && headers == CommaFields(line);
        var found := ReadHeader(headers, n);
        if found.Err? {
          err := Some(found.error);
        } else {
          next := Some(found.value);
        }
      } else if cols.None? {
        err := Some(NoHeader(n));
      } else {
        var data := Split(row, ',');
        var c := cols.value;
        assert !IsHeader(line) && data == CommaFields(line);
        if c.gene >= |data| || c.pep >= |data| || c.group >= |data| {
          err := Some(ShortRow(n));
        } else {
          AppendRow(data[c.gene], data[c.pep], data[c.group]);
        }
      }
    }

    /** self.pep[key].append(peptide); self.pep[key].append(group); self.geneList.add(gene). */
    method AppendRow(key: string, peptide: string, group: string)
      requires Pairs(pep)
      modifies this`pep, this`geneList
      ensures Pairs(pep)
      ensures PepState(None, pep, geneList) == AddRow(PepState(None, old(pep), old(geneList)), key, peptide, group)
    {
      ghost var e := Entry(pep, key);
      pep := pep.Put(key, Entry(pep, key) + [peptide]);
      assert Entry(pep, key) == e + [peptide];
      pep := pep.Put(key, Entry(pep, key) + [group]);
      assert e + [peptide] + [group] == e + [peptide, group];
      old(pep).PutPut(key, e + [peptide], e + [peptide, group]);
      PutPairs(old(pep), key, e + [peptide, group]);
      var geneName := Split(key, '_');
      geneList := geneList + {geneName[0]};
    }

    /** pepFile: the first peptide of every key, one per line, in key order. */
    method PepFile() returns (text: string)
      requires Valid()
      ensures text == Unlines(FirstPeptides(pep))
    {
      text := "";
      for i := 0 to |pep.keys|
        invariant text == Unlines(FirstPeptides(pep)[..i])
      {
        assert FirstPeptides(pep)[..i + 1][..i] == FirstPeptides(pep)[..i];
        text := text + pep.values[pep.keys[i]][0] + "\n";
      }
      assert FirstPeptides(pep)[..|pep.keys|] == FirstPeptides(pep);
    }

    /** parseResults' update for one motif link: its key is created if new, then every child's text appended. */
    method AddMotif(motif: string, children: seq<string>)
      requires Valid()
      modifies this`result
      ensures Valid()
      ensures result == old(result).Put(motif, Entry(old(result), motif) + children)
    {
      if motif !in result.values {
        result := result.Put(motif, []);
      } else {
        result.PutSame(motif);
      }
      ghost var entry := Entry(old(result), motif);
      assert entry + children[..0] == entry;
      for i := 0 to |children|
        invariant result.Valid() && motif in result.values
        invariant result == old(result).Put(motif, entry + children[..i])
      {
        assert entry + children[..i + 1] == (entry + children[..i]) + [children[i]];
        old(result).PutPut(motif, entry + children[..i], entry + children[..i + 1]);
        result := result.Put(motif, result.values[motif] + [children[i]]);
      }
      assert children[..|children|] == children;
    }

    /**
     * writeResults: the rows of every motif in key order, formatted `peptide,group,motif`; the
     * rows written before an error stay in the file.
     */
    method WriteResults() returns (text: string, err: Option<WriteError>)
      requires Valid()
      ensures var w := WriteAll(result.keys, result.values, group);
        text == Unlines(w.rows) && err == w.err
    {
      text := "";
      err := None;
      ghost var written: seq<string> := [];
      for i := 0 to |result.keys|
        invariant WriteAll(result.keys[..i], result.values, group) == Written(written, None)
        invariant text == Unlines(written)
      {
        var k := result.keys[i];
        assert result.keys[..i + 1][..i] == result.keys[..i];
        assert result.keys[..i + 1][i] == k;
        var e;
        text, e := WriteMotif(written, text, k, result.values[k], group);
        if e.Some? {
          err := e;
          WriteAllStops(result.keys, result.values, group, i + 1);
          return;
        }
        written := written + MotifRows(k, result.values[k], group).value;
      }
      assert result.keys[..|result.keys|] == result.keys;
    }
  }

  /** The three headers.index calls of getPep, in order; the first that fails raises. */
  method ReadHeader(headers: seq<string>, n: nat) returns (r: Result<Columns, PepError>)
    ensures r == HeaderColumns(headers, n)
    ensures r.Ok? <==> PeptideColumn in headers && GeneColumn in headers && GroupColumn in headers
    ensures r.Ok? ==>
      FirstAt(headers, r.value.pep, PeptideColumn) && FirstAt(headers, r.value.gene, GeneColumn) && FirstAt(headers, r.value.group, GroupColumn)
    ensures r.Err? ==> r.error == MissingColumn(n, FirstMissing(headers))
  {
    var pepCol := IndexOf(headers, PeptideColumn);
    if pepCol.None? {
      return Err(MissingColumn(n, PeptideColumn));
    }
    var geneCol := IndexOf(headers, GeneColumn);
    if geneCol.None? {
      return Err(MissingColumn(n, GeneColumn));
    }
    var groupCol := IndexOf(headers, GroupColumn);
    if groupCol.None? {
      return Err(MissingColumn(n, GroupColumn));
    }
    r := Ok(Columns(pepCol.value, geneCol.value, groupCol.value));
  }

  /** The rows of one motif k with texts v, written after the text so far; nothing when it raises. */
  method WriteMotif(ghost written: seq<string>, text: string, k: string, v: seq<string>, group: string)
    returns (out: string, err: Option<WriteError>)
    requires text == Unlines(written)
    ensures MotifRows(k, v, group).Err? ==> err == Some(MotifRows(k, v, group).error) && out == text
    ensures MotifRows(k, v, group).Ok? ==> err.None? && out == Unlines(written + MotifRows(k, v, group).value)
  {
    if |v| == 0 {
      return text, Some(NoMotifText(k));
    }
    var motifs := Split(v[0], '\n');
    var trimmed := Trim(motifs);
    if trimmed.None? {
      return text, Some(TooFewLines(k));
    }
    out := WriteRows(written, text, trimmed.value, group, k);
    err := None;
  }

  /** The two pop(0) and three pop() calls: None where one of them would pop from an empty list. */
  method Trim(lines: seq<string>) returns (r: Option<seq<string>>)
    ensures r == if |lines| < 5 then None else Some(lines[2..|lines| - 3])
  {
    var motifs := lines;
    for x := 0 to 2
      invariant x <= |lines| && motifs == lines[x..]
    {
      if |motifs| == 0 {
        return None;
      }
      motifs := motifs[1..];
    }
    for x := 0 to 3
      invariant x <= |lines| - 2 && motifs == lines[2..|lines| - x]
    {
      if |motifs| == 0 {
        return None;
      }
      motifs := motifs[..|motifs| - 1];
    }
    r := Some(motifs);
  }

  /** Writes `row,group,motif` and a newline for every row, after the text written so far. */
  method WriteRows(ghost written: seq<string>, text: string, rows: seq<string>, group: string, motif: string)
    returns (out: string)
    requires text == Unlines(written)
    ensures out == Unlines(written + FormatRows(rows, group, motif))
  {
    out := text;
    assert written + FormatRows(rows[..0], group, motif) == written;
    for j := 0 to |rows|
      invariant out == Unlines(written + FormatRows(rows[..j], group, motif))
    {
      var line := rows[j] + "," + group + "," + motif;
      assert FormatRows(rows[..j + 1], group, motif) == FormatRows(rows[..j], group, motif) + [line];
      assert written + FormatRows(rows[..j + 1], group, motif)
        == (written + FormatRows(rows[..j], group, motif)) + [line];
      out := out + line + "\n";
    }
    assert rows[..|rows|] == rows;
  }

  /** After a motif that cannot be written, nothing more is written. */
  lemma {:induction false} WriteAllStops(ks: seq<string>, result: map<string, seq<string>>, group: string, n: nat)
    requires n <= |ks| && forall i | 0 <= i < |ks| :: ks[i] in result
    requires WriteAll(ks[..n], result, group).err.Some?
    ensures WriteAll(ks, result, group) == WriteAll(ks[..n], result, group)
    decreases |ks| - n
  {
    if n < |ks| {
      assert ks[..n + 1][..n] == ks[..n];
      WriteAllStops(ks, result, group, n + 1);
    } else {
      assert ks[..n] == ks;
    }
  }
}
