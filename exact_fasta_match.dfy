/**
 * The exact-match engine of exactFastaMatch.py: it keeps the reference records named in a
 * gene list, reads the query peptides with their group and motif, and reports, for every
 * query and every kept record, the first place where the query occurs in the record's
 * sequence, as one tab-separated line.
 */
module ExactMatch {
  import opened Wrappers
  import opened Text
  import opened OrderedMaps

  /** A reference record as the FASTA parser yields it: its name and its sequence. */
  datatype FastaRecord = FastaRecord(name: string, residues: string)

  /** What the query file says about one peptide: {'group': ..., 'motif': ...}. */
  datatype QueryInfo = QueryInfo(group: string, motif: string)

  /** The query file has a line (0-based) with fewer than three comma-separated fields. */
  datatype QueryError = ShortRow(line: nat)

  type QueryTable = OrderedMap<string, QueryInfo>

  /** The width of the reported window; the engine does not take it as a parameter. */
  const WindowWidth: nat := 13

  /* ---------------------------------------------------------------- gene list */

  /** Reading a file written one gene per line gives the genes back, duplicates and empty names included. */
  lemma GeneListRoundTrip(genes: seq<string>)
    requires forall i | 0 <= i < |genes| :: '\n' !in genes[i]
    requires forall i | 0 <= i < |genes| :: genes[i] == "" || !IsSpace(genes[i][|genes[i]| - 1])
    ensures |FileLines(Unlines(genes))| == |genes|
    ensures forall i | 0 <= i < |genes| :: RStrip(FileLines(Unlines(genes))[i]) == genes[i]
  {
    FileLinesUnlines(genes);
    forall i | 0 <= i < |genes| ensures RStrip(FileLines(Unlines(genes))[i]) == genes[i] {
      RStripNewline(genes[i]);
      RStripKeeps(genes[i]);
    }
  }

  /* ---------------------------------------------------------------- filtering */

  /** The records whose name is in the gene list, in their original order. */
  function Kept(records: seq<FastaRecord>, genes: seq<string>): (kept: seq<FastaRecord>)
    ensures |kept| <= |records|
    ensures forall r :: r in kept <==> r in records && r.name in genes
  {
    if |records| == 0 then []
    else
      var front := Kept(records[..|records| - 1], genes);
      var last := records[|records| - 1];
      assert records == records[..|records| - 1] + [last];
      if last.name in genes then front + [last] else front
  }

  /** Filtering distributes over concatenation, so the relative order of kept records is unchanged. */
  lemma {:induction false} KeptConcat(a: seq<FastaRecord>, b: seq<FastaRecord>, genes: seq<string>)
    ensures Kept(a + b, genes) == Kept(a, genes) + Kept(b, genes)
  {
    if |b| > 0 {
      var n := |b| - 1;
      assert (a + b)[..|a + b| - 1] == a + b[..n];
      KeptConcat(a, b[..n], genes);
    } else {
      assert a + b == a;
    }
  }

  /** No record is added or lost: each kept record occurs as often as in the input, each other one never. */
  lemma {:induction false} KeptMultiplicity(records: seq<FastaRecord>, genes: seq<string>, r: FastaRecord)
    ensures multiset(Kept(records, genes))[r] == if r.name in genes then multiset(records)[r] else 0
  {
    if |records| > 0 {
      var n := |records| - 1;
      KeptMultiplicity(records[..n], genes, r);
      assert records == records[..n] + [records[n]];
    }
  }

  /* ---------------------------------------------------------------- query file */

  /** getQuerySeq over the split rows: row[0] -> {group: row[1], motif: row[2]}; a later row overwrites. */
  function ParseRows(rows: seq<seq<string>>): Result<QueryTable, QueryError>
  {
    if |rows| == 0 then Ok(Empty())
    else
      match ParseRows(rows[..|rows| - 1])
      case Err(e) => Err(e)
      case Ok(t) =>
        var row := rows[|rows| - 1];
        if |row| < 3 then Err(ShortRow(|rows| - 1))
        else Ok(t.Put(row[0], QueryInfo(row[1], row[2])))
  }

  function QueryRows(lines: seq<string>): (rows: seq<seq<string>>)
    ensures |rows| == |lines|
    ensures forall i | 0 <= i < |lines| :: rows[i] == CommaFields(lines[i])
  {
    seq(|lines|, i requires 0 <= i < |lines| => CommaFields(lines[i]))
  }

  /** The dictionary getQuerySeq builds from the query file's text. */
  function ParseQueries(text: string): Result<QueryTable, QueryError>
  {
    ParseRows(QueryRows(FileLines(text)))
  }

  /** Parsing fails exactly when some row has fewer than three fields, and it names the first such row. */
  lemma {:induction false} QueryFailsIffShortRow(rows: seq<seq<string>>)
    ensures ParseRows(rows).Err? <==> exists i | 0 <= i < |rows| :: |rows[i]| < 3
    ensures ParseRows(rows).Err? ==>
      var i := ParseRows(rows).error.line;
      i < |rows| && |rows[i]| < 3 && forall j | 0 <= j < i :: |rows[j]| >= 3
  {
    if |rows| > 0 {
      var n := |rows| - 1;
      QueryFailsIffShortRow(rows[..n]);
      assert forall i | 0 <= i < n :: rows[..n][i] == rows[i];
    }
  }

  /** Among the first m rows, row i is the last whose first field is k. */
  ghost predicate IsLastRow(rows: seq<seq<string>>, m: nat, k: string, i: int)
    requires m <= |rows| && forall j | 0 <= j < |rows| :: |rows[j]| >= 1
  {
    0 <= i < m && rows[i][0] == k && forall j | i < j < m :: rows[j][0] != k
  }

  /** Some row among the first m has first field k. */
  ghost predicate RowKeyed(rows: seq<seq<string>>, m: nat, k: string)
    requires m <= |rows| && forall j | 0 <= j < |rows| :: |rows[j]| >= 1
  {
    exists i | 0 <= i < m :: rows[i][0] == k
  }

  lemma RowKeyedGrows(rows: seq<seq<string>>, n: nat, k: string)
    requires n < |rows| && forall j | 0 <= j < |rows| :: |rows[j]| >= 1
    ensures RowKeyed(rows, n + 1, k) <==> RowKeyed(rows, n, k) || rows[n][0] == k
  {
  }

  /** A last row stays the last one when a row with another first field follows. */
  lemma LastRowGrows(rows: seq<seq<string>>, n: nat, k: string, i: int)
    requires n < |rows| && forall j | 0 <= j < |rows| :: |rows[j]| >= 1
    requires IsLastRow(rows, n, k, i) && rows[n][0] != k
    ensures IsLastRow(rows, n + 1, k, i)
  {
  }

  /** The first m rows parse when none of them is short. */
  lemma {:induction false} QueryPrefixOk(rows: seq<seq<string>>, m: nat)
    requires m <= |rows|
    requires forall i | 0 <= i < |rows| :: |rows[i]| >= 3
    ensures ParseRows(rows[..m]).Ok?
  {
    if m > 0 {
      var n := m - 1;
      QueryPrefixOk(rows, n);
      assert rows[..m][..n] == rows[..n];
    }
  }

  /** The dictionary parsed from the first m rows lists every key exactly once. */
  lemma {:induction false} QueryPrefixValid(rows: seq<seq<string>>, m: nat)
    requires m <= |rows|
    requires forall i | 0 <= i < |rows| :: |rows[i]| >= 3
    ensures ParseRows(rows[..m]).Ok? && ParseRows(rows[..m]).value.Valid()
  {
    QueryPrefixOk(rows, m);
    if m > 0 {
      var n := m - 1;
      QueryPrefixValid(rows, n);
      ParseRowsStep(rows, n);
      ParseRows(rows[..n]).value.PutValid(rows[n][0], QueryInfo(rows[n][1], rows[n][2]));
    }
  }

  /** A short row after rows that parse ends the parse with its index. */
  lemma ParseRowsFail(rows: seq<seq<string>>, n: nat)
    requires n < |rows| && |rows[n]| < 3
    requires ParseRows(rows[..n]).Ok?
    ensures ParseRows(rows) == Err(ShortRow(n))
  {
    assert rows[..n + 1][..n] == rows[..n];
    assert rows[..n + 1][n] == rows[n];
    ParsePrefixErr(rows, n + 1);
  }

  /** Once a prefix of the rows fails, the whole parse fails the same way. */
  lemma {:induction false} ParsePrefixErr(rows: seq<seq<string>>, n: nat)
    requires n <= |rows|
    requires ParseRows(rows[..n]).Err?
    ensures ParseRows(rows) == ParseRows(rows[..n])
    decreases |rows| - n
  {
    if n < |rows| {
      assert rows[..n + 1][..n] == rows[..n];
      ParsePrefixErr(rows, n + 1);
    } else {
      assert rows[..n] == rows;
    }
  }

  /** Unfolds ParseRows by one well-formed row. */
  lemma ParseRowsStep(rows: seq<seq<string>>, n: nat)
    requires n < |rows| && |rows[n]| >= 3
    requires ParseRows(rows[..n]).Ok?
    ensures ParseRows(rows[..n + 1]) ==
      Ok(ParseRows(rows[..n]).value.Put(rows[n][0], QueryInfo(rows[n][1], rows[n][2])))
  {
    assert rows[..n + 1][..n] == rows[..n];
    assert rows[..n + 1][n] == rows[n];
  }

  /** The keys parsed from the first m rows are exactly their peptides. */
  lemma {:induction false} QueryPrefix(rows: seq<seq<string>>, m: nat)
    requires m <= |rows|
    requires forall i | 0 <= i < |rows| :: |rows[i]| >= 3
    ensures ParseRows(rows[..m]).Ok?
    ensures forall k :: k in ParseRows(rows[..m]).value.values <==> RowKeyed(rows, m, k)
  {
    QueryPrefixOk(rows, m);
    if m > 0 {
      var n := m - 1;
      QueryPrefix(rows, n);
      QueryPrefixOk(rows, n);
      ParseRowsStep(rows, n);
      forall k
        ensures k in ParseRows(rows[..m]).value.values <==> RowKeyed(rows, m, k)
      {
        RowKeyedGrows(rows, n, k);
      }
    }
  }

  /** One more row keeps every key's entry the one from its last row. */
  lemma QueryEntryStep(rows: seq<seq<string>>, n: nat, t: QueryTable, u: QueryTable, k: string)
    requires n < |rows| && forall i | 0 <= i < |rows| :: |rows[i]| >= 3
    requires forall k | k in t.values ::
      exists i :: IsLastRow(rows, n, k, i) && t.values[k] == QueryInfo(rows[i][1], rows[i][2])
    requires u == t.Put(rows[n][0], QueryInfo(rows[n][1], rows[n][2])) && k in u.values
    ensures exists i :: IsLastRow(rows, n + 1, k, i) && u.values[k] == QueryInfo(rows[i][1], rows[i][2])
  {
    if k == rows[n][0] {
      assert IsLastRow(rows, n + 1, k, n);
    } else {
      var i :| IsLastRow(rows, n, k, i) && t.values[k] == QueryInfo(rows[i][1], rows[i][2]);
      LastRowGrows(rows, n, k, i);
    }
  }

  /** The entry of every key parsed from the first m rows comes from its last row. */
  lemma {:induction false} QueryEntryPrefix(rows: seq<seq<string>>, m: nat)
    requires m <= |rows|
    requires forall i | 0 <= i < |rows| :: |rows[i]| >= 3
    ensures ParseRows(rows[..m]).Ok?
    ensures forall k | k in ParseRows(rows[..m]).value.values ::
      exists i :: IsLastRow(rows, m, k, i) && ParseRows(rows[..m]).value.values[k] == QueryInfo(rows[i][1], rows[i][2])
  {
    QueryPrefixOk(rows, m);
    if m > 0 {
      var n := m - 1;
      QueryEntryPrefix(rows, n);
      ParseRowsStep(rows, n);
      var t := ParseRows(rows[..n]).value;
      var u := t.Put(rows[n][0], QueryInfo(rows[n][1], rows[n][2]));
      forall k | k in u.values
        ensures exists i :: IsLastRow(rows, m, k, i) && u.values[k] == QueryInfo(rows[i][1], rows[i][2])
      {
        QueryEntryStep(rows, n, t, u, k);
      }
    }
  }

  /**
   * Every peptide of the file is a key; its entry comes from the LAST row with that peptide,
   * and fields after the third are ignored.
   */
  lemma QueryLastRowWins(rows: seq<seq<string>>)
    requires forall i | 0 <= i < |rows| :: |rows[i]| >= 3
    ensures ParseRows(rows).Ok?
    ensures ParseRows(rows).value.Valid()
    ensures forall k :: k in ParseRows(rows).value.values <==> exists i | 0 <= i < |rows| :: rows[i][0] == k
    ensures forall k | k in ParseRows(rows).value.values ::
      exists i :: IsLastRow(rows, |rows|, k, i) && ParseRows(rows).value.values[k] == QueryInfo(rows[i][1], rows[i][2])
  {
    QueryPrefixValid(rows, |rows|);
    QueryPrefix(rows, |rows|);
    QueryEntryPrefix(rows, |rows|);
    assert rows[..|rows|] == rows;
  }

  /** The first field of each row. */
  function Peptides(rows: seq<seq<string>>): (ps: seq<string>)
    requires forall i | 0 <= i < |rows| :: |rows[i]| >= 1
    ensures |ps| == |rows| && forall i | 0 <= i < |rows| :: ps[i] == rows[i][0]
  {
    seq(|rows|, i requires 0 <= i < |rows| && |rows[i]| >= 1 => rows[i][0])
  }

  /** QueryKeyOrder for the first m rows, by induction on m. */
  lemma {:induction false} QueryKeyPrefix(rows: seq<seq<string>>, m: nat)
    requires m <= |rows|
    requires forall i | 0 <= i < |rows| :: |rows[i]| >= 3
    ensures ParseRows(rows[..m]).Ok?
    ensures ParseRows(rows[..m]).value.keys == FirstSeen(Peptides(rows)[..m])
  {
    QueryPrefixOk(rows, m);
    if m > 0 {
      var n := m - 1;
      QueryKeyPrefix(rows, n);
      QueryPrefixValid(rows, n);
      ParseRowsStep(rows, n);
      var ps := Peptides(rows);
      SnocSlice(ps, n);
      PutFirstSeen(ParseRows(rows[..n]).value, ps[..n], rows[n][0], QueryInfo(rows[n][1], rows[n][2]));
    }
  }

  /** The dictionary's keys come in the order each peptide first appears in the file. */
  lemma QueryKeyOrder(rows: seq<seq<string>>)
    requires forall i | 0 <= i < |rows| :: |rows[i]| >= 3
    ensures ParseRows(rows).Ok?
    ensures ParseRows(rows).value.keys == FirstSeen(Peptides(rows))
  {
    QueryKeyPrefix(rows, |rows|);
    assert rows[..|rows|] == rows;
    assert Peptides(rows)[..|rows|] == Peptides(rows);
  }

  /* ---------------------------------------------------------------- matching */

  /** subject.residues[start:start + 13]: the window, cut short at the end of the sequence. */
  function Window(s: string, start: nat): string
  {
    Slice(s, start, start + WindowWidth)
  }

  /** name \t window \t motif \t group */
  function FormatLine(name: string, window: string, motif: string, group: string): string
  {
    name + "\t" + window + "\t" + motif + "\t" + group
  }

  /** The line reported for a query and a record, if the query occurs in the record's sequence. */
  function MatchLine(query: string, info: QueryInfo, rec: FastaRecord): Option<string>
  {
    var i := Find(rec.residues, query);
    if i >= 0 then Some(FormatLine(rec.name, Window(rec.residues, i), info.motif, info.group)) else None
  }

  /** The lines the inner loop reports for one query, in record order. */
  function RecordMatches(query: string, info: QueryInfo, recs: seq<FastaRecord>): seq<string>
  {
    if |recs| == 0 then []
    else
      var front := RecordMatches(query, info, recs[..|recs| - 1]);
      match MatchLine(query, info, recs[|recs| - 1])
      case Some(line) => front + [line]
      case None => front
  }

  /** The lines the nested loops report, query by query. */
  function Matches(queries: seq<(string, QueryInfo)>, recs: seq<FastaRecord>): seq<string>
  {
    if |queries| == 0 then []
    else
      var q := queries[|queries| - 1];
      Matches(queries[..|queries| - 1], recs) + RecordMatches(q.0, q.1, recs)
  }

  /** One more record adds its report line, if any, at the end. */
  lemma RecordMatchesStep(query: string, info: QueryInfo, recs: seq<FastaRecord>, j: nat)
    requires j < |recs|
    ensures var v := Find(recs[j].residues, query);
      RecordMatches(query, info, recs[..j + 1]) == RecordMatches(query, info, recs[..j]) +
        if v >= 0 then [FormatLine(recs[j].name, Window(recs[j].residues, v), info.motif, info.group)] else []
  {
    assert recs[..j + 1][..j] == recs[..j];
  }

  /** One more query adds its lines at the end. */
  lemma MatchesStep(queries: seq<(string, QueryInfo)>, recs: seq<FastaRecord>, i: nat)
    requires i < |queries|
    ensures Matches(queries[..i + 1], recs) == Matches(queries[..i], recs) + RecordMatches(queries[i].0, queries[i].1, recs)
  {
    assert queries[..i + 1][..i] == queries[..i];
  }

  /** The records whose sequence contains the query, in their order. */
  function Containing(query: string, recs: seq<FastaRecord>): (hits: seq<FastaRecord>)
    ensures forall r :: r in hits <==> r in recs && exists j :: OccursAt(r.residues, query, j)
  {
    if |recs| == 0 then []
    else
      var front := Containing(query, recs[..|recs| - 1]);
      var last := recs[|recs| - 1];
      assert recs == recs[..|recs| - 1] + [last];
      FindFirst(last.residues, query);
      if Find(last.residues, query) >= 0 then front + [last] else front
  }

  /** The search distributes over concatenation: record order is kept and each record is listed at most once. */
  lemma {:induction false} ContainingConcat(query: string, a: seq<FastaRecord>, b: seq<FastaRecord>)
    ensures Containing(query, a + b) == Containing(query, a) + Containing(query, b)
  {
    if |b| > 0 {
      var n := |b| - 1;
      assert (a + b)[..|a + b| - 1] == a + b[..n];
      ContainingConcat(query, a, b[..n]);
    } else {
      assert a + b == a;
    }
  }

  /** A report line appears exactly when the query occurs in the record's sequence. */
  lemma MatchLineIff(query: string, info: QueryInfo, rec: FastaRecord)
    ensures MatchLine(query, info, rec).Some? <==> exists j :: OccursAt(rec.residues, query, j)
    ensures MatchLine(query, info, rec).Some? ==>
      MatchLine(query, info, rec).value ==
        FormatLine(rec.name, Window(rec.residues, Find(rec.residues, query)), info.motif, info.group)
  {
    FindFirst(rec.residues, query);
  }

  /**
   * Exactly one line per record that contains the query, in record order, and none for the
   * others: a query found several times in one record is still reported once for it.
   */
  lemma {:induction false} OneLinePerHit(query: string, info: QueryInfo, recs: seq<FastaRecord>)
    ensures |RecordMatches(query, info, recs)| == |Containing(query, recs)|
    ensures forall i | 0 <= i < |Containing(query, recs)| ::
      Some(RecordMatches(query, info, recs)[i]) == MatchLine(query, info, Containing(query, recs)[i])
  {
    if |recs| > 0 {
      OneLinePerHit(query, info, recs[..|recs| - 1]);
    }
  }

  /** Results for the queries of a + b are those for a followed by those for b. */
  lemma {:induction false} MatchesConcat(a: seq<(string, QueryInfo)>, b: seq<(string, QueryInfo)>, recs: seq<FastaRecord>)
    ensures Matches(a + b, recs) == Matches(a, recs) + Matches(b, recs)
  {
    if |b| > 0 {
      var n := |b| - 1;
      assert (a + b)[..|a + b| - 1] == a + b[..n];
      MatchesConcat(a, b[..n], recs);
    } else {
      assert a + b == a;
    }
  }

  /**
   * The window starts at the first occurrence, is 13 characters long or cut at the end of the
   * sequence, and agrees with the query where both have characters.
   */
  lemma WindowAtMatch(s: string, query: string)
    requires Find(s, query) >= 0
    ensures var i := Find(s, query);
      var w := Window(s, i);
      && |w| == Min(WindowWidth, |s| - i)
      && w == s[i..i + |w|]
      && forall j | 0 <= j < |w| && j < |query| :: w[j] == query[j]
  {
    FindFirst(s, query);
    var i := Find(s, query);
    assert s[i..i + |query|] == query;
    var w := Window(s, i);
    forall j | 0 <= j < |w| && j < |query| ensures w[j] == query[j] {
      assert w[j] == s[i + j];
      assert s[i..i + |query|][j] == s[i + j];
    }
  }

  /** A report line splits on tabs into name, window, motif and group. */
  lemma FormatLineFields(name: string, window: string, motif: string, group: string)
    requires '\t' !in name && '\t' !in window && '\t' !in motif && '\t' !in group
    ensures Split(FormatLine(name, window, motif, group), '\t') == [name, window, motif, group]
  {
    var parts := [name, window, motif, group];
    assert parts[1..] == [window, motif, group];
    assert [window, motif, group][1..] == [motif, group];
    assert [motif, group][1..] == [group];
    assert Join([motif, group], '\t') == motif + "\t" + group;
    assert Join([window, motif, group], '\t') == window + "\t" + (motif + "\t" + group);
    assert Join(parts, '\t') == FormatLine(name, window, motif, group);
    SplitJoin(parts, '\t');
  }

  /* ---------------------------------------------------------------- the engine object */

  class ExactFastaMatch {
    var genes: seq<string>
    var fastaRec: seq<FastaRecord>
    var sequence: QueryTable
    var result: seq<string>

    ghost predicate Valid()
      reads this
    {
      sequence.Valid()
    }

    constructor (genes: seq<string>, fastaRec: seq<FastaRecord>, sequence: QueryTable)
      requires sequence.Valid()
      ensures Valid()
      ensures this.genes == genes && this.fastaRec == fastaRec && this.sequence == sequence
      ensures result == []
    {
      this.genes := genes;
      this.fastaRec := fastaRec;
      this.sequence := sequence;
      result := [];
    }

    /** getGeneList: one entry per line of the file, trailing whitespace removed, in file order. */
    static method GetGeneList(text: string) returns (genes: seq<string>)
      ensures |genes| == |FileLines(text)|
      ensures forall i | 0 <= i < |genes| :: genes[i] == RStrip(FileLines(text)[i])
    {
      var lines := FileLines(text);
      genes := [];
      for i := 0 to |lines|
        invariant |genes| == i
        invariant forall j | 0 <= j < i :: genes[j] == RStrip(lines[j])
      {
        genes := genes + [RStrip(lines[i])];
      }
    }

    /** filterFasta: keep the records whose name is in the gene list. */
    static method FilterFasta(records: seq<FastaRecord>, genes: seq<string>) returns (filtered: seq<FastaRecord>)
      ensures filtered == Kept(records, genes)
    {
      filtered := [];
      for i := 0 to |records|
        invariant filtered == Kept(records[..i], genes)
      {
        assert records[..i + 1][..i] == records[..i];
        if records[i].name in genes {
          filtered := filtered + [records[i]];
        }
      }
      assert records[..|records|] == records;
    }

    /** getQuerySeq: the peptide dictionary, or the IndexError a short line raises. */
    static method GetQuerySeq(text: string) returns (r: Result<QueryTable, QueryError>)
      ensures r == ParseQueries(text)
      ensures r.Ok? ==> r.value.Valid()
    {
      var lines := FileLines(text);
      var rows := QueryRows(lines);
      var seqlst: QueryTable := Empty();
      for i := 0 to |lines|
        invariant ParseRows(rows[..i]) == Ok(seqlst)
        invariant seqlst.Valid()
      {
        var row := CommaFields(lines[i]);
        assert rows[i] == row;
        if |row| < 3 {
          r := Err(ShortRow(i));
          ParseRowsFail(rows, i);
          return;
        }
        ParseRowsStep(rows, i);
        seqlst.PutValid(row[0], QueryInfo(row[1], row[2]));
        seqlst := seqlst.Put(row[0], QueryInfo(row[1], row[2]));
      }
      assert rows[..|lines|] == rows;
      r := Ok(seqlst);
    }

    /** __init__: load the gene list, filter the records, read the queries; no results yet. */
    static method Load(fasta: seq<FastaRecord>, seqText: string, geneText: string)
      returns (r: Result<ExactFastaMatch, QueryError>)
      ensures r.Err? <==> ParseQueries(seqText).Err?
      ensures r.Err? ==> r.error == ParseQueries(seqText).error
      ensures r.Ok? ==>
        && fresh(r.value) && r.value.Valid()
        && |r.value.genes| == |FileLines(geneText)|
        && (forall i | 0 <= i < |r.value.genes| :: r.value.genes[i] == RStrip(FileLines(geneText)[i]))
        && r.value.fastaRec == Kept(fasta, r.value.genes)
        && r.value.sequence == ParseQueries(seqText).value
        && r.value.result == []
    {
      var genes := GetGeneList(geneText);
      var kept := FilterFasta(fasta, genes);
      var queries := GetQuerySeq(seqText);
      match queries
      case Err(e) =>
        r := Err(e);
      case Ok(t) =>
        var engine := new ExactFastaMatch(genes, kept, t);
        r := Ok(engine);
    }

    /** matchSeq: append one line per (query, record) pair where the query occurs. */
    method MatchSeq()
      requires Valid()
      modifies this`result
      ensures Valid()
      ensures result == old(result) + Matches(sequence.Items(), fastaRec)
    {
      var items, recs := sequence.Items(), fastaRec;
      for i := 0 to |items|
        invariant result == old(result) + Matches(items[..i], recs)
      {
        MatchesStep(items, recs, i);
        MatchQuery(items[i].0, items[i].1);
      }
      assert items[..|items|] == items;
    }

    /** The inner loop of matchSeq: one query against every kept record, in record order. */
    method MatchQuery(query: string, info: QueryInfo)
      modifies this`result
      ensures result == old(result) + RecordMatches(query, info, fastaRec)
    {
      for j := 0 to |fastaRec|
        invariant result == old(result) + RecordMatches(query, info, fastaRec[..j])
      {
        RecordMatchesStep(query, info, fastaRec, j);
        var subject := fastaRec[j];
        var value := Find(subject.residues, query);
        if value >= 0 {
          var line := FormatLine(subject.name, Window(subject.residues, value), info.motif, info.group);
          result := result + [line];
        }
      }
      assert fastaRec[..|fastaRec|] == fastaRec;
    }

    /** writeResult: the output file holds the result lines, one per line, in list order. */
    method WriteResult() returns (out: string)
      ensures out == Unlines(result)
    {
      out := "";
      for i := 0 to |result|
        invariant out == Unlines(result[..i])
      {
        assert result[..i + 1][..i] == result[..i];
        out := out + result[i] + "\n";
      }
      assert result[..|result|] == result;
    }
  }
}
