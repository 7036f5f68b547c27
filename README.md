# motifx: the exact-match engine and the table bookkeeping, in Dafny

This project models two scripts that run one after the other:

- `Motifx.py` reads a converted spreadsheet of phosphopeptides.
  - It collects every peptide and its group under the peptide's `Ppep` key, keeps the set of
    genes, and takes the group label from the first key.
  - It writes the peptide upload file for the motif-x web site.
  - After the site answers, it writes a `peptide,group,motif` table.
- `exactFastaMatch.py` reads that table as its query file.
  - It keeps the reference protein records named in a gene list.
  - For every query peptide and every kept record, it reports the first place where the peptide
    occurs in the record's sequence: the record name, a 13-character window, the motif and the
    group.

The model covers the logic of both scripts that works on strings, lists and dictionaries.
Files are passed as their text. The reference records are passed as a sequence of
`(name, residues)` pairs.

Files:

| file | module | what it holds |
|---|---|---|
| `wrappers.dfy` | `Wrappers` | `Option` and `Result` |
| `text.dfy` | `Text` | `rstrip`, `split`, `join`, `startswith`, `find`, slicing, reading a text file line by line |
| `ordered_maps.dfy` | `OrderedMaps` | Python dictionaries, which iterate their keys in first-insertion order |
| `exact_fasta_match.dfy` | `ExactMatch` | the class `exactFastaMatch`: gene list, record filter, query dictionary, matching, writing results |
| `motifx.dfy` | `MotifxTool` | the class `Motifx` without its network code: `getPep`, `pepFile`, the result dictionary, `writeResults`, and the occurrence and width defaults of `main` |
| `motifx_table.dfy` | `MotifxTable` | what `getPep` builds from a table with one header line followed by data lines |

Each loop of the source is a method with a loop, proved against a function defined over a
prefix of its input.
- **`getQuerySeq`:** the function is `ParseRows`.
- **`filterFasta`:** the function is `Kept`.
- **`matchSeq`:** the functions are `Matches` and `RecordMatches`.
- **`getPep`:** the function is `PepFold`, a fold of `PepStep` over the lines.
- **`writeResults`:** the function is `WriteAll`.

The lemmas then say what those functions compute, in terms that do not mention the loop.

Where the code and its description differ, the model follows the code:

- **`find` reports only the first occurrence.** `matchSeq` writes at most one line per query and
  record, however often the query occurs in the sequence.
- **The window width is fixed at 13 characters.** It is not the `-w` width, and near the end of
  the sequence the slice is cut short, not padded.
- **In the query file, the last row for a peptide wins.** The peptide keeps the position of its
  first row in the key order. A row with fewer than three fields raises an `IndexError`
  (`QueryError.ShortRow`). Fields after the third are ignored.
- **The gene list keeps empty lines and duplicates.** It is a list, not a set.
- **`getPep`'s column order holds only partly.** It finds the three columns by name, so their
  order does not matter (`ColumnOrderFree`). But a line counts as the header only when its text
  starts with `Ppep`. A table whose header line does not start with `Ppep` (for instance one whose
  first column is `Group`) therefore fails on its first line (`HeaderMustComeFirst`).

## Model

| member | source | states |
|---|---|---|
| Text.RStripSpec | exactFastaMatch.py:87 | `rstrip()` removes a tail of whitespace and nothing else, and what is left does not end in whitespace |
| Text.SplitSpec | exactFastaMatch.py:77 | no piece of `split(sep)` holds the separator, and joining the pieces with it gives the line back |
| Text.SplitJoin | exactFastaMatch.py:77 | splitting pieces joined by a separator they do not contain gives the pieces back |
| Text.FindFirst | exactFastaMatch.py:109 | `find` returns -1 exactly when the query does not occur, and otherwise the lowest index where it occurs |
| Text.FileLines | Motifx.py:90-91 | the lines `for line in file` yields; `FileLinesSpec` states what they are |
| Text.FileLinesSpec | Motifx.py:90-91 | the lines put together give the whole text, none is empty, each ends at its first newline, and only the last may lack one |
| Text.FileLinesUnlines | exactFastaMatch.py:118-120 | reading back a file written one line per entry yields every entry, with its newline, in order |
| OrderedMaps.OrderedMap.Put | exactFastaMatch.py:78-79 | `d[k] = v` stores v under k and leaves every other key's value alone; a new key goes to the end of the key order, and an existing key keeps its place |
| OrderedMaps.OrderedMap.PutValid | exactFastaMatch.py:78-79 | after `d[k] = v` every key is still listed exactly once |
| OrderedMaps.OrderedMap.PutSame | exactFastaMatch.py:78-79 | storing a key's own value again leaves the dictionary unchanged |
| OrderedMaps.OrderedMap.PutPut | exactFastaMatch.py:78-79 | a second assignment to a key overrides the first |
| OrderedMaps.NoDuplicatesSpec | exactFastaMatch.py:72 | the key list of a dictionary has no duplicates exactly when any two positions hold different keys |
| OrderedMaps.FirstSeen | exactFastaMatch.py:107 | the keys in first-insertion order are distinct, each comes from the input, and every input value is among them |
| OrderedMaps.FirstSeenOrdered | exactFastaMatch.py:107 | the keys are listed in the order of their first appearance in the input: an earlier key first appears earlier |
| OrderedMaps.FirstSeenSnoc | exactFastaMatch.py:78 | one more insertion adds its key at the end exactly when the key is new |
| OrderedMaps.FirstSeenHas | exactFastaMatch.py:78 | a value is among the keys exactly when it was inserted |
| OrderedMaps.PutFirstSeen | exactFastaMatch.py:78 | a dictionary filled in the order of a list, after one more assignment, is filled in the order of the longer list |
| OrderedMaps.FirstSeenHead | Motifx.py:106 | the first key of a dictionary is the first key inserted |
| ExactMatch.GeneListRoundTrip | exactFastaMatch.py:82-89 | reading a gene file written one name per line gives every name back, in order, duplicates and empty names included |
| ExactMatch.ExactFastaMatch.GetGeneList | exactFastaMatch.py:82-89 | one entry per line of the file, in file order, each with trailing whitespace removed |
| ExactMatch.Kept | exactFastaMatch.py:91-102 | a record is kept exactly when it is in the input and its name is in the gene list |
| ExactMatch.KeptConcat | exactFastaMatch.py:98-102 | filtering distributes over concatenation, so the kept records keep their relative order |
| ExactMatch.KeptMultiplicity | exactFastaMatch.py:98-102 | every kept record occurs exactly as often as in the input and every other record never: nothing is added or lost |
| ExactMatch.ExactFastaMatch.FilterFasta | exactFastaMatch.py:91-102 | the loop returns the filtered records, `Kept(records, genes)` |
| ExactMatch.ParseRows | exactFastaMatch.py:75-79 | the dictionary the loop has built after a number of rows, or the first short row's error; `QueryFailsIffShortRow`, `QueryLastRowWins` and `QueryKeyOrder` state what it holds |
| ExactMatch.QueryFailsIffShortRow | exactFastaMatch.py:75-79 | reading the query rows fails exactly when some row has fewer than three fields, and the error names the first such row |
| ExactMatch.QueryLastRowWins | exactFastaMatch.py:70-80 | with no short row, the keys are exactly the first fields of the rows, and each key's group and motif come from its last row |
| ExactMatch.QueryKeyOrder | exactFastaMatch.py:72-79 | the dictionary's keys come in the order each peptide first appears in the file |
| ExactMatch.QueryPrefix | exactFastaMatch.py:75-79 | after the first m rows, a peptide is a key exactly when one of those rows starts with it |
| ExactMatch.QueryEntryPrefix | exactFastaMatch.py:75-79 | after the first m rows, every key's entry is the group and motif of its last row among them |
| ExactMatch.ExactFastaMatch.GetQuerySeq | exactFastaMatch.py:70-80 | the loop over the file's lines builds the dictionary `ParseQueries` describes, every key listed once, or stops with the error of the first short row |
| ExactMatch.ExactFastaMatch.constructor | exactFastaMatch.py:63-68 | the object holds the gene list, the kept records and the query dictionary, with no results yet |
| ExactMatch.ExactFastaMatch.Load | exactFastaMatch.py:63-68 | `__init__` fails exactly when the query file has a short row; otherwise the gene list, the kept records and the dictionary are those the three readers give, and the results are empty |
| ExactMatch.Containing | exactFastaMatch.py:108-110 | the records in which the query occurs somewhere, and only those |
| ExactMatch.ContainingConcat | exactFastaMatch.py:108-110 | the records of a + b that contain the query are those of a followed by those of b: record order is kept and no record is listed twice for several occurrences |
| ExactMatch.MatchLine | exactFastaMatch.py:109-113 | the line reported for one query and one record, if any; `MatchLineIff` and `WindowAtMatch` state when there is one and what it holds |
| ExactMatch.RecordMatches | exactFastaMatch.py:108-114 | the lines the inner loop reports for one query; `OneLinePerHit` states that they are one per record containing the query, in record order |
| ExactMatch.Matches | exactFastaMatch.py:107-114 | the lines of both loops, query by query; `MatchesConcat` states that they come in query order |
| ExactMatch.MatchLineIff | exactFastaMatch.py:108-114 | a line is reported for a query and a record exactly when the query occurs in the record's sequence, and it is built from the first occurrence |
| ExactMatch.OneLinePerHit | exactFastaMatch.py:108-114 | one query gives exactly one line per record that contains it, in record order, and none for the others |
| ExactMatch.MatchesConcat | exactFastaMatch.py:107-114 | the lines for a list of queries are those of its first part followed by those of its second: results come in query-key order |
| ExactMatch.WindowAtMatch | exactFastaMatch.py:109-113 | the window starts at the first occurrence, its length is `min(13, len(seq) - start)`, it is that slice of the sequence, and it agrees with the query on their common length |
| ExactMatch.FormatLineFields | exactFastaMatch.py:113 | a result line splits on tabs into name, window, motif and group |
| ExactMatch.ExactFastaMatch.MatchSeq | exactFastaMatch.py:104-114 | `matchSeq` only appends, and what it appends is the lines for every query in key order, each over the kept records in order |
| ExactMatch.ExactFastaMatch.MatchQuery | exactFastaMatch.py:108-114 | the inner loop appends the lines of one query over the kept records, in record order |
| ExactMatch.ExactFastaMatch.WriteResult | exactFastaMatch.py:116-121 | the output file holds the results, one per line, in list order |
| MotifxTool.IndexOf | Motifx.py:95-97 | `list.index`: none exactly when the name is missing, and otherwise the lowest position holding it |
| MotifxTool.HeaderColumns | Motifx.py:94-97 | the three `index` calls on the header fields; `HeaderColumnsSpec` states what they give |
| MotifxTool.HeaderColumnsSpec | Motifx.py:94-97 | the header is read exactly when it names all three columns; each position holds its name and no earlier field does; otherwise the error names the first of peptide, `Ppep`, group that is missing |
| MotifxTool.ReadHeader | Motifx.py:94-97 | the three `index` calls in their order: success exactly when all three names are present, each position the first field with that name, and otherwise the first missing name in lookup order is the error |
| MotifxTool.GenePrefixSpec | Motifx.py:102-103 | the gene is the part of the Ppep value before the first `_`, or all of it when it has no `_` |
| MotifxTool.AddRow | Motifx.py:100-103 | one data row appended under its Ppep key and its gene added; `RowsEntries`, `RowsKeys` and `RowsGenes` state what a table of rows gives |
| MotifxTool.PepStep | Motifx.py:92-103 | one pass of the loop; `PepStepPairs` states the invariant it keeps |
| MotifxTool.PepFold | Motifx.py:90-103 | the whole loop over the lines; `PepFoldPairs`, `PepFoldErr`, `PepFoldErrLine` and `PepTable` state what it gives |
| MotifxTool.PutPairs | Motifx.py:100-101 | storing a list of at least a peptide and a group keeps every value such a list |
| MotifxTool.PepStepPairs | Motifx.py:99-101 | one line of `getPep` keeps every value a list of at least a peptide and a group |
| MotifxTool.PepFoldPairs | Motifx.py:90-103 | the whole loop keeps every value a list of at least a peptide and a group |
| MotifxTool.PepFoldErr | Motifx.py:90-103 | once a line raises, the loop stops and the rest of the file does not matter |
| MotifxTool.PepFoldErrLine | Motifx.py:90-103 | an error names a line of the file, and the lines before it are read without error |
| MotifxTool.Motifx.constructor | Motifx.py:64-78 | occurrence and width as given, an empty group, an empty `pep`, an empty gene set and an empty result dictionary |
| MotifxTool.Motifx.ReadLine | Motifx.py:92-103 | one pass of the loop is one `PepStep`: a header sets the columns, a data row appends its peptide and group and adds its gene; on an error the error for that line is returned and the model leaves the fields as they were (see "Left out") |
| MotifxTool.Motifx.AppendRow | Motifx.py:100-103 | the two appends and the set add together are one `AddRow` |
| MotifxTool.Motifx.GetPep | Motifx.py:81-106 | on success `pep` and `geneList` are the fold of every line and `group` is the group of the first key; on an error the error of the first failing line is returned and the model leaves `pep` and `geneList` as the fold of the lines before it (see "Left out"); an empty `pep` is the `StopIteration` of line 106 |
| MotifxTable.TableFold | Motifx.py:90-103 | the header and the first m data lines fold to the state of the first m rows |
| MotifxTable.ReadTable | Motifx.py:90-103 | a file holding a header line then data lines is read into the fold of `AddRow` over its rows |
| MotifxTable.RowsPairs | Motifx.py:99-101 | every list holds at least a peptide and a group |
| MotifxTable.RowsKeys | Motifx.py:100-101 | the keys are the distinct Ppep values in order of first appearance |
| MotifxTable.RowsEntries | Motifx.py:99-101 | each key's list is the peptide then the group of every row with that Ppep value, in row order |
| MotifxTable.RowsGenes | Motifx.py:102-103 | the gene set is the gene of every row and nothing else |
| MotifxTable.PepTable | Motifx.py:81-106 | reading a table gives the keys in first-appearance order, the lists of peptide and group per row, and the gene set of all rows |
| MotifxTable.CollectedFirst | Motifx.py:99-101 | a key's list starts with the peptide and the group of its first row |
| MotifxTable.ColumnOrderFree | Motifx.py:93-97 | two tables with the same rows and the named columns at different positions give the same `pep` and gene set |
| MotifxTable.HeaderMustComeFirst | Motifx.py:93 | a first line whose text does not start with `Ppep` is not a header, and reading fails on line 0 |
| MotifxTable.GroupIsFirstRow | Motifx.py:106 | `group` is the group of the first data row |
| MotifxTable.PepFileFirstRows | Motifx.py:123-124 | line i of the peptide file is the peptide of the first row whose Ppep value is the i-th key |
| MotifxTool.FirstPeptides | Motifx.py:123-124 | one line per key |
| MotifxTool.Motifx.PepFile | Motifx.py:116-125 | the file holds the first peptide of every key, one per line, in key order |
| MotifxTool.Motifx.AddMotif | Motifx.py:240-243 | a new motif key is created, then every child's text is appended to its list; other keys are untouched |
| MotifxTool.Trim | Motifx.py:268-269 | two `pop(0)` and three `pop()` leave the lines without the first two and the last three, and fail on fewer than five lines |
| MotifxTool.MotifRows | Motifx.py:266-273 | a motif fails exactly when it has no text or its text has fewer than five lines, and otherwise gives five rows fewer than its text has lines |
| MotifxTool.FormatRowFields | Motifx.py:271-272 | a written row splits on commas back into peptide, group and motif, the three fields `getQuerySeq` reads |
| MotifxTool.WriteRows | Motifx.py:270-273 | every remaining line is written as `line,group,motif`, in order |
| MotifxTool.WriteMotif | Motifx.py:266-273 | one motif's rows are appended to what was written, or nothing is written and the error is returned |
| MotifxTool.WriteAll | Motifx.py:266-273 | the rows of the motifs in key order up to the first that fails; `WriteAllStops` and `WriteMotif` state what it holds |
| MotifxTool.WriteAllStops | Motifx.py:266-273 | after a motif that fails, nothing more is written |
| MotifxTool.Motifx.WriteResults | Motifx.py:260-273 | the file holds the rows of every motif in key order, up to the first motif that fails |
| MotifxTool.ChooseOccurrence | Motifx.py:332-342 | without `-o` the occurrence is 10; a given value is kept exactly when it is all digits, and otherwise the program exits |
| MotifxTool.ChooseWidth | Motifx.py:364-368 | without `-w`, or with 0, the width is 13; any other value is kept |

## Left out

- File and process I/O are left out: `open`, `write`, `os.getcwd`, `os.mkdir`, `shutil`, logging and the `tqdm` progress bars. Every file is passed as its text, taken after newline translation, and every written file is returned as its text.
- Text.FileLines: newline translation of `\r` and `\r\n` is not modelled; file text is taken after translation. Text-mode `open(..., 'r')` turns both into `\n`, so `GeneListRoundTrip` and `FileLinesUnlines` hold of the source only for that translated text.
- MotifxTool.Motifx.ReadLine: the partial update before an `IndexError` is not modelled. In the source, `self.pep[data[geneCol]]` (Motifx.py:100) creates the key before `data[pepCol]` is read, and line 100's append is done before line 101's `data[groupCol]` raises, so a short row can leave an extra `[]` or `[peptide]` under its key. The exception then escapes `__init__` (Motifx.py:76), so no object survives; the model returns the error and leaves the fields unchanged.
- MotifxTool.Motifx.GetPep: on an error the source aborts construction; the model's separate `GetPep` leaves a live object holding the fold of the lines before the failing one.
- ExactMatch.ExactFastaMatch.GetQuerySeq: a row with exactly two fields stores its group in the local dictionary (exactFastaMatch.py:78) before `row[2]` raises; the dictionary is discarded with the exception, and the model returns only the error.
- FASTA parsing (`SeqIO.parse`, exactFastaMatch.py:94) is BioPython and is not part of this model. Records are given as `(name, residues)` pairs.
- `submitMotifX` and `parseResults` (Motifx.py:147-258) are HTTP requests, sleeps, image downloads and HTML scraping. Only their update of the result dictionary (lines 240-243) is modelled, as `AddMotif`, with the link texts as parameters.
- `excelToText` (Motifx.py:127-145) uses foreign spreadsheet libraries; `getPep` is given the converted text.
- `writeGeneList` (Motifx.py:108-114) writes a set, whose iteration order is unspecified. The gene set itself is modelled.
- The argument parsing of both `main` functions, their help text and `sys.exit` are left out, apart from the occurrence and width defaults.
- The significance checks (Motifx.py:345-352) compare floating-point numbers and are left out.
- The output file names built with `re.sub` are left out.
- `Motifx.__init__` calls `excelToText`, `getPep` and `writeGeneList`. The constructor models only the fields it sets; `GetPep` is the separate step that follows.
- ChooseOccurrence: Python's default occurrence is the integer 10 and a given one is the text; the model returns both as text ("10").
- ChooseOccurrence: `str.isdigit()` is modelled for the ASCII digits only; Python also accepts other Unicode digit characters.
- MotifxTool.IsHeader, Text.RStrip: `rstrip()` uses Python's whitespace characters as listed in `Text.IsSpace`; no other Unicode handling (normalisation, case folding, encodings) is modelled.
- `"".join(row)` in `writeResults` (Motifx.py:271) joins the characters of a string, which gives the string back; the model uses the row itself.
- `out.close` without a call (exactFastaMatch.py:121) has no effect and is not modelled.
