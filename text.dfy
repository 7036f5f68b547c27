/**
 * The few Python string and file operations the two scripts rely on:
 * str.rstrip(), str.split(sep), str.join, str.startswith, str.find,
 * slicing with non-negative bounds, and iterating a text file line by line.
 */
module Text {

  /** Python's str.isspace() for one character. */
  predicate IsSpace(c: char) {
    c == ' ' || '\t' <= c <= '\r' || '\U{1c}' <= c <= '\U{1f}' || c == '\U{85}' || c == '\U{a0}'
    || c == '\U{1680}' || '\U{2000}' <= c <= '\U{200a}' || c == '\U{2028}' || c == '\U{2029}'
    || c == '\U{202f}' || c == '\U{205f}' || c == '\U{3000}'
  }

  /** s.rstrip(): drop all trailing whitespace. */
  function RStrip(s: string): string
  {
    if s != "" && IsSpace(s[|s| - 1]) then RStrip(s[..|s| - 1]) else s
  }

  /** rstrip() removes a whitespace tail and nothing else. */
  lemma {:induction false} RStripSpec(s: string)
    ensures RStrip(s) <= s
    ensures RStrip(s) == "" || !IsSpace(RStrip(s)[|RStrip(s)| - 1])
    ensures forall i | |RStrip(s)| <= i < |s| :: IsSpace(s[i])
  {
    if s != "" && IsSpace(s[|s| - 1]) {
      RStripSpec(s[..|s| - 1]);
    }
  }

  /** sep.join(parts) for a one-character separator. */
  function Join(parts: seq<string>, sep: char): string
  {
    if |parts| == 0 then ""
    else if |parts| == 1 then parts[0]
    else parts[0] + [sep] + Join(parts[1..], sep)
  }

  /** s.split(sep): n separators give n + 1 pieces, none of them holding the separator. */
  function Split(s: string, sep: char): (parts: seq<string>)
    ensures |parts| >= 1
  {
    if |s| == 0 then [""]
    else if s[0] == sep then [""] + Split(s[1..], sep)
    else
      var rest := Split(s[1..], sep);
      [[s[0]] + rest[0]] + rest[1..]
  }

  /** No piece holds the separator, and joining the pieces with it gives s back. */
  lemma {:induction false} SplitSpec(s: string, sep: char)
    ensures forall i | 0 <= i < |Split(s, sep)| :: sep !in Split(s, sep)[i]
    ensures Join(Split(s, sep), sep) == s
  {
    if |s| > 0 {
      SplitSpec(s[1..], sep);
      var rest := Split(s[1..], sep);
      if s[0] == sep {
        assert [sep] + s[1..] == s;
      } else {
        assert [s[0]] + s[1..] == s;
        JoinConsFirst(s[0], rest[0], rest[1..], sep);
        assert rest == [rest[0]] + rest[1..];
      }
    }
  }

  /** Putting one character in front of the first piece puts it in front of the joined text. */
  lemma JoinConsFirst(c: char, p: string, ps: seq<string>, sep: char)
    ensures Join([[c] + p] + ps, sep) == [c] + Join([p] + ps, sep)
  {
    if |ps| > 0 {
      assert ([[c] + p] + ps)[1..] == ps;
      assert ([p] + ps)[1..] == ps;
    }
  }

  /** A piece without the separator splits to itself. */
  lemma {:induction false} SplitNoSep(s: string, sep: char)
    requires sep !in s
    ensures Split(s, sep) == [s]
  {
    if |s| > 0 {
      SplitNoSep(s[1..], sep);
      assert [s[0]] + s[1..] == s;
    }
  }

  /** Splitting around one separator splits each side. */
  lemma {:induction false} SplitAppend(a: string, b: string, sep: char)
    ensures Split(a + [sep] + b, sep) == Split(a, sep) + Split(b, sep)
  {
    if |a| == 0 {
      assert a + [sep] + b == [sep] + b;
      assert ([sep] + b)[1..] == b;
    } else {
      var s := a + [sep] + b;
      assert s[0] == a[0];
      assert s[1..] == a[1..] + [sep] + b;
      SplitAppend(a[1..], b, sep);
    }
  }

  /** Joining pieces that hold no separator and splitting again gives the pieces back. */
  lemma {:induction false} SplitJoin(parts: seq<string>, sep: char)
    requires |parts| >= 1
    requires forall i | 0 <= i < |parts| :: sep !in parts[i]
    ensures Split(Join(parts, sep), sep) == parts
  {
    SplitNoSep(parts[0], sep);
    if |parts| > 1 {
      SplitJoin(parts[1..], sep);
      SplitAppend(parts[0], Join(parts[1..], sep), sep);
      assert parts == [parts[0]] + parts[1..];
    }
  }

  /** The first piece of s.split(sep) is the text before the first separator. */
  lemma {:induction false} SplitFirst(s: string, sep: char)
    ensures Split(s, sep)[0] <= s
    ensures |Split(s, sep)[0]| == |s| || s[|Split(s, sep)[0]|] == sep
  {
    if |s| > 0 && s[0] != sep {
      SplitFirst(s[1..], sep);
    }
  }

  /** line.rstrip().split(','): the fields of one comma-separated line. */
  function CommaFields(line: string): seq<string>
  {
    Split(RStrip(line), ',')
  }

  /** s.startswith(prefix). */
  predicate StartsWith(s: string, prefix: string) {
    prefix <= s
  }

  /** q occurs in s starting at index i. */
  predicate OccursAt(s: string, q: string, i: int) {
    0 <= i && i + |q| <= |s| && s[i..i + |q|] == q
  }

  /** s[i + k..i + |q|] and q[k..] agree, compared one character at a time. */
  predicate AgreesFrom(s: string, q: string, i: nat, k: nat)
    requires i + |q| <= |s| && k <= |q|
    decreases |q| - k
  {
    k == |q| || (s[i + k] == q[k] && AgreesFrom(s, q, i, k + 1))
  }

  lemma {:induction false} AgreesFromSlices(s: string, q: string, i: nat, k: nat)
    requires i + |q| <= |s| && k <= |q|
    ensures AgreesFrom(s, q, i, k) <==> s[i + k..i + |q|] == q[k..]
    decreases |q| - k
  {
    if k < |q| {
      AgreesFromSlices(s, q, i, k + 1);
      assert s[i + k..i + |q|] == [s[i + k]] + s[i + k + 1..i + |q|];
      assert q[k..] == [q[k]] + q[k + 1..];
    }
  }

  /** s.find(q, i): the lowest index from i on where q occurs, or -1. */
  function FindFrom(s: string, q: string, i: nat): int
    decreases |s| - i
  {
    if i + |q| > |s| then -1
    else if AgreesFrom(s, q, i, 0) then i
    else FindFrom(s, q, i + 1)
  }

  /** s.find(q): the first occurrence of q in s, or -1 when q does not occur. */
  function Find(s: string, q: string): int
  {
    FindFrom(s, q, 0)
  }

  lemma {:induction false} FindFromFirst(s: string, q: string, i: nat)
    ensures FindFrom(s, q, i) == -1 || (i <= FindFrom(s, q, i) && OccursAt(s, q, FindFrom(s, q, i)))
    ensures forall j | i <= j && (FindFrom(s, q, i) == -1 || j < FindFrom(s, q, i)) :: !OccursAt(s, q, j)
    decreases |s| - i
  {
    if i + |q| <= |s| {
      AgreesFromSlices(s, q, i, 0);
      if !AgreesFrom(s, q, i, 0) {
        FindFromFirst(s, q, i + 1);
      }
    }
  }

  /** find() reports -1 exactly when q does not occur, and otherwise the lowest index where it does. */
  lemma FindFirst(s: string, q: string)
    ensures Find(s, q) == -1 <==> forall j :: !OccursAt(s, q, j)
    ensures Find(s, q) != -1 ==> OccursAt(s, q, Find(s, q)) && forall j | j < Find(s, q) :: !OccursAt(s, q, j)
  {
    FindFromFirst(s, q, 0);
  }

  function Min(a: int, b: int): int {
    if a <= b then a else b
  }

  /** s[lo:hi] for non-negative bounds: both are clipped to len(s), and an empty range gives "". */
  function Slice(s: string, lo: nat, hi: nat): string
  {
    var a := Min(lo, |s|);
    var b := Min(hi, |s|);
    if b <= a then "" else s[a..b]
  }

  /** The text written by writing each line followed by a newline. */
  function Unlines(lines: seq<string>): string
  {
    if |lines| == 0 then "" else Unlines(lines[..|lines| - 1]) + lines[|lines| - 1] + "\n"
  }

  /** Each line with its newline put back. */
  function Terminated(lines: seq<string>): (r: seq<string>)
    ensures |r| == |lines|
    ensures forall i | 0 <= i < |r| :: r[i] == lines[i] + "\n"
  {
    seq(|lines|, i requires 0 <= i < |lines| => lines[i] + "\n")
  }

  /**
   * The lines `for line in file` yields from a file holding `text`: every line keeps its
   * newline, and a last line without one is yielded as it is.
   */
  function FileLines(text: string): (lines: seq<string>)
  {
    var p := Split(text, '\n');
    Terminated(p[..|p| - 1]) + (if p[|p| - 1] == "" then [] else [p[|p| - 1]])
  }

  /** Splitting written lines on newlines finds the lines again, then what follows them. */
  lemma {:induction false} SplitUnlines(lines: seq<string>, t: string)
    requires forall i | 0 <= i < |lines| :: '\n' !in lines[i]
    ensures Split(Unlines(lines) + t, '\n') == lines + Split(t, '\n')
  {
    if |lines| == 0 {
      assert Unlines(lines) + t == t;
    } else {
      var n := |lines| - 1;
      var front, last := lines[..n], lines[n];
      var rest := last + "\n" + t;
      calc {
        Split(Unlines(lines) + t, '\n');
        { assert Unlines(lines) + t == Unlines(front) + rest; }
        Split(Unlines(front) + rest, '\n');
        { SplitUnlines(front, rest); }
        front + Split(rest, '\n');
        { assert rest == last + ['\n'] + t; SplitAppend(last, t, '\n'); }
        front + (Split(last, '\n') + Split(t, '\n'));
        { SplitNoSep(last, '\n'); }
        front + ([last] + Split(t, '\n'));
        { assert lines == front + [last]; }
        lines + Split(t, '\n');
      }
    }
  }

  /** Reading back a file written line by line yields each line with its newline, in order. */
  lemma FileLinesUnlines(lines: seq<string>)
    requires forall i | 0 <= i < |lines| :: '\n' !in lines[i]
    ensures FileLines(Unlines(lines)) == Terminated(lines)
  {
    SplitUnlines(lines, "");
    assert Unlines(lines) + "" == Unlines(lines);
    assert (lines + [""])[..|lines|] == lines;
  }

  /** "".join(parts). */
  function Concat(parts: seq<string>): string
  {
    if |parts| == 0 then "" else Concat(parts[..|parts| - 1]) + parts[|parts| - 1]
  }

  /** Writing lines one by one with their newlines is joining the terminated lines. */
  lemma {:induction false} ConcatTerminated(lines: seq<string>)
    ensures Concat(Terminated(lines)) == Unlines(lines)
  {
    if |lines| > 0 {
      var n := |lines| - 1;
      ConcatTerminated(lines[..n]);
      assert Terminated(lines)[..n] == Terminated(lines[..n]);
    }
  }

  /** The text is its newline-free pieces but the last, each written with its newline, then the last piece. */
  lemma SplitLines(text: string)
    ensures var p := Split(text, '\n');
      && (forall i | 0 <= i < |p| :: '\n' !in p[i])
      && text == Unlines(p[..|p| - 1]) + p[|p| - 1]
  {
    var p := Split(text, '\n');
    var n := |p| - 1;
    SplitSpec(text, '\n');
    assert forall i | 0 <= i < n :: '\n' !in p[..n][i];
    SplitUnlines(p[..n], p[n]);
    SplitNoSep(p[n], '\n');
    assert p[..n] + [p[n]] == p;
    SplitSpec(Unlines(p[..n]) + p[n], '\n');
  }

  /** Putting the lines of a file together gives its text back. */
  lemma FileLinesConcat(text: string)
    ensures Concat(FileLines(text)) == text
  {
    var p := Split(text, '\n');
    var n := |p| - 1;
    SplitLines(text);
    ConcatTerminated(p[..n]);
    var lines := FileLines(text);
    if p[n] != "" {
      assert lines[..|lines| - 1] == Terminated(p[..n]);
    } else {
      assert lines == Terminated(p[..n]);
    }
  }

  /** No line is empty, each ends at its first newline, and only the last may lack one. */
  lemma FileLinesShape(text: string)
    ensures forall i | 0 <= i < |FileLines(text)| :: FileLines(text)[i] != ""
    ensures forall i | 0 <= i < |FileLines(text)| - 1 :: FileLines(text)[i][|FileLines(text)[i]| - 1] == '\n'
    ensures forall i, j | 0 <= i < |FileLines(text)| && 0 <= j < |FileLines(text)[i]| - 1 :: FileLines(text)[i][j] != '\n'
  {
    var p := Split(text, '\n');
    var n := |p| - 1;
    SplitLines(text);
    var lines := FileLines(text);
    forall i, j | 0 <= i < |lines| && 0 <= j < |lines[i]| - 1
      ensures lines[i][j] != '\n'
    {
      if i < n {
        assert lines[i] == p[i] + "\n";
      } else {
        assert lines[i] == p[n];
      }
    }
  }

  /**
   * What file iteration yields, independently of how it is computed: the lines put together
   * give the whole text, none is empty, each ends at its first newline, and only the last may
   * lack one.
   */
  lemma FileLinesSpec(text: string)
    ensures Concat(FileLines(text)) == text
    ensures forall i | 0 <= i < |FileLines(text)| :: FileLines(text)[i] != ""
    ensures forall i | 0 <= i < |FileLines(text)| - 1 :: FileLines(text)[i][|FileLines(text)[i]| - 1] == '\n'
    ensures forall i, j | 0 <= i < |FileLines(text)| && 0 <= j < |FileLines(text)[i]| - 1 :: FileLines(text)[i][j] != '\n'
  {
    FileLinesConcat(text);
    FileLinesShape(text);
  }

  /** The newline at the end of a file line is removed by rstrip(). */
  lemma RStripNewline(s: string)
    ensures RStrip(s + "\n") == RStrip(s)
  {
    assert (s + "\n")[..|s|] == s;
  }

  /** rstrip() leaves alone a string that does not end in whitespace. */
  lemma RStripKeeps(s: string)
    requires s == "" || !IsSpace(s[|s| - 1])
    ensures RStrip(s) == s
  {
  }

  /** A prefix one longer is the prefix and the next element. */
  lemma SnocSlice<T>(xs: seq<T>, n: nat)
    requires n < |xs|
    ensures xs[..n + 1] == xs[..n] + [xs[n]]
  {
  }
}
