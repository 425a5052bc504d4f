/**
 * The per-line tokeniser of the CSV reader: split on commas the way
 * `std::getline(ss, token, ',')` does, strip double quotes from each token,
 * and keep the line only when it yields exactly 18 columns.  This is plain
 * splitting, not RFC 4180: a comma inside quotes still splits.
 */
module CsvLine {
  import opened Wrappers
  import opened Hashing

  /** A token or column: a byte string. */
  type Field = seq<Char>

  const COMMA: Char := 44
  const QUOTE: Char := 34

  /** Number of columns of a record row. */
  const COLUMNS: int := 18

  /** Index of the hybrid column. */
  const HYBRID_COLUMN: int := 5

  /** The text "True". */
  const TRUE_TEXT: Field := [84, 114, 117, 101]

  /** Position of the first `c` in `s`, or |s| when there is none (`find_first_of`, npos as |s|). */
  function IndexOf(s: seq<Char>, c: Char): (r: int)
    ensures 0 <= r <= |s|
    ensures r < |s| ==> s[r] == c
    ensures forall k :: 0 <= k < r ==> s[k] != c
  {
    if s == [] then 0
    else if s[0] == c then 0
    else 1 + IndexOf(s[1..], c)
  }

  /** Position of the last `c` in `s`, or -1 when there is none (`find_last_of`, npos as -1). */
  function LastIndexOf(s: seq<Char>, c: Char): (r: int)
    ensures -1 <= r < |s|
    ensures r >= 0 ==> s[r] == c
    ensures forall k :: r < k < |s| ==> s[k] != c
    decreases |s|
  {
    if s == [] then -1
    else if s[|s| - 1] == c then |s| - 1
    else LastIndexOf(s[..|s| - 1], c)
  }

  /**
   * The tokens `getline` yields with ',' as delimiter: the text between commas;
   * a trailing comma yields no empty last token, and an empty line no token.
   */
  function Split(s: seq<Char>): (r: seq<Field>)
    ensures r == [] <==> s == []
    decreases |s|
  {
    if s == [] then []
    else
      var k := IndexOf(s, COMMA);
      if k == |s| then [s] else [s[..k]] + Split(s[k + 1..])
  }

  /** The tokens put back together with commas between them. */
  function Join(fs: seq<Field>): seq<Char> {
    if fs == [] then []
    else if |fs| == 1 then fs[0]
    else fs[0] + [COMMA] + Join(fs[1..])
  }

  /** Number of commas in `s`. */
  function Commas(s: seq<Char>): nat {
    if s == [] then 0 else (if s[0] == COMMA then 1 else 0) + Commas(s[1..])
  }

  /**
   * The column kept for a token: with a quote in it, the text after the first
   * quote and before the last one; with a single quote, `end - start - 1`
   * wraps around as a size_t and `substr` keeps everything after the quote.
   * Without quotes the token is kept as it is.
   */
  function StripQuotes(token: Field): (r: Field)
    ensures |r| <= |token|
    ensures (forall k :: 0 <= k < |token| ==> token[k] != QUOTE) ==> r == token
  {
    var start := IndexOf(token, QUOTE);
    if start == |token| then token
    else
      var end := LastIndexOf(token, QUOTE);
      if end == start then token[start + 1..] else token[start + 1..end]
  }

  /** Each token with its quotes stripped. */
  function StripAll(fs: seq<Field>): (cols: seq<Field>)
    ensures |cols| == |fs|
    ensures forall i :: 0 <= i < |cols| ==> cols[i] == StripQuotes(fs[i])
  {
    if fs == [] then [] else StripAll(fs[..|fs| - 1]) + [StripQuotes(fs[|fs| - 1])]
  }

  /** Every token of the line with its quotes stripped. */
  function Tokens(line: seq<Char>): (cols: seq<Field>)
    ensures |cols| == |Split(line)|
    ensures forall i :: 0 <= i < |cols| ==> cols[i] == StripQuotes(Split(line)[i])
  {
    StripAll(Split(line))
  }

  /** The columns of an accepted line, or None for a line skipped for not having 18 columns. */
  function Row(line: seq<Char>): (r: Option<seq<Field>>)
    ensures r.Some? <==> |Split(line)| == COLUMNS
    ensures r.Some? ==> r.value == Tokens(line)
  {
    var cols := Tokens(line);
    if |cols| == COLUMNS then Some(cols) else None
  }

  /** The hybrid flag of a row: set only by the exact column text "True". */
  function Hybrid(cols: seq<Field>): bool
    requires |cols| == COLUMNS
  {
    cols[HYBRID_COLUMN] == TRUE_TEXT
  }

  // ---------------------------------------------------------------------------
  // Lemmas about the specification

  /** No token contains the delimiter. */
  lemma {:induction false} SplitTokensHaveNoComma(s: seq<Char>)
    ensures forall i, k :: 0 <= i < |Split(s)| && 0 <= k < |Split(s)[i]| ==> Split(s)[i][k] != COMMA
    decreases |s|
  {
    if s != [] {
      var k := IndexOf(s, COMMA);
      if k < |s| {
        SplitTokensHaveNoComma(s[k + 1..]);
      }
    }
  }

  /** Splitting at the first comma. */
  lemma SplitAtComma(s: seq<Char>, k: int)
    requires 0 <= k < |s| && s[k] == COMMA
    requires forall j :: 0 <= j < k ==> s[j] != COMMA
    ensures Split(s) == [s[..k]] + Split(s[k + 1..])
  {
    assert IndexOf(s, COMMA) == k;
  }

  /** The tokens of the rest of a line, from a token's start to past the comma that ends it. */
  lemma SplitStep(line: seq<Char>, start: int, i: int)
    requires 0 <= start <= i < |line| && line[i] == COMMA
    requires forall k :: start <= k < i ==> line[k] != COMMA
    ensures Split(line[start..]) == [line[start..i]] + Split(line[i + 1..])
  {
    var rest := line[start..];
    var k := i - start;
    assert rest[k] == COMMA;
    assert forall j :: 0 <= j < k ==> rest[j] == line[start + j];
    SplitAtComma(rest, k);
    assert rest[..k] == line[start..i];
    assert rest[k + 1..] == line[i + 1..];
  }

  /** Stripping one more token. */
  lemma StripAllAppend(fs: seq<Field>, f: Field)
    ensures StripAll(fs + [f]) == StripAll(fs) + [StripQuotes(f)]
  {
    assert (fs + [f])[..|fs|] == fs;
  }

  /** A non-empty line without a comma is a single token. */
  lemma SplitNoComma(s: seq<Char>)
    requires forall j :: 0 <= j < |s| ==> s[j] != COMMA
    ensures Split(s) == if s == [] then [] else [s]
  {
    if s != [] { assert IndexOf(s, COMMA) == |s|; }
  }

  /**
   * Round trip: comma-free tokens joined with commas split back into the same
   * tokens, unless the last one is empty (`getline` drops it).
   */
  lemma {:induction false} SplitJoin(fs: seq<Field>)
    requires forall i, k :: 0 <= i < |fs| && 0 <= k < |fs[i]| ==> fs[i][k] != COMMA
    requires fs != [] ==> fs[|fs| - 1] != []
    ensures Split(Join(fs)) == fs
  {
    if |fs| == 1 {
      SplitNoComma(fs[0]);
    } else if |fs| > 1 {
      var s := Join(fs);
      assert s == fs[0] + [COMMA] + Join(fs[1..]);
      assert s[..|fs[0]|] == fs[0];
      assert s[|fs[0]| + 1..] == Join(fs[1..]);
      SplitAtComma(s, |fs[0]|);
      SplitJoin(fs[1..]);
    }
  }

  /**
   * Round trip the other way: joining the tokens gives the line back, minus a
   * trailing comma, which `getline` swallows.
   */
  lemma {:induction false} JoinSplit(s: seq<Char>)
    ensures s == [] || s[|s| - 1] != COMMA ==> Join(Split(s)) == s
    ensures s != [] && s[|s| - 1] == COMMA ==> Join(Split(s)) + [COMMA] == s
    decreases |s|
  {
    if s != [] {
      var k := IndexOf(s, COMMA);
      if k < |s| {
        var rest := s[k + 1..];
        assert s == s[..k] + [COMMA] + rest;
        var fs := [s[..k]] + Split(rest);
        assert Split(s) == fs;
        if rest == [] {
          assert fs == [s[..k]];
        } else {
          JoinSplit(rest);
          assert rest[|rest| - 1] == s[|s| - 1];
          assert Split(rest) != [];
          assert fs[1..] == Split(rest);
          assert Join(fs) == s[..k] + [COMMA] + Join(Split(rest));
        }
      }
    }
  }

  /**
   * How many tokens a line yields: one more than its commas, except that an
   * empty line or a trailing comma adds none.
   */
  lemma {:induction false} SplitCount(s: seq<Char>)
    ensures |Split(s)| == Commas(s) + (if s == [] || s[|s| - 1] == COMMA then 0 else 1)
    decreases |s|
  {
    if s != [] {
      var k := IndexOf(s, COMMA);
      CommasAppend(s[..k], s[k..]);
      assert s == s[..k] + s[k..];
      NoCommas(s[..k]);
      if k < |s| {
        var rest := s[k + 1..];
        SplitCount(rest);
        assert s[k..][1..] == rest;
        assert rest != [] ==> rest[|rest| - 1] == s[|s| - 1];
      }
    }
  }

  /** Commas of a concatenation. */
  lemma {:induction false} CommasAppend(a: seq<Char>, b: seq<Char>)
    ensures Commas(a + b) == Commas(a) + Commas(b)
  {
    if a == [] {
      assert a + b == b;
    } else {
      assert (a + b)[0] == a[0];
      assert (a + b)[1..] == a[1..] + b;
      CommasAppend(a[1..], b);
    }
  }

  /** A comma-free text has no commas to count. */
  lemma {:induction false} NoCommas(a: seq<Char>)
    requires forall j :: 0 <= j < |a| ==> a[j] != COMMA
    ensures Commas(a) == 0
  {
    if a != [] { NoCommas(a[1..]); }
  }

  /**
   * A line is kept exactly when it has 17 commas and does not end in one, or
   * 18 commas with the last at its end.
   */
  lemma RowAcceptedIff(line: seq<Char>)
    ensures Row(line).Some? <==>
      (line != [] && line[|line| - 1] != COMMA && Commas(line) == COLUMNS - 1) ||
      (line != [] && line[|line| - 1] == COMMA && Commas(line) == COLUMNS)
    ensures Row(line).Some? ==> |Row(line).value| == COLUMNS
  {
    SplitCount(line);
  }

  /** A token wrapped in a pair of quotes comes back as it was, quotes inside it included. */
  lemma StripWrapped(s: Field)
    ensures StripQuotes([QUOTE] + s + [QUOTE]) == s
  {
    var t := [QUOTE] + s + [QUOTE];
    assert IndexOf(t, QUOTE) == 0;
    assert LastIndexOf(t, QUOTE) == |t| - 1;
    assert t[1..|t| - 1] == s;
  }

  /** A token without quotes is kept as it is. */
  lemma StripUnquoted(s: Field)
    requires forall k :: 0 <= k < |s| ==> s[k] != QUOTE
    ensures StripQuotes(s) == s
  {
  }

  /** A token with a single quote at position `k` keeps only what follows the quote. */
  lemma StripLoneQuote(s: Field, k: int)
    requires 0 <= k < |s| && s[k] == QUOTE
    requires forall j :: 0 <= j < |s| && j != k ==> s[j] != QUOTE
    ensures StripQuotes(s) == s[k + 1..]
  {
    assert IndexOf(s, QUOTE) == k;
    assert LastIndexOf(s, QUOTE) == k;
  }

  /**
   * A token with two or more quotes keeps exactly the text strictly between
   * its first and its last quote.
   */
  lemma StripBetweenQuotes(s: Field, first: int, last: int)
    requires 0 <= first < last < |s| && s[first] == QUOTE && s[last] == QUOTE
    requires forall j :: 0 <= j < first ==> s[j] != QUOTE
    requires forall j :: last < j < |s| ==> s[j] != QUOTE
    ensures StripQuotes(s) == s[first + 1..last]
  {
    assert IndexOf(s, QUOTE) == first;
    assert LastIndexOf(s, QUOTE) == last;
  }

  /** The hybrid column reads "True" whether or not the file quoted it; any other text, "true" included, does not set the flag. */
  lemma HybridColumn(cols: seq<Field>)
    requires |cols| == COLUMNS
    ensures StripQuotes(TRUE_TEXT) == TRUE_TEXT
    ensures StripQuotes([QUOTE] + TRUE_TEXT + [QUOTE]) == TRUE_TEXT
    ensures cols[HYBRID_COLUMN] == [116, 114, 117, 101] ==> !Hybrid(cols)
  {
    StripWrapped(TRUE_TEXT);
  }

  // ---------------------------------------------------------------------------
  // The tokenising loop

  /**
   * Split `line` into tokens, strip their quotes and keep the columns only when
   * there are exactly 18 of them.
   */
  method ReadRow(line: seq<Char>) returns (r: Option<seq<Field>>)
    ensures r == Row(line)
  {
    var columns := Tokenize(line);
    if |columns| != COLUMNS {
      return None;
    }
    return Some(columns);
  }

  /** The loop's progress: the tokens completed before `start`, and a comma-free current token up to `i`. */
  ghost predicate Scanned(line: seq<Char>, start: int, i: int, fields: seq<Field>) {
    0 <= start <= i <= |line| &&
    (forall k :: start <= k < i ==> line[k] != COMMA) &&
    fields + Split(line[start..]) == Split(line)
  }

  /** A byte other than a comma extends the current token. */
  lemma ScanByte(line: seq<Char>, start: int, i: int, fields: seq<Field>)
    requires Scanned(line, start, i, fields) && i < |line| && line[i] != COMMA
    ensures Scanned(line, start, i + 1, fields)
  {
  }

  /** A comma completes the current token. */
  lemma ScanComma(line: seq<Char>, start: int, i: int, fields: seq<Field>)
    requires Scanned(line, start, i, fields) && i < |line| && line[i] == COMMA
    ensures Scanned(line, i + 1, i + 1, fields + [line[start..i]])
  {
    SplitStep(line, start, i);
    assert (fields + [line[start..i]]) + Split(line[i + 1..]) == fields + ([line[start..i]] + Split(line[i + 1..]));
  }

  /** At the end of the line, a non-empty current token is the last one. */
  lemma ScanEnd(line: seq<Char>, start: int, fields: seq<Field>)
    requires Scanned(line, start, |line|, fields)
    ensures Split(line) == if start < |line| then fields + [line[start..]] else fields
  {
    var rest := line[start..];
    assert forall j :: 0 <= j < |rest| ==> rest[j] == line[start + j];
    SplitNoComma(rest);
  }

  /** The `getline` loop: every token of the line, quotes stripped, in order. */
  method Tokenize(line: seq<Char>) returns (columns: seq<Field>)
    ensures columns == Tokens(line)
  {
    columns := [];
    ghost var fields: seq<Field> := [];
    var start := 0;
    var i := 0;
    assert line[start..] == line;
    while i < |line|
      invariant Scanned(line, start, i, fields)
      invariant columns == StripAll(fields)
    {
      if line[i] == COMMA {
        var token := line[start..i];
        ScanComma(line, start, i, fields);
        StripAllAppend(fields, token);
        fields := fields + [token];
        columns := columns + [StripQuotes(token)];
        start := i + 1;
      } else {
        ScanByte(line, start, i, fields);
      }
      i := i + 1;
    }
    ScanEnd(line, start, fields);
    if start < |line| {
      var token := line[start..];
      StripAllAppend(fields, token);
      fields := fields + [token];
      columns := columns + [StripQuotes(token)];
    }
  }
}
