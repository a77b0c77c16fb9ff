/**
 * The per-interface counter table of `/proc/net/dev` and the daemon's parser
 * for it (netstat.go). The file is given as the text that was read from it;
 * opening and buffering the file are not modelled.
 */
module NetDev {
  import opened Wrappers
  import opened UInt64

  /** One interface's sixteen cumulative counters, in the table's column order. */
  datatype NetStat = NetStat(
    rxBytes: U64, rxPackets: U64, rxErrors: U64, rxDropped: U64,
    rxFifo: U64, rxFrame: U64, rxCompressed: U64, rxMulticast: U64,
    txBytes: U64, txPackets: U64, txErrors: U64, txDropped: U64,
    txFifo: U64, txCollisions: U64, txCarrier: U64, txCompressed: U64)

  /** A snapshot of the table: interface name to its counters. */
  type Snapshot = map<string, NetStat>

  /** Number of counter columns after the interface name. */
  const COUNTERS: nat := 16

  /** The i-th counter of a record (1-based, in declaration order). */
  function Counter(s: NetStat, i: nat): U64
    requires 1 <= i <= COUNTERS
  {
    match i
    case 1 => s.rxBytes
    case 2 => s.rxPackets
    case 3 => s.rxErrors
    case 4 => s.rxDropped
    case 5 => s.rxFifo
    case 6 => s.rxFrame
    case 7 => s.rxCompressed
    case 8 => s.rxMulticast
    case 9 => s.txBytes
    case 10 => s.txPackets
    case 11 => s.txErrors
    case 12 => s.txDropped
    case 13 => s.txFifo
    case 14 => s.txCollisions
    case 15 => s.txCarrier
    case _ => s.txCompressed
  }

  /** The record whose i-th counter is v[i - 1]. */
  function FromCounters(v: seq<U64>): (s: NetStat)
    requires |v| == COUNTERS
    ensures forall i :: 1 <= i <= COUNTERS ==> Counter(s, i) == v[i - 1]
    ensures s.rxBytes == v[0] && s.txBytes == v[8]
  {
    NetStat(v[0], v[1], v[2], v[3], v[4], v[5], v[6], v[7],
            v[8], v[9], v[10], v[11], v[12], v[13], v[14], v[15])
  }

  // ---------------------------------------------------------------------------
  // Decimal numbers: strconv.ParseUint(s, 10, 64)
  // ---------------------------------------------------------------------------

  predicate IsDigit(c: char) {
    '0' <= c <= '9'
  }

  predicate AllDigits(s: string) {
    forall i :: 0 <= i < |s| ==> IsDigit(s[i])
  }

  /** The value of a string of decimal digits, read most significant first. */
  function DecimalValue(s: string): nat
    requires AllDigits(s)
  {
    if s == [] then 0
    else DecimalValue(s[..|s| - 1]) * 10 + (s[|s| - 1] as int - '0' as int)
  }

  /** A longer prefix of a digit string never has a smaller value. */
  lemma {:induction false} DecimalValuePrefix(s: string, j: nat)
    requires j <= |s|
    ensures AllDigits(s) ==> DecimalValue(s[..j]) <= DecimalValue(s)
    decreases |s|
  {
    if !AllDigits(s) {
    } else if j < |s| {
      var t := s[..|s| - 1];
      assert t[..j] == s[..j];
      DecimalValuePrefix(t, j);
    } else {
      assert s[..j] == s;
    }
  }

  /**
   * parseUint: strconv.ParseUint in base 10 with a 64-bit size. The source
   * panics on any error; None stands for that panic. Accepted are exactly the
   * non-empty strings of ASCII digits (leading zeros allowed, no sign, no
   * underscore) whose value fits in 64 bits.
   */
  function ParseUint(s: string): (r: Option<U64>)
    ensures r.Some? <==> s != [] && AllDigits(s) && DecimalValue(s) <= MAX
    ensures r.Some? ==> r.value == DecimalValue(s)
  {
    if s == [] then None
    else
      assert s[..0] == [];
      Scan(s, 0, 0)
  }

  /**
   * ParseUint's digit loop: n holds the value of s[..i]; each step rejects a
   * non-digit, and rejects the number as soon as n * 10 + d leaves 64 bits.
   */
  function Scan(s: string, i: nat, n: U64): (r: Option<U64>)
    requires i <= |s| && AllDigits(s[..i]) && n == DecimalValue(s[..i])
    ensures r.Some? <==> AllDigits(s) && DecimalValue(s) <= MAX
    ensures r.Some? ==> r.value == DecimalValue(s)
    decreases |s| - i
  {
    if i == |s| then
      assert s[..i] == s;
      Some(n)
    else if !IsDigit(s[i]) then None
    else
      var next := s[..i + 1];
      assert next[..i] == s[..i];
      assert DecimalValue(next) == n * 10 + (s[i] as int - '0' as int);
      if n * 10 + (s[i] as int - '0' as int) > MAX then
        DecimalValuePrefix(s, i + 1);
        None
      else Scan(s, i + 1, n * 10 + (s[i] as int - '0' as int))
  }

  /** strconv.FormatUint(n, 10): the shortest decimal text of n. */
  function FormatUint(n: nat): (r: string)
    ensures r != [] && AllDigits(r)
  {
    if n < 10 then ['0' + n as char]
    else FormatUint(n / 10) + ['0' + (n % 10) as char]
  }

  lemma {:induction false} FormatUintValue(n: nat)
    ensures DecimalValue(FormatUint(n)) == n
  {
    if n >= 10 {
      var r := FormatUint(n);
      assert r[..|r| - 1] == FormatUint(n / 10);
      FormatUintValue(n / 10);
    }
  }

  /** ParseUint inverts FormatUint on every 64-bit value and rejects every larger one. */
  lemma ParseFormatRoundTrip(n: nat)
    ensures ParseUint(FormatUint(n)) == if n <= MAX then Some(n) else None
  {
    FormatUintValue(n);
  }

  // ---------------------------------------------------------------------------
  // strings.Fields
  // ---------------------------------------------------------------------------

  /** Go's unicode.IsSpace: the Latin-1 spaces and the other Unicode White_Space characters. */
  predicate IsSpace(c: char) {
    || c == ' ' || c == '\t' || c == '\n' || c == '\U{B}' || c == '\U{C}' || c == '\r'
    || c == '\U{85}' || c == '\U{A0}' || c == '\U{1680}'
    || ('\U{2000}' <= c <= '\U{200A}')
    || c == '\U{2028}' || c == '\U{2029}' || c == '\U{202F}' || c == '\U{205F}' || c == '\U{3000}'
  }

  /** A field: a non-empty run of non-space characters. */
  predicate IsWord(w: string) {
    w != [] && forall i :: 0 <= i < |w| ==> !IsSpace(w[i])
  }

  /** Length of the leading run of non-space characters: it stops at the first space. */
  function WordLength(s: string): (n: nat)
    ensures n <= |s|
    ensures s != [] && !IsSpace(s[0]) ==> 0 < n
    ensures n < |s| ==> IsSpace(s[n])
  {
    if s == [] || IsSpace(s[0]) then 0 else 1 + WordLength(s[1..])
  }

  /** strings.Fields: the maximal runs of non-space characters, in order. */
  function Fields(s: string): seq<string>
    decreases |s|
  {
    if s == [] then []
    else if IsSpace(s[0]) then Fields(s[1..])
    else
      var n := WordLength(s);
      [s[..n]] + Fields(s[n..])
  }

  /** The leading run holds no space. */
  lemma {:induction false} WordLengthRun(s: string)
    ensures forall i :: 0 <= i < WordLength(s) ==> !IsSpace(s[i])
  {
    if s != [] && !IsSpace(s[0]) {
      WordLengthRun(s[1..]);
      forall i | 0 < i < WordLength(s) ensures !IsSpace(s[i]) {
        assert s[i] == s[1..][i - 1];
      }
    }
  }

  /** Every field is a word. */
  lemma {:induction false} FieldsAreWords(s: string)
    ensures forall i :: 0 <= i < |Fields(s)| ==> IsWord(Fields(s)[i])
    decreases |s|
  {
    if s == [] {
    } else if IsSpace(s[0]) {
      FieldsAreWords(s[1..]);
    } else {
      var n := WordLength(s);
      WordLengthRun(s);
      FieldsAreWords(s[n..]);
      var r := Fields(s);
      forall i | 0 <= i < |r| ensures IsWord(r[i]) {
        if i > 0 {
          assert r[i] == Fields(s[n..])[i - 1];
        }
      }
    }
  }

  /** The leading word ends where it ended before when the text after it starts with a space. */
  lemma {:induction false} WordLengthExtend(a: string, x: string)
    requires WordLength(a) < |a| || (x != [] && IsSpace(x[0]))
    ensures WordLength(a + x) == WordLength(a)
  {
    if a != [] && !IsSpace(a[0]) {
      assert (a + x)[1..] == a[1..] + x;
      WordLengthExtend(a[1..], x);
    }
  }

  /** The inductive step of FieldsSplitAtSpace when the text starts with a word. */
  lemma FieldsSplitAfterWord(a: string, c: char, b: string)
    requires IsSpace(c) && a != [] && !IsSpace(a[0])
    requires Fields(a[WordLength(a)..] + [c] + b) == Fields(a[WordLength(a)..]) + Fields(b)
    ensures Fields(a + [c] + b) == Fields(a) + Fields(b)
  {
    var s := a + [c] + b;
    var m := WordLength(a);
    assert s == a + ([c] + b);
    WordLengthExtend(a, [c] + b);
    assert s[0] == a[0];
    assert s[..m] == a[..m];
    assert s[m..] == a[m..] + [c] + b;
    assert Fields(s) == [s[..m]] + Fields(s[m..]);
    assert Fields(a) == [a[..m]] + Fields(a[m..]);
  }

  /** A space character separates the fields before it from the fields after it. */
  lemma {:induction false} FieldsSplitAtSpace(a: string, c: char, b: string)
    requires IsSpace(c)
    ensures Fields(a + [c] + b) == Fields(a) + Fields(b)
    decreases |a|
  {
    var s := a + [c] + b;
    if a == [] {
      assert s[1..] == b;
    } else if IsSpace(a[0]) {
      assert s[1..] == a[1..] + [c] + b;
      FieldsSplitAtSpace(a[1..], c, b);
    } else {
      FieldsSplitAtSpace(a[WordLength(a)..], c, b);
      FieldsSplitAfterWord(a, c, b);
    }
  }

  /** Words joined by single spaces. */
  function Join(words: seq<string>): string {
    if words == [] then []
    else if |words| == 1 then words[0]
    else words[0] + " " + Join(words[1..])
  }

  /** A word is one field. */
  lemma {:induction false} FieldsOfWord(w: string)
    requires IsWord(w)
    ensures WordLength(w) == |w|
    ensures Fields(w) == [w]
  {
    if |w| > 1 {
      FieldsOfWord(w[1..]);
    }
    assert w[..|w|] == w && w[|w|..] == [];
  }

  /** Fields recovers the words that Join put together. */
  lemma {:induction false} FieldsOfJoin(words: seq<string>)
    requires forall i :: 0 <= i < |words| ==> IsWord(words[i])
    ensures Fields(Join(words)) == words
  {
    if words == [] {
    } else if |words| == 1 {
      FieldsOfWord(words[0]);
    } else {
      FieldsOfWord(words[0]);
      FieldsOfJoin(words[1..]);
      FieldsSplitAtSpace(words[0], ' ', Join(words[1..]));
      assert words[0] + " " + Join(words[1..]) == words[0] + [' '] + Join(words[1..]);
      assert [words[0]] + words[1..] == words;
    }
  }

  // ---------------------------------------------------------------------------
  // Lines: bufio.Reader.ReadString('\n')
  // ---------------------------------------------------------------------------

  predicate NoNewline(s: string) {
    forall j :: 0 <= j < |s| ==> s[j] != '\n'
  }

  /** A complete line: it ends with its only newline. */
  predicate IsLine(l: string) {
    l != [] && l[|l| - 1] == '\n' && forall j :: 0 <= j < |l| - 1 ==> l[j] != '\n'
  }

  /** Length of the text up to and including the first newline, or the whole text if it has none. */
  function LineLength(s: string): (n: nat)
    ensures n <= |s|
    ensures s != [] ==> 0 < n
    ensures n < |s| ==> s[n - 1] == '\n'
  {
    if s == [] then 0
    else if s[0] == '\n' then 1
    else 1 + LineLength(s[1..])
  }

  /**
   * One call of ReadString('\n'): the line read (with its newline), the unread
   * rest, and whether the newline was found. Without one the call reports
   * io.EOF, returns whatever was left, and leaves nothing unread.
   */
  datatype Read = Read(line: string, rest: string, complete: bool)

  function ReadString(s: string): (r: Read)
    ensures r.line + r.rest == s
    ensures r.complete ==> r.line != [] && r.line[|r.line| - 1] == '\n'
    ensures !r.complete ==> r.line == s && r.rest == []
  {
    var n := LineLength(s);
    assert s[..n] + s[n..] == s;
    Read(s[..n], s[n..], 0 < n && s[n - 1] == '\n')
  }

  /** Text without a newline is read whole. */
  lemma {:induction false} NoNewlineReadWhole(s: string)
    requires NoNewline(s)
    ensures LineLength(s) == |s|
  {
    if s != [] {
      assert s[0] != '\n';
      assert NoNewline(s[1..]) by {
        forall j | 0 <= j < |s[1..]| ensures s[1..][j] != '\n' {
          assert s[1..][j] == s[j + 1];
        }
      }
      NoNewlineReadWhole(s[1..]);
    }
  }

  /** Text with a newline is read up to and including its first newline. */
  lemma {:induction false} NewlineEndsLine(s: string)
    requires !NoNewline(s)
    ensures IsLine(s[..LineLength(s)])
  {
    if s[0] == '\n' {
      assert s[..1] == ['\n'];
    } else {
      var t := s[1..];
      var j :| 0 <= j < |s| && s[j] == '\n';
      assert t[j - 1] == '\n';
      NewlineEndsLine(t);
      var n := LineLength(t);
      var l := s[..n + 1];
      assert l == [s[0]] + t[..n];
      forall i | 0 <= i < |l| - 1 ensures l[i] != '\n' {
        if i > 0 { assert l[i] == t[..n][i - 1]; }
      }
    }
  }

  /** The newline ReadString stops at is the first one: the line read is complete exactly when s has a newline. */
  lemma ReadStringFindsFirstNewline(s: string)
    ensures ReadString(s).complete <==> !NoNewline(s)
    ensures ReadString(s).complete ==> IsLine(ReadString(s).line)
  {
    var n := LineLength(s);
    if NoNewline(s) {
      NoNewlineReadWhole(s);
      assert n > 0 ==> s[n - 1] != '\n';
    } else {
      NewlineEndsLine(s);
      assert s[..n][n - 1] == s[n - 1];
    }
  }

  /** Every element is a complete line. */
  predicate AllLines(ls: seq<string>) {
    forall i :: 0 <= i < |ls| ==> IsLine(ls[i])
  }

  function Concat(ls: seq<string>): string {
    if ls == [] then [] else ls[0] + Concat(ls[1..])
  }

  /**
   * The lines ReadString yields one after the other until it reports io.EOF:
   * every complete line of s, in order; a last line without its newline is
   * not among them.
   */
  function Lines(s: string): seq<string>
    decreases |s|
  {
    var read := ReadString(s);
    if read.complete then [read.line] + Lines(read.rest) else []
  }

  /** The length of the first line of a complete line followed by anything is that line's length. */
  lemma {:induction false} LineLengthOfLine(l: string, rest: string)
    requires IsLine(l)
    ensures LineLength(l + rest) == |l|
  {
    if l[0] != '\n' {
      var t := l[1..];
      assert t[|t| - 1] == l[|l| - 1];
      forall j | 0 <= j < |t| - 1 ensures t[j] != '\n' {
        assert t[j] == l[j + 1];
      }
      assert (l + rest)[1..] == t + rest;
      LineLengthOfLine(t, rest);
    }
  }

  /** ReadString finds exactly the given line at the front of that line followed by anything. */
  lemma ReadLineFirst(l: string, rest: string)
    requires IsLine(l)
    ensures ReadString(l + rest) == Read(l, rest, true)
  {
    var s := l + rest;
    LineLengthOfLine(l, rest);
    assert s[|l| - 1] == '\n';
    assert s[..|l|] == l && s[|l|..] == rest;
  }

  /** Lines is the inverse of Concat on complete lines, whatever unterminated text follows them. */
  lemma {:induction false} LinesOfConcat(ls: seq<string>, tail: string)
    requires AllLines(ls)
    requires NoNewline(tail)
    ensures Lines(Concat(ls) + tail) == ls
  {
    if ls == [] {
      assert Concat(ls) + tail == tail;
      ReadStringFindsFirstNewline(tail);
    } else {
      var rest := Concat(ls[1..]) + tail;
      assert Concat(ls) + tail == ls[0] + rest;
      ReadLineFirst(ls[0], rest);
      LinesOfConcat(ls[1..], tail);
      assert [ls[0]] + ls[1..] == ls;
    }
  }

  /** An unterminated last line is dropped: appending text without a newline does not change the lines. */
  lemma UnterminatedTailIgnored(ls: seq<string>, tail: string)
    requires AllLines(ls)
    requires NoNewline(tail)
    ensures Lines(Concat(ls) + tail) == Lines(Concat(ls))
  {
    LinesOfConcat(ls, tail);
    LinesOfConcat(ls, []);
    assert Concat(ls) + [] == Concat(ls);
  }

  // ---------------------------------------------------------------------------
  // One table row
  // ---------------------------------------------------------------------------

  /** Why a row panics: a counter column is missing (index out of range) or is not a uint64. */
  datatype ParseFailure = MissingField(index: nat) | BadNumber(index: nat)

  /** Counter column i of a row's fields cannot be read. */
  predicate ColumnFails(fields: seq<string>, i: nat) {
    i >= |fields| || ParseUint(fields[i]).None?
  }

  /** vals are the values of the columns of fields starting at column i. */
  predicate ValuesFrom(fields: seq<string>, i: nat, vals: seq<U64>)
    decreases |vals|
  {
    vals == [] || (i < |fields| && ParseUint(fields[i]) == Some(vals[0]) && ValuesFrom(fields, i + 1, vals[1..]))
  }

  /** The k-th value is the value of column i + k. */
  lemma {:induction false} ValuesFromAt(fields: seq<string>, i: nat, vals: seq<U64>, k: nat)
    requires ValuesFrom(fields, i, vals) && k < |vals|
    ensures i + k < |fields| && ParseUint(fields[i + k]) == Some(vals[k])
    decreases k
  {
    assert vals != [];
    if k > 0 {
      assert ValuesFrom(fields, i + 1, vals[1..]) && k - 1 < |vals[1..]| && vals[1..][k - 1] == vals[k];
      ValuesFromAt(fields, i + 1, vals[1..], k - 1);
    }
  }

  /** The counter columns i..16 of a row, read left to right; the first column that fails decides the panic. */
  function ParseCounters(fields: seq<string>, i: nat): (r: Result<seq<U64>, ParseFailure>)
    requires 1 <= i <= COUNTERS + 1
    ensures r.Ok? <==> forall j :: i <= j <= COUNTERS ==> !ColumnFails(fields, j)
    ensures r.Ok? ==> |r.value| == COUNTERS + 1 - i
    ensures r.Ok? ==> ValuesFrom(fields, i, r.value)
    ensures r.Err? ==> i <= r.error.index <= COUNTERS && ColumnFails(fields, r.error.index)
    ensures r.Err? ==> forall j :: i <= j < r.error.index ==> !ColumnFails(fields, j)
    ensures r.Err? ==> (r.error.MissingField? <==> r.error.index >= |fields|)
    decreases COUNTERS + 1 - i
  {
    if i > COUNTERS then Ok([])
    else if i >= |fields| then
      assert ColumnFails(fields, i);
      Err(MissingField(i))
    else match ParseUint(fields[i])
      case None =>
        assert ColumnFails(fields, i);
        Err(BadNumber(i))
      case Some(v) =>
        match ParseCounters(fields, i + 1)
        case Err(e) => Err(e)
        case Ok(vs) =>
          assert ([v] + vs)[1..] == vs;
          Ok([v] + vs)
  }

  /** strings.TrimSuffix(s, ":"): drops one trailing colon, if there is one. */
  function TrimColon(s: string): (r: string)
    ensures r + ":" == s || (r == s && (s == [] || s[|s| - 1] != ':'))
  {
    if s != [] && s[|s| - 1] == ':' then s[..|s| - 1] else s
  }

  /** A parsed row: the interface name and its counters. */
  datatype Entry = Entry(name: string, stat: NetStat)

  /**
   * One row of the table, already split into fields: fields 1..16 are the
   * counters in column order; the name is field 0 less one trailing colon.
   * Extra fields are ignored; a missing or malformed counter is a panic.
   */
  function ParseRow(fields: seq<string>): (r: Result<Entry, ParseFailure>)
    ensures r.Ok? <==> |fields| > COUNTERS && forall i :: 1 <= i <= COUNTERS ==> ParseUint(fields[i]).Some?
    ensures r.Ok? ==> forall i :: 1 <= i <= COUNTERS ==> ParseUint(fields[i]) == Some(Counter(r.value.stat, i))
    ensures r.Ok? ==> fields[0] == r.value.name + ":" || (fields[0] == r.value.name && (fields[0] == [] || fields[0][|fields[0]| - 1] != ':'))
    ensures r.Err? ==> 1 <= r.error.index <= COUNTERS && ColumnFails(fields, r.error.index)
    ensures r.Err? ==> forall j :: 1 <= j < r.error.index ==> !ColumnFails(fields, j)
    ensures r.Err? ==> (r.error.MissingField? <==> r.error.index >= |fields|)
  {
    var counters := ParseCounters(fields, 1);
    if counters.Err? then
      Err(counters.error)
    else
      assert !ColumnFails(fields, COUNTERS);
      var stat := FromCounters(counters.value);
      assert forall i :: 1 <= i <= COUNTERS ==> ParseUint(fields[i]) == Some(Counter(stat, i)) by {
        forall i | 1 <= i <= COUNTERS ensures ParseUint(fields[i]) == Some(Counter(stat, i)) {
          ValuesFromAt(fields, 1, counters.value, i - 1);
        }
      }
      Ok(Entry(TrimColon(fields[0]), stat))
  }

  /** One line of the table: strings.Fields, then the row. */
  function ParseLine(line: string): Result<Entry, ParseFailure> {
    ParseRow(Fields(line))
  }

  // ---------------------------------------------------------------------------
  // The whole table
  // ---------------------------------------------------------------------------

  /** Each line parsed on its own, in order. */
  function ParseAll(lines: seq<string>): (rows: seq<Result<Entry, ParseFailure>>)
    ensures |rows| == |lines|
    ensures forall i :: 0 <= i < |lines| ==> rows[i] == ParseLine(lines[i])
  {
    if lines == [] then []
    else
      var rest := ParseAll(lines[1..]);
      assert forall i :: 0 < i < |lines| ==> lines[i] == lines[1..][i - 1];
      [ParseLine(lines[0])] + rest
  }

  /** Parsed rows stored in order into acc; a later row with the same name replaces the earlier; the first failing row stops it. */
  function Collect(rows: seq<Result<Entry, ParseFailure>>, acc: Snapshot): Result<Snapshot, ParseFailure> {
    if rows == [] then Ok(acc)
    else match rows[0]
      case Err(e) => Err(e)
      case Ok(entry) => Collect(rows[1..], acc[entry.name := entry.stat])
  }

  /** The map built from the data lines, or the failure of the first line that does not parse. */
  function Table(lines: seq<string>): Result<Snapshot, ParseFailure> {
    Collect(ParseAll(lines), map[])
  }

  /** The rows the parser reads: every complete line after the first two. */
  function DataLines(content: string): seq<string> {
    var ls := Lines(content);
    if |ls| <= 2 then [] else ls[2..]
  }

  /** Lines still to come after one ReadString call. */
  lemma LinesAfterRead(s: string)
    ensures Lines(ReadString(s).rest) == if Lines(s) == [] then [] else Lines(s)[1..]
  {
  }

  /**
   * netstat(), from the first ReadString on: discards two header lines, then
   * parses each complete line into the map until ReadString reports an error.
   */
  method ReadNetDev(content: string) returns (r: Result<Snapshot, ParseFailure>)
    ensures r == Table(DataLines(content))
  {
    var header := ReadString(content);
    LinesAfterRead(content);
    var afterFirst := header.rest;
    header := ReadString(afterFirst);
    LinesAfterRead(afterFirst);
    var input := header.rest;
    assert Lines(input) == DataLines(content);
    var stats: Snapshot := map[];
    while true
      invariant Collect(ParseAll(Lines(input)), stats) == Table(DataLines(content))
      decreases |input|
    {
      var read := ReadString(input);
      if !read.complete {
        break;
      }
      var entry := ParseLine(read.line);
      if entry.Err? {
        return Err(entry.error);
      }
      stats := stats[entry.value.name := entry.value.stat];
      input := read.rest;
    }
    return Ok(stats);
  }

  /** Two header lines are skipped whatever they say. */
  lemma HeadersDiscarded(h1: string, h2: string, rows: seq<string>, tail: string)
    requires IsLine(h1) && IsLine(h2)
    requires AllLines(rows)
    requires NoNewline(tail)
    ensures DataLines(Concat([h1, h2] + rows) + tail) == rows
  {
    var all := [h1, h2] + rows;
    assert AllLines(all) by {
      forall i | 0 <= i < |all| ensures IsLine(all[i]) {
        if i >= 2 { assert all[i] == rows[i - 2]; }
      }
    }
    var text := Concat(all) + tail;
    LinesOfConcat(all, tail);
    assert Lines(text) == all;
    assert all[2..] == rows;
    assert DataLines(text) == (if |all| <= 2 then [] else all[2..]);
  }

  /** Parsing is line by line: one more line adds its own parse at the end. */
  lemma {:induction false} ParseAllAppend(lines: seq<string>, l: string)
    ensures ParseAll(lines + [l]) == ParseAll(lines) + [ParseLine(l)]
  {
    if lines == [] {
      assert [l][1..] == [];
    } else {
      assert (lines + [l])[0] == lines[0];
      assert (lines + [l])[1..] == lines[1..] + [l];
      ParseAllAppend(lines[1..], l);
    }
  }

  /** Storing one more row: it fails if that row fails, else its record is stored under its name, replacing any earlier one. */
  lemma {:induction false} CollectAppend(rows: seq<Result<Entry, ParseFailure>>, row: Result<Entry, ParseFailure>, acc: Snapshot)
    ensures Collect(rows + [row], acc) ==
      match Collect(rows, acc)
      case Err(e) => Err(e)
      case Ok(m) =>
        match row
        case Err(e) => Err(e)
        case Ok(entry) => Ok(m[entry.name := entry.stat])
  {
    if rows == [] {
      assert [row][1..] == [];
    } else {
      assert (rows + [row])[0] == rows[0];
      assert (rows + [row])[1..] == rows[1..] + [row];
      match rows[0]
      case Err(_) =>
      case Ok(entry) => CollectAppend(rows[1..], row, acc[entry.name := entry.stat]);
    }
  }

  /** When two lines carry the same name, the later line's record is the one kept. */
  lemma LaterRowWins(lines: seq<string>, l: string)
    requires Table(lines + [l]).Ok?
    ensures Table(lines).Ok? && ParseLine(l).Ok?
    ensures Table(lines + [l]).value == Table(lines).value[ParseLine(l).value.name := ParseLine(l).value.stat]
  {
    var rows, row := ParseAll(lines), ParseLine(l);
    ParseAllAppend(lines, l);
    CollectAppend(rows, row, map[]);
    assert Table(lines + [l]) == Collect(rows + [row], map[]);
  }

  /** Index of the first failed row, or the number of rows when none failed. */
  function FirstErr(rows: seq<Result<Entry, ParseFailure>>): (k: nat)
    ensures k <= |rows|
    ensures k < |rows| ==> rows[k].Err?
    ensures forall j :: 0 <= j < k ==> rows[j].Ok?
  {
    if rows == [] || rows[0].Err? then 0
    else
      var k := FirstErr(rows[1..]);
      assert forall j :: 0 < j < |rows| ==> rows[j] == rows[1..][j - 1];
      k + 1
  }

  /** Collecting fails exactly when some row failed, and with the first failed row's failure. */
  lemma {:induction false} CollectFails(rows: seq<Result<Entry, ParseFailure>>, acc: Snapshot)
    ensures Collect(rows, acc).Err? <==> FirstErr(rows) < |rows|
    ensures Collect(rows, acc).Err? ==> Collect(rows, acc).error == rows[FirstErr(rows)].error
  {
    if rows != [] {
      match rows[0]
      case Err(_) =>
      case Ok(entry) =>
        CollectFails(rows[1..], acc[entry.name := entry.stat]);
        if FirstErr(rows) < |rows| {
          assert rows[FirstErr(rows)] == rows[1..][FirstErr(rows[1..])];
        }
    }
  }

  /**
   * The table fails exactly when some line fails to parse, and then with the
   * failure of the first such line: every line before it parses.
   */
  lemma TableFails(lines: seq<string>)
    ensures Table(lines).Err? <==> exists i :: 0 <= i < |lines| && ParseLine(lines[i]).Err?
    ensures Table(lines).Err? ==>
      (exists i :: 0 <= i < |lines| && ParseLine(lines[i]).Err? &&
        Table(lines).error == ParseLine(lines[i]).error && (forall j :: 0 <= j < i ==> ParseLine(lines[j]).Ok?))
  {
    var rows := ParseAll(lines);
    var k := FirstErr(rows);
    CollectFails(rows, map[]);
    if k < |lines| {
      assert forall j :: 0 <= j < k ==> ParseLine(lines[j]).Ok? && rows[j] == ParseLine(lines[j]);
    } else {
      assert forall i :: 0 <= i < |lines| ==> ParseLine(lines[i]).Ok? && rows[i] == ParseLine(lines[i]);
    }
  }
}
