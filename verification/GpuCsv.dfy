/** Parsing the GPU table that nvidia-smi prints, one comma-separated line per GPU.
    Fractions are of any type with a given parser; byte counts wrap like u64. */
module GpuCsv {
  import opened Prelude
  import opened Text

  const U32_BOUND: nat := 0x1_0000_0000
  const U64_BOUND: nat := 0x1_0000_0000_0000_0000
  const BYTES_PER_MIB: nat := 1024 * 1024

  datatype GpuDevice<F> = GpuDevice(
    index: nat,
    name: string,
    temperature: F,
    utilization: F,
    memoryTotal: nat,
    memoryUsed: nat,
    powerDraw: F)

  function UnsignedOr0(s: string, bound: nat): nat {
    match ParseUnsigned(s, bound)
    case Some(n) => n
    case None => 0
  }

  /** How fractions are read, and the value of one that cannot be. */
  datatype Fractions<F> = Fractions(parse: string -> Option<F>, zero: F)

  function FractionOr0<F>(fr: Fractions<F>, s: string): F {
    match fr.parse(s)
    case Some(x) => x
    case None => fr.zero
  }

  /** MiB to bytes in u64 arithmetic. */
  function MemoryBytes(mib: nat): nat {
    mib * BYTES_PER_MIB % U64_BOUND
  }

  lemma BytesExactIff(mib: nat)
    ensures MemoryBytes(mib) == mib * 1048576 <==> mib < 17592186044416
  {
    assert mib * BYTES_PER_MIB < U64_BOUND <==> mib < 17592186044416;
  }

  function Device<F>(fr: Fractions<F>, fields: seq<string>): GpuDevice<F>
    requires |fields| >= 7
  {
    GpuDevice(
      UnsignedOr0(fields[0], U32_BOUND), fields[1],
      FractionOr0(fr, fields[2]), FractionOr0(fr, fields[3]),
      MemoryBytes(UnsignedOr0(fields[4], U64_BOUND)), MemoryBytes(UnsignedOr0(fields[5], U64_BOUND)),
      FractionOr0(fr, fields[6]))
  }

  /** What one line contributes: nothing if it is blank or has too few fields. */
  function ParseLine<F>(fr: Fractions<F>, line: string): seq<GpuDevice<F>> {
    var text := Trim(line);
    var fields := TrimAll(Split(text, ','));
    if text == "" || |fields| < 7 then [] else [Device(fr, fields)]
  }

  function FlatMap<F>(f: string -> seq<GpuDevice<F>>, lines: seq<string>): seq<GpuDevice<F>> {
    if lines == [] then [] else f(lines[0]) + FlatMap(f, lines[1..])
  }

  lemma {:induction false} FlatMapConcat<F>(f: string -> seq<GpuDevice<F>>, a: seq<string>, b: seq<string>)
    ensures FlatMap(f, a + b) == FlatMap(f, a) + FlatMap(f, b)
  {
    if a == [] {
      assert a + b == b;
    } else {
      assert (a + b)[1..] == a[1..] + b;
      FlatMapConcat(f, a[1..], b);
    }
  }

  lemma {:induction false} FlatMapSame<F>(f: string -> seq<GpuDevice<F>>, a: seq<string>, b: seq<string>)
    requires |a| == |b| && forall i | 0 <= i < |a| :: f(a[i]) == f(b[i])
    ensures FlatMap(f, a) == FlatMap(f, b)
  {
    if a != [] {
      FlatMapSame(f, a[1..], b[1..]);
    }
  }

  function ParseLines<F>(fr: Fractions<F>, lines: seq<string>): seq<GpuDevice<F>> {
    FlatMap(line => ParseLine(fr, line), lines)
  }

  // ----- str::lines -----

  function StripCr(s: string): string {
    if s != "" && s[|s| - 1] == '\r' then s[..|s| - 1] else s
  }

  /** Terminated lines lose their ending, `\n` or `\r\n`; an empty rest is no line. */
  function Lines(s: string): seq<string> {
    var parts := Split(s, '\n');
    var n := |parts| - 1;
    seq(n, i requires 0 <= i < n => StripCr(parts[i])) + if parts[n] == "" then [] else [parts[n]]
  }

  method ParseNvidiaSmiOutput<F>(fr: Fractions<F>, output: string) returns (devices: seq<GpuDevice<F>>)
    ensures devices == ParseLines(fr, Lines(output))
  {
    devices := [];
    var lines := Lines(output);
    for i := 0 to |lines|
      invariant devices == ParseLines(fr, lines[..i])
    {
      ParseOneMore(fr, lines, i);
      var line := Trim(lines[i]);
      if line == "" {
        continue;
      }
      var fields := TrimAll(Split(line, ','));
      if |fields| < 7 {
        continue;
      }
      devices := devices + [Device(fr, fields)];
    }
    assert lines[..|lines|] == lines;
  }

  lemma FlatMapOneMore<F>(f: string -> seq<GpuDevice<F>>, lines: seq<string>, i: nat)
    requires i < |lines|
    ensures FlatMap(f, lines[..i + 1]) == FlatMap(f, lines[..i]) + f(lines[i])
  {
    assert lines[..i + 1] == lines[..i] + [lines[i]];
    FlatMapConcat(f, lines[..i], [lines[i]]);
    assert FlatMap(f, [lines[i]]) == f(lines[i]) + FlatMap(f, []);
  }

  lemma ParseOneMore<F>(fr: Fractions<F>, lines: seq<string>, i: nat)
    requires i < |lines|
    ensures ParseLines(fr, lines[..i + 1]) == ParseLines(fr, lines[..i]) + ParseLine(fr, lines[i])
  {
    FlatMapOneMore((line: string) => ParseLine(fr, line), lines, i);
  }

  // ----- the parser is a homomorphism -----

  lemma LineEndingIrrelevant<F>(fr: Fractions<F>, line: string)
    ensures ParseLine(fr, StripCr(line)) == ParseLine(fr, line)
  {
    if StripCr(line) != line {
      assert line == StripCr(line) + ['\r'];
      TrimPad('\r', StripCr(line));
    }
  }

  lemma FlatMapLines<F>(f: string -> seq<GpuDevice<F>>, s: string)
    requires f("") == [] && forall l :: f(StripCr(l)) == f(l)
    ensures FlatMap(f, Lines(s)) == FlatMap(f, Split(s, '\n'))
  {
    var parts := Split(s, '\n');
    var n := |parts| - 1;
    var stripped := seq(n, i requires 0 <= i < n => StripCr(parts[i]));
    FlatMapSame(f, stripped, parts[..n]);
    FlatMapConcat(f, parts[..n], [parts[n]]);
    FlatMapConcat(f, stripped, if parts[n] == "" then [] else [parts[n]]);
    assert parts == parts[..n] + [parts[n]];
    assert FlatMap(f, [parts[n]]) == f(parts[n]) + FlatMap(f, []);
  }

  /** Splitting at line feeds alone gives the same devices. */
  lemma LinesAreParts<F>(fr: Fractions<F>, s: string)
    ensures ParseLines(fr, Lines(s)) == ParseLines(fr, Split(s, '\n'))
  {
    var f := (line: string) => ParseLine(fr, line);
    BlankLine(fr);
    forall l
      ensures f(StripCr(l)) == f(l)
    {
      LineEndingIrrelevant(fr, l);
    }
    FlatMapLines(f, s);
  }

  lemma BlankLine<F>(fr: Fractions<F>)
    ensures ParseLine(fr, "") == []
  {
    assert Trim("") == "";
  }

  /** The devices of two outputs put on separate lines are those of the first followed
      by those of the second. */
  lemma Homomorphism<F>(fr: Fractions<F>, a: string, b: string)
    ensures ParseLines(fr, Lines(a + "\n" + b)) == ParseLines(fr, Lines(a)) + ParseLines(fr, Lines(b))
  {
    LinesAreParts(fr, a);
    LinesAreParts(fr, b);
    LinesAreParts(fr, a + "\n" + b);
    SplitAppend(a, b, '\n');
    FlatMapConcat(line => ParseLine(fr, line), Split(a, '\n'), Split(b, '\n'));
  }

  // ----- round trip -----

  /** What a cell of the table holds: a value, or text such as [N/A]. */
  datatype Cell<T> = Value(value: T) | Other(text: string)

  /** A row as the tool prints it, with memory in MiB, and any further columns. */
  datatype Row<F> = Row(
    index: Cell<nat>,
    name: string,
    temperature: Cell<F>,
    utilization: Cell<F>,
    totalMib: Cell<nat>,
    usedMib: Cell<nat>,
    powerDraw: Cell<F>,
    further: seq<string>)

  predicate Field(s: string) {
    Trimmed(s) && ',' !in s && '\n' !in s
  }

  predicate FullField(s: string) {
    s != "" && Field(s)
  }

  /** A number in range, or a proper field that is no number in range. */
  predicate NumberCell(cell: Cell<nat>, bound: nat) {
    match cell
    case Value(n) => n < bound
    case Other(text) => FullField(text) && ParseUnsigned(text, bound) == None
  }

  /** A fraction whose printed form is a proper field that parses back, or a proper
      field that does not parse. */
  ghost predicate FractionCell<F>(fr: Fractions<F>, show: F -> string, cell: Cell<F>) {
    match cell
    case Value(x) => FullField(show(x)) && fr.parse(show(x)) == Some(x)
    case Other(text) => FullField(text) && fr.parse(text) == None
  }

  ghost predicate Printable<F>(fr: Fractions<F>, show: F -> string, row: Row<F>) {
    && NumberCell(row.index, 4294967296) && Field(row.name)
    && MemoryCell(row.totalMib) && MemoryCell(row.usedMib)
    && FractionCell(fr, show, row.temperature) && FractionCell(fr, show, row.utilization)
    && FractionCell(fr, show, row.powerDraw)
    && (forall f | f in row.further :: FullField(f))
  }

  /** Memory whose byte count fits 64 bits, or text that is no 64-bit number. */
  predicate MemoryCell(cell: Cell<nat>) {
    NumberCell(cell, 18446744073709551616) && (cell.Value? ==> cell.value < 17592186044416)
  }

  function ShowNumber(cell: Cell<nat>): string {
    match cell
    case Value(n) => Print(n)
    case Other(text) => text
  }

  function ShowFraction<F>(show: F -> string, cell: Cell<F>): string {
    match cell
    case Value(x) => show(x)
    case Other(text) => text
  }

  function SevenFields<F>(show: F -> string, row: Row<F>): seq<string> {
    [ShowNumber(row.index), row.name, ShowFraction(show, row.temperature), ShowFraction(show, row.utilization),
     ShowNumber(row.totalMib), ShowNumber(row.usedMib), ShowFraction(show, row.powerDraw)]
  }

  function Fields<F>(show: F -> string, row: Row<F>): seq<string> {
    SevenFields(show, row) + row.further
  }

  /** Every field but the first is preceded by a space. */
  function Padded(fields: seq<string>): (padded: seq<string>)
    ensures |padded| == |fields|
    ensures forall i | 0 <= i < |fields| :: padded[i] == if i == 0 then fields[i] else " " + fields[i]
  {
    seq(|fields|, i requires 0 <= i < |fields| => if i == 0 then fields[i] else " " + fields[i])
  }

  function PrintRow<F>(show: F -> string, row: Row<F>): string {
    Join(Padded(Fields(show, row)), ',')
  }

  function PrintRows<F>(show: F -> string, rows: seq<Row<F>>): string {
    if rows == [] then ""
    else PrintRow(show, rows[0]) + "\n" + PrintRows(show, rows[1..])
  }

  /** The value of a cell, or what an unreadable one counts as. */
  function CellOr<T>(cell: Cell<T>, default: T): T {
    match cell
    case Value(v) => v
    case Other(_) => default
  }

  function DeviceOf<F>(zero: F, row: Row<F>): GpuDevice<F> {
    GpuDevice(CellOr(row.index, 0), row.name, CellOr(row.temperature, zero), CellOr(row.utilization, zero),
              CellOr(row.totalMib, 0) * 1048576, CellOr(row.usedMib, 0) * 1048576, CellOr(row.powerDraw, zero))
  }

  function Devices<F>(zero: F, rows: seq<Row<F>>): seq<GpuDevice<F>> {
    seq(|rows|, i requires 0 <= i < |rows| => DeviceOf(zero, rows[i]))
  }

  lemma NumberIsField(n: nat)
    ensures FullField(Print(n))
  {
    assert Print(n)[0] in Print(n) && Print(n)[|Print(n)| - 1] in Print(n);
  }

  lemma NumberCellReads(cell: Cell<nat>, bound: nat)
    requires NumberCell(cell, bound)
    ensures FullField(ShowNumber(cell)) && UnsignedOr0(ShowNumber(cell), bound) == CellOr(cell, 0)
  {
    if cell.Value? {
      NumberIsField(cell.value);
      ParsePrint(cell.value, bound);
    }
  }

  lemma MemoryCellReads(cell: Cell<nat>)
    requires MemoryCell(cell)
    ensures FullField(ShowNumber(cell))
    ensures MemoryBytes(UnsignedOr0(ShowNumber(cell), U64_BOUND)) == CellOr(cell, 0) * 1048576
  {
    NumberCellReads(cell, U64_BOUND);
    BytesExactIff(CellOr(cell, 0));
  }

  lemma RowFields<F>(fr: Fractions<F>, show: F -> string, row: Row<F>)
    requires Printable(fr, show, row)
    ensures forall f | f in Fields(show, row) :: Field(f)
    ensures var fields := Fields(show, row); fields[0] != "" && fields[|fields| - 1] != ""
    ensures Device(fr, Fields(show, row)) == DeviceOf(fr.zero, row)
  {
    NumberCellReads(row.index, U32_BOUND);
    MemoryCellReads(row.totalMib);
    MemoryCellReads(row.usedMib);
    forall f | f in Fields(show, row)
      ensures Field(f)
    {
      assert f in SevenFields(show, row) || f in row.further;
    }
    if row.further != [] {
      assert row.further[|row.further| - 1] in row.further;
    }
  }

  lemma {:induction false} JoinLast(parts: seq<string>, sep: char)
    requires parts != [] && parts[|parts| - 1] != ""
    ensures var s, last := Join(parts, sep), parts[|parts| - 1];
            s != "" && s[|s| - 1] == last[|last| - 1]
  {
    if |parts| > 1 {
      JoinLast(parts[1..], sep);
    }
  }

  lemma {:induction false} JoinFree(parts: seq<string>, sep: char, c: char)
    requires c != sep && forall i | 0 <= i < |parts| :: c !in parts[i]
    ensures c !in Join(parts, sep)
  {
    if |parts| > 1 {
      JoinFree(parts[1..], sep, c);
    }
  }

  lemma RowIsOneLine<F>(fr: Fractions<F>, show: F -> string, row: Row<F>)
    requires Printable(fr, show, row)
    ensures Trimmed(PrintRow(show, row)) && PrintRow(show, row) != ""
    ensures '\n' !in PrintRow(show, row)
  {
    RowFields(fr, show, row);
    var fields := Fields(show, row);
    var padded := Padded(fields);
    forall i | 0 <= i < |padded|
      ensures '\n' !in padded[i]
    {
      assert fields[i] in fields;
    }
    JoinFree(padded, ',', '\n');
    JoinLast(padded, ',');
    assert fields[0] in fields && fields[|fields| - 1] in fields;
    assert PrintRow(show, row)[0] == fields[0][0];
  }

  lemma PaddedSplits(fields: seq<string>)
    requires fields != [] && forall i | 0 <= i < |fields| :: Field(fields[i])
    ensures TrimAll(Split(Join(Padded(fields), ','), ',')) == fields
  {
    var padded := Padded(fields);
    forall i | 0 <= i < |padded|
      ensures ',' !in padded[i] && Trim(padded[i]) == fields[i]
    {
      TrimPad(' ', fields[i]);
    }
    forall p | p in padded
      ensures ',' !in p
    {
      var i :| 0 <= i < |padded| && padded[i] == p;
    }
    SplitJoin(padded, ',');
  }

  lemma RowParses<F>(fr: Fractions<F>, show: F -> string, row: Row<F>)
    requires Printable(fr, show, row)
    ensures ParseLine(fr, PrintRow(show, row)) == [DeviceOf(fr.zero, row)]
  {
    RowIsOneLine(fr, show, row);
    RowFields(fr, show, row);
    var fields := Fields(show, row);
    forall i | 0 <= i < |fields|
      ensures Field(fields[i])
    {
      assert fields[i] in fields;
    }
    PaddedSplits(fields);
  }

  function PrintedLines<F>(show: F -> string, rows: seq<Row<F>>): seq<string> {
    if rows == [] then [] else [PrintRow(show, rows[0])] + PrintedLines(show, rows[1..])
  }

  lemma SplitLine(line: string, rest: string, lines: seq<string>)
    requires '\n' !in line && Split(rest, '\n') == lines
    ensures Split(line + "\n" + rest, '\n') == [line] + lines
  {
    SplitFree(line, '\n');
    SplitAppend(line, rest, '\n');
  }

  lemma {:induction false} PrintedSplits<F>(fr: Fractions<F>, show: F -> string, rows: seq<Row<F>>)
    requires forall i | 0 <= i < |rows| :: Printable(fr, show, rows[i])
    ensures Split(PrintRows(show, rows), '\n') == PrintedLines(show, rows) + [""]
  {
    if rows != [] {
      var line, rest := PrintRow(show, rows[0]), rows[1..];
      RowIsOneLine(fr, show, rows[0]);
      PrintedSplits(fr, show, rest);
      SplitLine(line, PrintRows(show, rest), PrintedLines(show, rest) + [""]);
    }
  }

  lemma {:induction false} PrintedMap<F>(f: string -> seq<GpuDevice<F>>, zero: F, show: F -> string, rows: seq<Row<F>>)
    requires forall i | 0 <= i < |rows| :: f(PrintRow(show, rows[i])) == [DeviceOf(zero, rows[i])]
    ensures FlatMap(f, PrintedLines(show, rows)) == Devices(zero, rows)
  {
    if rows != [] {
      PrintedMap(f, zero, show, rows[1..]);
      assert PrintedLines(show, rows)[1..] == PrintedLines(show, rows[1..]);
      assert Devices(zero, rows) == [DeviceOf(zero, rows[0])] + Devices(zero, rows[1..]);
    }
  }

  lemma FlatMapTail<F>(f: string -> seq<GpuDevice<F>>, lines: seq<string>)
    requires f("") == []
    ensures FlatMap(f, lines + [""]) == FlatMap(f, lines)
  {
    FlatMapConcat(f, lines, [""]);
    assert FlatMap(f, [""]) == f("") + FlatMap(f, []);
  }

  lemma PrintedFile<F>(f: string -> seq<GpuDevice<F>>, zero: F, show: F -> string, rows: seq<Row<F>>)
    requires f("") == []
    requires forall i | 0 <= i < |rows| :: f(PrintRow(show, rows[i])) == [DeviceOf(zero, rows[i])]
    ensures FlatMap(f, PrintedLines(show, rows) + [""]) == Devices(zero, rows)
  {
    PrintedMap(f, zero, show, rows);
    FlatMapTail(f, PrintedLines(show, rows));
  }

  /** Parsing undoes printing for any number of rows with trimmed, comma-free names and
      memory sizes whose byte counts fit 64 bits; a cell that holds no readable value
      counts as zero, and columns after the seventh are ignored. */
  lemma RoundTrip<F>(fr: Fractions<F>, show: F -> string, rows: seq<Row<F>>)
    requires forall i | 0 <= i < |rows| :: Printable(fr, show, rows[i])
    ensures ParseLines(fr, Lines(PrintRows(show, rows))) == Devices(fr.zero, rows)
  {
    var f := (line: string) => ParseLine(fr, line);
    LinesAreParts(fr, PrintRows(show, rows));
    PrintedSplits(fr, show, rows);
    forall i | 0 <= i < |rows|
      ensures f(PrintRow(show, rows[i])) == [DeviceOf(fr.zero, rows[i])]
    {
      RowParses(fr, show, rows[i]);
    }
    BlankLine(fr);
    PrintedFile(f, fr.zero, show, rows);
  }
}
