/**
  The incremental emitter of tsdatafaker.py: `process` re-emits an input file as a
  series of output batches, each one the header followed by at most `increment`
  data lines, with a handshake (a sleep, or a wait for the consumer to remove the
  previous output file) before every batch. Also `positive_int_type`, the argument
  validator of `--increment`.

  The input file is the list of lines `readline` returns: every line is non-empty
  (it keeps its line terminator) and `""` means end of file. The output is the
  trace of handshakes and written batches.
 */
module TsDataFaker {
  import opened Common

  // ---------------------------------------------------------------------------
  // positive_int_type
  // ---------------------------------------------------------------------------

  /** `positive_int_type(x)`: `int(x)`, refused when below 1. `parseInt` stands for Python's `int()`. */
  function PositiveIntType(x: string, parseInt: string -> Option<int>): (r: Result<int>)
    ensures parseInt(x).None? ==> r.Err? && r.error.ValueError?
    ensures parseInt(x).Some? ==> (r.Ok? <==> parseInt(x).value >= 1)
    ensures r.Ok? ==> parseInt(x) == Some(r.value)
    ensures parseInt(x).Some? && parseInt(x).value < 1 ==> r == Err(ArgumentTypeError("Minimum value is 1"))
  {
    match parseInt(x)
    case None => Err(ValueError("invalid literal for int()"))
    case Some(n) => if n < 1 then Err(ArgumentTypeError("Minimum value is 1")) else Ok(n)
  }

  // ---------------------------------------------------------------------------
  // The input file and the emitted trace
  // ---------------------------------------------------------------------------

  /** An observable step of the emitter. */
  datatype Event =
    | Sleep                          // overwrite mode: sleep `delay` seconds
    | AwaitRemoval                   // otherwise: poll until the output file is gone
    | Write(content: seq<string>)    // the lines written to the output file before it is closed

  /** The handshake performed before each batch. */
  function Handshake(overwrite: bool): Event {
    if overwrite then Sleep else AwaitRemoval
  }

  /** A line the read step discards when `skip_empty` is set: exactly an empty line terminator. */
  predicate IsBlank(l: string) {
    l == "\n" || l == "\r\n"
  }

  predicate Skips(skipEmpty: bool, l: string) {
    skipEmpty && IsBlank(l)
  }

  /** What `readline` returns at line index `i`: past the end of the file, `""`. */
  function LineAt(input: seq<string>, i: nat): string {
    if i < |input| then input[i] else ""
  }

  /** A text file opened for reading; `pos` is the index of the next line `readline` returns. */
  class InputFile {
    const lines: seq<string>
    var pos: nat

    ghost predicate Valid()
      reads this
    {
      pos <= |lines| && forall i :: 0 <= i < |lines| ==> lines[i] != ""
    }

    constructor (contents: seq<string>)
      requires forall i :: 0 <= i < |contents| ==> contents[i] != ""
      ensures Valid() && lines == contents && pos == 0
    {
      lines := contents;
      pos := 0;
    }

    /** `readline()`: the next line, or `""` (and no movement) at end of file. */
    method ReadLine() returns (l: string)
      requires Valid()
      modifies this
      ensures Valid()
      ensures l == LineAt(lines, old(pos))
      ensures pos == if old(pos) < |lines| then old(pos) + 1 else old(pos)
    {
      if pos < |lines| {
        l := lines[pos];
        pos := pos + 1;
      } else {
        l := "";
      }
    }
  }

  /** `rest` with the lines the read step discards removed. */
  function Kept(rest: seq<string>, skipEmpty: bool): seq<string> {
    if rest == [] then []
    else (if Skips(skipEmpty, rest[0]) then [] else [rest[0]]) + Kept(rest[1..], skipEmpty)
  }

  /** The number of lines of `rest` the read step discards. */
  function Skipped(rest: seq<string>, skipEmpty: bool): nat {
    if rest == [] then 0
    else (if Skips(skipEmpty, rest[0]) then 1 else 0) + Skipped(rest[1..], skipEmpty)
  }

  /** `l` in front of `rest`, unless `l` is the end-of-file marker. */
  function Cons(l: string, rest: seq<string>): seq<string> {
    if l == "" then rest else [l] + rest
  }

  // ---------------------------------------------------------------------------
  // Reference definition of what `process` emits
  // ---------------------------------------------------------------------------

  /** The header: `headerSize` reads from the start of the file (none if it is not positive). */
  function HeaderLines(input: seq<string>, headerSize: int): seq<string>
    decreases headerSize
  {
    if headerSize <= 0 then [] else HeaderLines(input, headerSize - 1) + [LineAt(input, headerSize - 1)]
  }

  /** The index of the first line after the header. */
  function DataStart(input: seq<string>, headerSize: int): nat {
    if headerSize < 0 then 0 else if headerSize < |input| then headerSize else |input|
  }

  /** The data lines that are written, in order. */
  function DataLines(input: seq<string>, headerSize: int, skipEmpty: bool): seq<string> {
    Kept(input[DataStart(input, headerSize)..], skipEmpty)
  }

  /** The number of data lines that are skipped as blank. */
  function SkippedLines(input: seq<string>, headerSize: int, skipEmpty: bool): nat {
    Skipped(input[DataStart(input, headerSize)..], skipEmpty)
  }

  /** `d` cut into consecutive pieces of `k` elements, the last one possibly shorter. */
  function Chunks<T>(d: seq<T>, k: nat): seq<seq<T>>
    requires k >= 1
    decreases |d|
  {
    if d == [] then []
    else
      var m := if |d| < k then |d| else k;
      [d[..m]] + Chunks(d[m..], k)
  }

  function Flatten<T>(ss: seq<seq<T>>): seq<T> {
    if ss == [] then [] else ss[0] + Flatten(ss[1..])
  }

  /** One handshake and one write of `header + chunk` per chunk. */
  function Emission(header: seq<string>, chunks: seq<seq<string>>, overwrite: bool): seq<Event> {
    if chunks == [] then []
    else [Handshake(overwrite), Write(header + chunks[0])] + Emission(header, chunks[1..], overwrite)
  }

  /** The part of each batch after the first `headerLength` lines. */
  function Bodies(batches: seq<seq<string>>, headerLength: nat): seq<seq<string>> {
    if batches == [] then []
    else [if headerLength <= |batches[0]| then batches[0][headerLength..] else []] + Bodies(batches[1..], headerLength)
  }

  /** The contents of the successive output files of a trace. */
  function Batches(trace: seq<Event>): seq<seq<string>> {
    if trace == [] then []
    else (if trace[0].Write? then [trace[0].content] else []) + Batches(trace[1..])
  }

  // ---------------------------------------------------------------------------
  // process
  // ---------------------------------------------------------------------------

  /** `read_single_line(n)`: read a line, discarding blank lines when `skipEmpty`, counting them in `n`. */
  method ReadSingleLine(f: InputFile, skipEmpty: bool, n: nat) returns (l: string, n': nat)
    requires f.Valid()
    modifies f
    ensures f.Valid()
    ensures l == "" ==> f.pos == |f.lines|
    ensures l != "" ==> !Skips(skipEmpty, l)
    ensures Cons(l, Kept(f.lines[f.pos..], skipEmpty)) == Kept(f.lines[old(f.pos)..], skipEmpty)
    ensures n' + Skipped(f.lines[f.pos..], skipEmpty) == n + Skipped(f.lines[old(f.pos)..], skipEmpty)
  {
    ghost var start := f.pos;
    if start < |f.lines| {
      assert f.lines[start..] == [f.lines[start]] + f.lines[start + 1..];
    }
    l := f.ReadLine();
    n' := n;
    while Skips(skipEmpty, l)
      invariant f.Valid()
      invariant l == "" ==> f.pos == |f.lines|
      invariant Kept(Cons(l, f.lines[f.pos..]), skipEmpty) == Kept(f.lines[start..], skipEmpty)
      invariant n' + Skipped(Cons(l, f.lines[f.pos..]), skipEmpty) == n + Skipped(f.lines[start..], skipEmpty)
      decreases |f.lines| - f.pos, l != ""
    {
      ghost var p := f.pos;
      assert ([l] + f.lines[p..])[1..] == f.lines[p..];
      if p < |f.lines| {
        assert f.lines[p..] == [f.lines[p]] + f.lines[p + 1..];
      }
      n' := n' + 1;
      l := f.ReadLine();
    }
    if l != "" {
      assert ([l] + f.lines[f.pos..])[1..] == f.lines[f.pos..];
    }
  }

  /**
    The body of `process`'s `with open(output_filename, 'w')` block: write the header,
    then up to `increment` data lines, reading the next line after each one. `data` is
    the whole sequence of data lines and `lines0` how many of them were written before;
    `skipped` is the total number of blank lines the data part holds.
   */
  method WriteBatch(f: InputFile, skipEmpty: bool, increment: int, header: seq<string>,
                    ghost data: seq<string>, ghost skipped: nat, line0: string, lines0: nat, empty0: nat)
    returns (content: seq<string>, line: string, lines: nat, empty: nat)
    requires f.Valid() && increment >= 1
    requires lines0 <= |data|
    requires data[lines0..] == Cons(line0, Kept(f.lines[f.pos..], skipEmpty))
    requires empty0 + Skipped(f.lines[f.pos..], skipEmpty) == skipped
    requires line0 == "" ==> f.pos == |f.lines|
    modifies f
    ensures f.Valid()
    ensures lines0 <= lines <= |data| && lines - lines0 <= increment
    ensures line != "" ==> lines - lines0 == increment
    ensures content == header + data[lines0..lines]
    ensures data[lines..] == Cons(line, Kept(f.lines[f.pos..], skipEmpty))
    ensures empty + Skipped(f.lines[f.pos..], skipEmpty) == skipped
    ensures line == "" ==> f.pos == |f.lines|
  {
    line, lines, empty := line0, lines0, empty0;
    ghost var first := lines;
    content := header;
    for k := 0 to increment
      invariant f.Valid()
      invariant first <= lines <= |data| && lines - first <= k
      invariant line != "" ==> lines - first == k
      invariant content == header + data[first..lines]
      invariant data[lines..] == Cons(line, Kept(f.lines[f.pos..], skipEmpty))
      invariant empty + Skipped(f.lines[f.pos..], skipEmpty) == skipped
      invariant line == "" ==> f.pos == |f.lines|
    {
      if line != "" {
        assert data[lines] == line && data[lines + 1..] == Kept(f.lines[f.pos..], skipEmpty);
        assert data[first..lines + 1] == data[first..lines] + [line];
        content := content + [line];
        lines := lines + 1;
        line, empty := ReadSingleLine(f, skipEmpty, empty);
      }
    }
  }

  /** The header loop of `process`: `headerSize` calls of `readline`, kept whatever they return. */
  method ReadHeader(f: InputFile, headerSize: int) returns (header: seq<string>)
    requires f.Valid() && f.pos == 0
    modifies f
    ensures f.Valid()
    ensures header == HeaderLines(f.lines, headerSize)
    ensures f.pos == DataStart(f.lines, headerSize)
  {
    header := [];
    var i := 0;
    while i < headerSize
      invariant 0 <= i <= if headerSize < 0 then 0 else headerSize
      invariant f.Valid()
      invariant f.pos == if i < |f.lines| then i else |f.lines|
      invariant header == HeaderLines(f.lines, i)
    {
      var l := f.ReadLine();
      header := header + [l];
      i := i + 1;
    }
  }

  /**
    The main loop of `process`, from the first data line on: while a line is pending,
    perform the handshake and write one batch. `data` is the sequence of data lines
    and `skipped` the total number of blank lines of the data part.
   */
  method EmitBatches(f: InputFile, skipEmpty: bool, overwrite: bool, increment: int, header: seq<string>,
                     ghost data: seq<string>, ghost skipped: nat, line0: string, empty0: nat)
    returns (lines: nat, empty: nat, trace: seq<Event>)
    requires f.Valid() && increment >= 1
    requires data == Cons(line0, Kept(f.lines[f.pos..], skipEmpty))
    requires empty0 + Skipped(f.lines[f.pos..], skipEmpty) == skipped
    requires line0 == "" ==> f.pos == |f.lines|
    modifies f
    ensures lines == |data| && empty == skipped
    ensures trace == Emission(header, Chunks(data, increment), overwrite)
  {
    ghost var all := Emission(header, Chunks(data, increment), overwrite);
    var line := line0;
    lines, empty := 0, empty0;
    trace := [];
    while line != ""
      invariant f.Valid()
      invariant lines <= |data|
      invariant data[lines..] == Cons(line, Kept(f.lines[f.pos..], skipEmpty))
      invariant empty + Skipped(f.lines[f.pos..], skipEmpty) == skipped
      invariant line == "" ==> f.pos == |f.lines|
      invariant trace + Emission(header, Chunks(data[lines..], increment), overwrite) == all
      decreases |data| - lines
    {
      ghost var before := trace;
      // the handshake that precedes every batch (see `Handshake`)
      trace := trace + [Handshake(overwrite)];
      ghost var first := lines;
      var content;
      content, line, lines, empty := WriteBatch(f, skipEmpty, increment, header, data, skipped, line, lines, empty);
      TraceStep(before, header, data, first, lines, increment, overwrite, content, all);
      trace := trace + [Write(content)];
    }
    assert data[lines..] == [];
  }

  /**
    `process`: read the header, then emit the data lines in batches of at most
    `increment` lines. Returns the number of data lines written (`lines`), the number
    of blank lines skipped (`empty`) and the trace of handshakes and writes.
   */
  method Process(input: seq<string>, headerSize: int, skipEmpty: bool, overwrite: bool, increment: int)
    returns (lines: nat, empty: nat, trace: seq<Event>)
    requires forall i :: 0 <= i < |input| ==> input[i] != ""
    requires increment >= 1
    ensures lines == |DataLines(input, headerSize, skipEmpty)|
    ensures empty == SkippedLines(input, headerSize, skipEmpty)
    ensures trace == Emission(HeaderLines(input, headerSize), Chunks(DataLines(input, headerSize, skipEmpty), increment), overwrite)
  {
    var f := new InputFile(input);
    var header := ReadHeader(f, headerSize);
    ghost var start := f.pos;
    var line, empty0 := ReadSingleLine(f, skipEmpty, 0);
    lines, empty, trace := EmitBatches(f, skipEmpty, overwrite, increment, header,
                                       DataLines(input, headerSize, skipEmpty), SkippedLines(input, headerSize, skipEmpty),
                                       line, empty0);
  }

  // ---------------------------------------------------------------------------
  // Helper lemmas for the proof of Process
  // ---------------------------------------------------------------------------

  lemma TraceStep(before: seq<Event>, header: seq<string>, d: seq<string>, first: nat, lines: nat, k: nat,
                  overwrite: bool, content: seq<string>, all: seq<Event>)
    requires k >= 1 && first < lines <= |d|
    requires lines - first == k || (lines == |d| && lines - first <= k)
    requires before + Emission(header, Chunks(d[first..], k), overwrite) == all
    requires content == header + d[first..lines]
    ensures (before + [Handshake(overwrite)]) + [Write(content)] + Emission(header, Chunks(d[lines..], k), overwrite) == all
  {
    ChunksHead(d[first..], k, lines - first);
    assert d[first..][..lines - first] == d[first..lines];
    assert d[first..][lines - first..] == d[lines..];
    EmissionHead(header, d[first..lines], Chunks(d[lines..], k), overwrite);
  }

  /** The first chunk of a non-empty sequence is its first min(k, |d|) elements. */
  lemma ChunksHead<T>(d: seq<T>, k: nat, m: nat)
    requires k >= 1 && d != []
    requires m == if |d| < k then |d| else k
    ensures Chunks(d, k) == [d[..m]] + Chunks(d[m..], k)
  {
  }

  lemma EmissionHead(header: seq<string>, chunk: seq<string>, rest: seq<seq<string>>, overwrite: bool)
    ensures Emission(header, [chunk] + rest, overwrite)
         == [Handshake(overwrite), Write(header + chunk)] + Emission(header, rest, overwrite)
  {
    assert ([chunk] + rest)[1..] == rest;
  }

  // ---------------------------------------------------------------------------
  // Properties of what `process` emits
  // ---------------------------------------------------------------------------

  /** The header holds exactly `headerSize` entries: the first lines of the file, blank or not, then `""`. */
  lemma {:induction false} HeaderShape(input: seq<string>, headerSize: int)
    ensures |HeaderLines(input, headerSize)| == if headerSize < 0 then 0 else headerSize
    ensures forall j :: 0 <= j < |HeaderLines(input, headerSize)| ==>
              HeaderLines(input, headerSize)[j] == if j < |input| then input[j] else ""
    decreases headerSize
  {
    if headerSize > 0 {
      HeaderShape(input, headerSize - 1);
    }
  }

  /** The read step removes exactly the blank lines, and only when `skipEmpty` is set. */
  lemma {:induction false} KeptFilters(rest: seq<string>, skipEmpty: bool)
    ensures |Kept(rest, skipEmpty)| + Skipped(rest, skipEmpty) == |rest|
    ensures forall l :: l in Kept(rest, skipEmpty) ==> l in rest && !Skips(skipEmpty, l)
    ensures forall l :: l in rest && !Skips(skipEmpty, l) ==> l in Kept(rest, skipEmpty)
    ensures !skipEmpty ==> Kept(rest, skipEmpty) == rest && Skipped(rest, skipEmpty) == 0
    decreases |rest|
  {
    if rest != [] {
      KeptFilters(rest[1..], skipEmpty);
      assert rest == [rest[0]] + rest[1..];
    }
  }

  lemma MulAtLeast(a: int, k: int)
    requires a >= 1 && k >= 0
    ensures a * k >= k
    decreases a
  {
    if a > 1 {
      MulAtLeast(a - 1, k);
      assert a * k == (a - 1) * k + k;
    }
  }

  /** Euclidean division is determined by its quotient-remainder equation. */
  lemma DivUnique(n: int, k: int, q: int, r: int)
    requires k >= 1 && 0 <= r < k && n == q * k + r
    ensures n / k == q && n % k == r
  {
    var q', r' := n / k, n % k;
    assert n == q' * k + r';
    assert q * k - q' * k == r' - r;
    assert (q - q') * k == q * k - q' * k;
    if q > q' {
      MulAtLeast(q - q', k);
    } else if q < q' {
      assert (q' - q) * k == q' * k - q * k;
      MulAtLeast(q' - q, k);
    }
  }

  lemma DivStep(x: nat, k: nat)
    requires k >= 1
    ensures (x + k) / k == x / k + 1
    ensures (x + k) % k == x % k
  {
    assert x == (x / k) * k + x % k;
    assert x + k == (x / k + 1) * k + x % k;
    DivUnique(x + k, k, x / k + 1, x % k);
  }

  /** Concatenating the chunks gives back the sequence. */
  lemma {:induction false} ChunksFlatten<T>(d: seq<T>, k: nat)
    requires k >= 1
    ensures Flatten(Chunks(d, k)) == d
    decreases |d|
  {
    if d != [] {
      var m := if |d| < k then |d| else k;
      ChunksFlatten(d[m..], k);
      var c := Chunks(d, k);
      assert c == [d[..m]] + Chunks(d[m..], k);
      assert c[0] == d[..m] && c[1..] == Chunks(d[m..], k);
      assert d == d[..m] + d[m..];
    }
  }

  /** There are ceil(|d| / k) chunks. */
  lemma {:induction false} ChunksCount<T>(d: seq<T>, k: nat)
    requires k >= 1
    ensures |Chunks(d, k)| == (|d| + k - 1) / k
    decreases |d|
  {
    if d == [] {
      DivUnique(k - 1, k, 0, k - 1);
    } else if |d| <= k {
      ChunksHead(d, k, |d|);
      assert d[|d|..] == [];
      DivUnique(|d| + k - 1, k, 1, |d| - 1);
    } else {
      ChunksHead(d, k, k);
      ChunksCount(d[k..], k);
      DivStep(|d| - 1, k);
      assert |d| - 1 == (|d| - k + k - 1);
    }
  }

  /** Every chunk holds 1..k elements, and every chunk but the last exactly `k`. */
  lemma {:induction false} ChunksSizes<T>(d: seq<T>, k: nat)
    requires k >= 1
    ensures forall i :: 0 <= i < |Chunks(d, k)| ==> 1 <= |Chunks(d, k)[i]| <= k
    ensures forall i :: 0 <= i < |Chunks(d, k)| - 1 ==> |Chunks(d, k)[i]| == k
    decreases |d|
  {
    if d != [] {
      var m := if |d| < k then |d| else k;
      var c, c' := Chunks(d, k), Chunks(d[m..], k);
      assert c == [d[..m]] + c';
      ChunksSizes(d[m..], k);
      assert |d| <= k ==> c' == [];
      forall i | 1 <= i < |c|
        ensures c[i] == c'[i - 1]
      {
      }
    }
  }

  /** The last chunk holds the remainder of |d| divided by k, or k when k divides |d|. */
  lemma {:induction false} LastChunkSize<T>(d: seq<T>, k: nat)
    requires k >= 1 && d != []
    ensures |Chunks(d, k)| >= 1
    ensures |Chunks(d, k)[|Chunks(d, k)| - 1]| == if |d| % k == 0 then k else |d| % k
    decreases |d|
  {
    var m := if |d| < k then |d| else k;
    var c, c' := Chunks(d, k), Chunks(d[m..], k);
    assert c == [d[..m]] + c';
    if |d| < k {
      DivUnique(|d|, k, 0, |d|);
    } else if |d| == k {
      DivUnique(|d|, k, 1, 0);
    } else {
      LastChunkSize(d[m..], k);
      DivStep(|d| - k, k);
      assert c[|c| - 1] == c'[|c'| - 1];
    }
  }

  /** The trace is a handshake followed by a write of `header + chunk`, for each chunk in turn. */
  lemma {:induction false} EmissionShape(header: seq<string>, chunks: seq<seq<string>>, overwrite: bool)
    ensures |Emission(header, chunks, overwrite)| == 2 * |chunks|
    ensures forall i :: 0 <= i < |chunks| ==>
              Emission(header, chunks, overwrite)[2 * i] == Handshake(overwrite) &&
              Emission(header, chunks, overwrite)[2 * i + 1] == Write(header + chunks[i])
    decreases |chunks|
  {
    if chunks != [] {
      var e, e' := Emission(header, chunks, overwrite), Emission(header, chunks[1..], overwrite);
      EmissionShape(header, chunks[1..], overwrite);
      assert e == [Handshake(overwrite), Write(header + chunks[0])] + e';
      forall i | 1 <= i < |chunks|
        ensures e[2 * i] == Handshake(overwrite) && e[2 * i + 1] == Write(header + chunks[i])
      {
        assert e[2 * i] == e'[2 * (i - 1)] && e[2 * i + 1] == e'[2 * (i - 1) + 1];
        assert chunks[i] == chunks[1..][i - 1];
      }
    }
  }

  lemma BatchesHead(overwrite: bool, content: seq<string>, rest: seq<Event>)
    ensures Batches([Handshake(overwrite), Write(content)] + rest) == [content] + Batches(rest)
  {
    var e := [Handshake(overwrite), Write(content)] + rest;
    assert e[1..] == [Write(content)] + rest;
    assert e[1..][1..] == rest;
  }

  /** The successive output files hold `header + chunk`, for each chunk in turn. */
  lemma {:induction false} EmissionBatches(header: seq<string>, chunks: seq<seq<string>>, overwrite: bool)
    ensures |Batches(Emission(header, chunks, overwrite))| == |chunks|
    ensures forall i :: 0 <= i < |chunks| ==> Batches(Emission(header, chunks, overwrite))[i] == header + chunks[i]
    decreases |chunks|
  {
    if chunks != [] {
      var e' := Emission(header, chunks[1..], overwrite);
      EmissionBatches(header, chunks[1..], overwrite);
      BatchesHead(overwrite, header + chunks[0], e');
      var b, b' := Batches(Emission(header, chunks, overwrite)), Batches(e');
      assert b == [header + chunks[0]] + b';
      forall i | 1 <= i < |chunks|
        ensures b[i] == header + chunks[i]
      {
        assert b[i] == b'[i - 1];
        assert chunks[i] == chunks[1..][i - 1];
      }
    }
  }

  /** Dropping the header from batches that are `header + chunk` gives back the chunks. */
  lemma {:induction false} BodiesAfterHeader(header: seq<string>, batches: seq<seq<string>>, chunks: seq<seq<string>>)
    requires |batches| == |chunks|
    requires forall i :: 0 <= i < |chunks| ==> batches[i] == header + chunks[i]
    ensures Bodies(batches, |header|) == chunks
    decreases |chunks|
  {
    if chunks != [] {
      BodiesAfterHeader(header, batches[1..], chunks[1..]);
      assert batches[0][|header|..] == chunks[0];
      assert chunks == [chunks[0]] + chunks[1..];
    }
  }

  /**
    What `process` emits for a header H, N data lines D and increment K: ceil(N / K)
    batches, each preceded by exactly one handshake; every batch is the complete header
    followed by K data lines, except the last, which holds the remaining 1..K; the batch
    bodies concatenate to the data lines in order; no data line means no batch at all.
    `Process` emits exactly this trace for `HeaderLines` and `DataLines` of its input.
   */
  lemma EmitterTheorem(H: seq<string>, D: seq<string>, overwrite: bool, increment: int)
    requires increment >= 1
    ensures var T := Emission(H, Chunks(D, increment), overwrite);
            var B := Batches(T);
            && |B| == (|D| + increment - 1) / increment
            && |T| == 2 * |B|
            && (forall i :: 0 <= i < |B| ==> T[2 * i] == Handshake(overwrite) && T[2 * i + 1] == Write(B[i]))
            && (forall i :: 0 <= i < |B| ==> |H| < |B[i]| <= |H| + increment && B[i][..|H|] == H)
            && (forall i :: 0 <= i < |B| - 1 ==> |B[i]| == |H| + increment)
            && (D != [] ==> |B| >= 1 && |B[|B| - 1]| == |H| + if |D| % increment == 0 then increment else |D| % increment)
            && Flatten(Bodies(B, |H|)) == D
            && (D == [] <==> T == [])
  {
    var C := Chunks(D, increment);
    EmissionShape(H, C, overwrite);
    EmissionBatches(H, C, overwrite);
    ChunksCount(D, increment);
    ChunksSizes(D, increment);
    if D != [] {
      LastChunkSize(D, increment);
    }
    ChunksFlatten(D, increment);
    var B := Batches(Emission(H, C, overwrite));
    BodiesAfterHeader(H, B, C);
    forall i | 0 <= i < |B|
      ensures B[i][..|H|] == H
    {
      assert B[i] == H + C[i];
    }
  }

  /** A worked run: four header lines, data `a`, a blank line and `b`, skipping blanks, one line per batch. */
  lemma EmitterExample()
    ensures var input := ["h1\n", "h2\n", "h3\n", "h4\n", "a\n", "\n", "b\n"];
            var H := ["h1\n", "h2\n", "h3\n", "h4\n"];
            && HeaderLines(input, 4) == H
            && DataLines(input, 4, true) == ["a\n", "b\n"]
            && SkippedLines(input, 4, true) == 1
            && Emission(H, Chunks(DataLines(input, 4, true), 1), true)
               == [Sleep, Write(H + ["a\n"]), Sleep, Write(H + ["b\n"])]
  {
    var input := ["h1\n", "h2\n", "h3\n", "h4\n", "a\n", "\n", "b\n"];
    var H := ["h1\n", "h2\n", "h3\n", "h4\n"];
    assert HeaderLines(input, 1) == ["h1\n"];
    assert HeaderLines(input, 2) == ["h1\n", "h2\n"];
    assert HeaderLines(input, 3) == ["h1\n", "h2\n", "h3\n"];
    assert HeaderLines(input, 4) == H;

    var rest := input[4..];
    assert rest == ["a\n", "\n", "b\n"];
    assert rest[1..] == ["\n", "b\n"] && rest[1..][1..] == ["b\n"] && rest[1..][1..][1..] == [];
    assert Kept(rest[1..][1..], true) == ["b\n"] && Skipped(rest[1..][1..], true) == 0;
    assert Kept(rest[1..], true) == ["b\n"] && Skipped(rest[1..], true) == 1;
    var D := ["a\n", "b\n"];
    assert Kept(rest, true) == D && Skipped(rest, true) == 1;

    assert D[..1] == ["a\n"] && D[1..] == ["b\n"];
    assert D[1..][..1] == ["b\n"] && D[1..][1..] == [];
    var C: seq<seq<string>> := Chunks(D, 1);
    assert C == [["a\n"], ["b\n"]];
    EmissionShape(H, C, true);
  }
}
