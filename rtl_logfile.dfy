/**
 * rtl_logfile: reads an rtl-sdr log file and prints one CSV line per record.
 * `Csv` is the line formatter csv(), `LogfileMain` the body of main():
 * resolve the file name, open, read and format until the first non-positive
 * read status, close once, and return the read status ORed with the close
 * status. Standard output and standard error are the strings the program
 * appends to; `ExpectedRun` states the whole run as a function of the
 * arguments and the library's recordings.
 */
module RtlLogfile {
  import opened CsvFormat
  import opened RtlSdrLog

  /** csv(dev, buf, len): appends the line for the current record to `out`. */
  method Csv(dev: Device, buf: array<byte>, len: nat, out: string) returns (out': string)
    requires len <= buf.Length
    ensures out' == out + CsvLine(dev.meta, buf[..len])
  {
    var (preTs, postTs) := dev.Timestamps();
    out' := out + TimespecText(preTs) + Sep;
    out' := out' + TimespecText(postTs) + Sep;
    out' := out' + Decimal.NatText(dev.CenterFreq()) + Sep;
    out' := out' + Decimal.NatText(dev.SampleRate()) + Sep;
    AppendHeader(out, dev.meta);
    ghost var header := out + HeaderText(dev.meta);
    ghost var texts := SampleTexts(buf[..len]);
    var sep := Sep;
    var i := 0;
    while i < len
      invariant 0 <= i <= len
      invariant out' == header + Emitted(texts, i)
      invariant sep == (if i == len && len > 0 then "\n" else Sep)
    {
      if i == len - 1 {
        sep := "\n";
      }
      var field := Decimal.IntText(buf[i] as int - 127);
      assert SampleField(texts, i) == field + sep;
      Associate(header, Emitted(texts, i), field + sep);
      Associate(out', field, sep);
      out' := out' + field + sep;
      i := i + 1;
    }
    Associate(out, HeaderText(dev.meta), Emitted(texts, len));
  }

  // ----- main() -----

  /**
   * The first option getopt returns; usage() exits on it, so no later one is
   * seen. For an option other than -h getopt has already written its own
   * diagnostic to standard error (`opterr` is left at its default); its text
   * belongs to the C library and is carried here as it was written.
   */
  datatype FirstOption = NoOption | Help | Invalid(diagnostic: string)

  /** The command line after getopt: its first option, and argv[optind..]. */
  datatype Args = Args(first: FirstOption, operands: seq<string>)
  {
    /** getopt returned an option, so main() calls usage(). */
    predicate OptionSeen()
    {
      !first.NoOption?
    }
  }

  /** What getopt itself wrote to standard error before returning `first`. */
  function GetoptDiagnostic(first: FirstOption): string
  {
    if first.Invalid? then first.diagnostic else ""
  }

  /** "-" (standard input) when no operand is left, otherwise the first operand. */
  function Filename(operands: seq<string>): string
  {
    if |operands| == 0 then "-" else operands[0]
  }

  function Pow2(k: nat): (p: nat)
    ensures p >= 1
  {
    if k == 0 then 1 else 2 * Pow2(k - 1)
  }

  /** Bitwise OR of two unsigned numbers, one bit at a time from the lowest. */
  function OrNat(x: nat, y: nat): (r: nat)
    ensures r >= x && r >= y
    decreases x + y
  {
    if x == 0 then y
    else if y == 0 then x
    else 2 * OrNat(x / 2, y / 2) + (if x % 2 == 1 || y % 2 == 1 then 1 else 0)
  }

  /** OR sets no bit above the highest bit of its operands. */
  lemma {:induction false} OrBelow(x: nat, y: nat, k: nat)
    requires x < Pow2(k) && y < Pow2(k)
    ensures OrNat(x, y) < Pow2(k)
    decreases x + y
  {
    if x != 0 && y != 0 {
      assert k >= 1;
      OrBelow(x / 2, y / 2, k - 1);
    }
  }

  /** OR of two 32-bit patterns is a 32-bit pattern whose top bit is set iff either operand's is. */
  lemma OrSignBit(x: nat, y: nat)
    requires x < 0x1_0000_0000 && y < 0x1_0000_0000
    ensures OrNat(x, y) < 0x1_0000_0000
    ensures OrNat(x, y) >= 0x8000_0000 <==> x >= 0x8000_0000 || y >= 0x8000_0000
  {
    assert Pow2(8) == 0x100;
    assert Pow2(16) == 0x1_0000;
    assert Pow2(24) == 0x100_0000;
    assert Pow2(31) == 0x8000_0000;
    assert Pow2(32) == 0x1_0000_0000;
    OrBelow(x, y, 32);
    if x < 0x8000_0000 && y < 0x8000_0000 {
      OrBelow(x, y, 31);
    }
  }

  /** The two's-complement bit pattern of a C int, read as an unsigned 32-bit number. */
  function Unsigned(a: int32): (u: nat)
    ensures u < 0x1_0000_0000
    ensures a < 0 <==> u >= 0x8000_0000
  {
    if a < 0 then a as int + 0x1_0000_0000 else a as int
  }

  /** The C int whose two's-complement bit pattern is `u`. */
  function Signed(u: nat): (a: int32)
    requires u < 0x1_0000_0000
    ensures Unsigned(a) == u
  {
    if u < 0x8000_0000 then u as int32 else (u - 0x1_0000_0000) as int32
  }

  /**
   * C's `a | b` on two ints. The result is zero exactly when both are, is
   * the other operand when one of them is zero, and is negative exactly
   * when either operand is.
   */
  function BitOr(a: int32, b: int32): (r: int32)
    ensures r == 0 <==> a == 0 && b == 0
    ensures a == 0 ==> r == b
    ensures b == 0 ==> r == a
    ensures r < 0 <==> a < 0 || b < 0
  {
    var x, y := Unsigned(a), Unsigned(b);
    OrSignBit(x, y);
    Signed(OrNat(x, y))
  }

  // ----- The read loop, as a function of the recording -----

  /**
   * How many reads the loop formats: the index of the first read whose
   * status is not positive, or all of them when none is.
   */
  function Delivered(results: seq<ReadResult>): (n: nat)
    ensures n <= |results|
    ensures forall i :: 0 <= i < n ==> results[i].status > 0
    ensures n < |results| ==> results[n].status <= 0
  {
    if results == [] || results[0].status <= 0 then 0 else 1 + Delivered(results[1..])
  }

  /** The status of the read that ends the loop; 0 when the recording is exhausted. */
  function EndStatus(results: seq<ReadResult>): (r: int32)
    ensures r <= 0
  {
    var n := Delivered(results);
    if n < |results| then results[n].status else 0
  }

  /** The lines csv() prints for the first `n` reads, in order. */
  function PumpOutput(results: seq<ReadResult>, n: nat): string
    requires n <= |results|
    decreases n, 1
  {
    if n == 0 then "" else PrintedThrough(results, n - 1)
  }

  /**
   * The lines csv() prints for reads 0 to `i`: those before read `i`, then
   * its line. PumpOutput is split in two like this, rather than written as
   * one recursive function, so that the verifier unfolds one line per step
   * of the loop and not two; whole lines are costly terms to unfold.
   */
  function PrintedThrough(results: seq<ReadResult>, i: nat): string
    requires i < |results|
    decreases i + 1, 0
  {
    PumpOutput(results, i) + CsvLine(results[i].meta, results[i].bytes)
  }

  /** The reads left after read `k` has been consumed. */
  lemma DropFirst(results: seq<ReadResult>, k: nat)
    requires k < |results|
    ensures results[k..][1..] == results[k + 1..]
  {
  }

  /** `n` calls of rtlsdr_read_logfile. */
  function ReadCalls(n: nat): (cs: seq<Call>)
    ensures |cs| == n && forall i :: 0 <= i < n ==> cs[i] == ReadCall
  {
    if n == 0 then [] else ReadCalls(n - 1) + [ReadCall]
  }

  /** One more read call at the end of a log. */
  lemma ReadCallsStep(log: seq<Call>, n: nat)
    ensures log + ReadCalls(n) + [ReadCall] == log + ReadCalls(n + 1)
  {
    assert ReadCalls(n + 1) == ReadCalls(n) + [ReadCall];
  }

  /** A log that grew by `first`, then `middle`, then `last`. */
  lemma CallLog(log0: seq<Call>, log1: seq<Call>, log2: seq<Call>, log3: seq<Call>,
                first: Call, middle: seq<Call>, last: Call)
    requires log1 == log0 + [first] && log2 == log1 + middle && log3 == log2 + [last]
    ensures log3 == log0 + ([first] + middle + [last])
  {
  }

  /** What one run of the program does: exit status, text appended to stdout and stderr, library calls. */
  datatype Run = Run(status: int32, stdout: string, stderr: string, calls: seq<Call>)

  /** The help text usage() writes to standard error. */
  const UsageText: string :=
    "rtl_logfile, read rtl-sdr logfiles\n"
    + "\n"
    + "Use:\trtl_logfile [filename]\n"
    + "\n"
    + "CSV output columns:\n"
    + "\ttime start, time end, Hz, rate, i, q, i, q, ...\n"
    + "\n"
    + "Generate files by setting RTL_LOGFILE in environment\n"

  function OpenFailedMessage(filename: string): string
  {
    "Failed to open logfile " + filename + ".\n"
  }

  /** The whole behaviour of main() for given arguments and recordings. */
  function ExpectedRun(args: Args, recordings: map<string, Recording>): Run
  {
    if args.OptionSeen() then Run(1, "", GetoptDiagnostic(args.first) + UsageText, [])
    else FileRun(Filename(args.operands), recordings)
  }

  /** What main() does with the file name once getopt found no option. */
  function FileRun(f: string, recordings: map<string, Recording>): Run
  {
    if OpenStatus(recordings, f) < 0 then Run(1, "", OpenFailedMessage(f), [OpenCall(f)])
    else
      var rec := recordings[f];
      var n := Delivered(rec.results);
      Run(BitOr(EndStatus(rec.results), rec.closeStatus),
          PumpOutput(rec.results, n),
          "",
          [OpenCall(f)] + ReadCalls(n + 1) + [CloseCall])
  }

  /**
   * The `while (1)` loop of main(): read into `buf`, stop at the first
   * non-positive status, otherwise print the record with csv(). Returns the
   * status of the read that stopped it.
   */
  method Pump(dev: Device, buf: array<byte>, out: string) returns (r: int32, out': string)
    requires dev.Valid() && dev.open && buf.Length == BufSize
    modifies dev, buf, dev.lib
    ensures dev.open && dev.Valid()
    ensures r == EndStatus(old(dev.pending))
    ensures out' == out + PumpOutput(old(dev.pending), Delivered(old(dev.pending)))
    ensures dev.lib.calls == old(dev.lib.calls) + ReadCalls(Delivered(old(dev.pending)) + 1)
    ensures var n := Delivered(old(dev.pending));
      dev.pending == if n < |old(dev.pending)| then old(dev.pending)[n + 1..] else []
  {
    ghost var results := dev.pending;
    ghost var calls0 := dev.lib.calls;
    ghost var k: nat := 0;
    out' := out;
    var readLen: nat;
    while true
      invariant dev.Valid() && dev.open
      invariant k <= |results| && dev.pending == results[k..]
      invariant forall i :: 0 <= i < k ==> results[i].status > 0
      invariant out' == out + PumpOutput(results, k)
      invariant dev.lib.calls == calls0 + ReadCalls(k)
      decreases |dev.pending|
    {
      r, readLen := dev.Read(buf);
      if r <= 0 {
        break;
      }
      assert results[k].bytes == buf[..readLen];
      DropFirst(results, k);
      PumpOutputStep(results, k + 1);
      Associate(out, PumpOutput(results, k), CsvLine(results[k].meta, results[k].bytes));
      out' := Csv(dev, buf, readLen, out');
      ReadCallsStep(calls0, k);
      k := k + 1;
    }
    assert Delivered(results) == k;
    ReadCallsStep(calls0, k);
  }

  /**
   * main(): usage() on the first option getopt returns, after getopt's own
   * diagnostic for an invalid one; otherwise resolve the file name and run the
   * rest of main() on it.
   */
  method LogfileMain(args: Args, lib: Library, stdout: string, stderr: string)
    returns (status: int32, out: string, err: string)
    requires lib.Valid()
    modifies lib
    ensures var run := ExpectedRun(args, lib.recordings);
      && status == run.status
      && out == stdout + run.stdout
      && err == stderr + run.stderr
      && lib.calls == old(lib.calls) + run.calls
  {
    if args.OptionSeen() {
      out, err := stdout, stderr + (GetoptDiagnostic(args.first) + UsageText);
      status := 1;
      return;
    }
    status, out, err := OpenReadClose(Filename(args.operands), lib, stdout, stderr);
  }

  /**
   * The rest of main(): open the file (fatal on failure), run the read loop,
   * close the handle once, and return the last read status ORed with the
   * close status.
   */
  method OpenReadClose(filename: string, lib: Library, stdout: string, stderr: string)
    returns (status: int32, out: string, err: string)
    requires lib.Valid()
    modifies lib
    ensures var run := FileRun(filename, lib.recordings);
      && status == run.status
      && out == stdout + run.stdout
      && err == stderr + run.stderr
      && lib.calls == old(lib.calls) + run.calls
  {
    out, err := stdout, stderr;
    ghost var log0 := lib.calls;
    var r, dev := lib.OpenLogfile(filename);
    if r < 0 {
      err := err + OpenFailedMessage(filename);
      status := 1;
      return;
    }
    var buf := new byte[BufSize];
    ghost var results := dev.pending;
    ghost var log1 := lib.calls;
    r, out := Pump(dev, buf, out);
    ghost var log2 := lib.calls;
    ghost var readCalls := ReadCalls(Delivered(results) + 1);
    assert log2 == log1 + readCalls;
    var closed := dev.Close();
    r := BitOr(r, closed);
    status := r;
    CallLog(log0, log1, log2, lib.calls, OpenCall(filename), readCalls, CloseCall);
  }

  // ----- What a run promises -----

  /** How many of the first `n` reads deliver at least one sample. */
  function NonEmptyReads(results: seq<ReadResult>, n: nat): (k: nat)
    requires n <= |results|
    ensures k <= n
  {
    if n == 0 then 0 else NonEmptyReads(results, n - 1) + (if |results[n - 1].bytes| >= 1 then 1 else 0)
  }

  /** The `n`-th step of the output: the lines so far, then read `n - 1`'s line. */
  lemma PumpOutputStep(results: seq<ReadResult>, n: nat)
    requires 1 <= n <= |results|
    ensures PumpOutput(results, n) == PumpOutput(results, n - 1) + CsvLine(results[n - 1].meta, results[n - 1].bytes)
  {
    assert PumpOutput(results, n) == PrintedThrough(results, n - 1);
  }

  /**
   * The output of the first `n` reads holds one newline per read that
   * delivered samples: a read of zero bytes prints its header without a
   * newline, so it runs into the next line.
   */
  lemma {:induction false} PumpOutputLines(results: seq<ReadResult>, n: nat)
    requires n <= |results|
    ensures Count(PumpOutput(results, n), '\n') == NonEmptyReads(results, n)
  {
    if n > 0 {
      var r := results[n - 1];
      PumpOutputLines(results, n - 1);
      PumpOutputStep(results, n);
      LineStep(PumpOutput(results, n - 1), r.meta, r.bytes, NonEmptyReads(results, n - 1));
    }
  }

  /** One more line adds its own newline, if it has samples, to the count. */
  lemma LineStep(prev: string, m: Meta, s: seq<byte>, before: nat)
    requires Count(prev, '\n') == before
    ensures Count(prev + CsvLine(m, s), '\n') == before + if |s| >= 1 then 1 else 0
  {
    CsvLineNewlines(m, s);
    CountSplit(prev + CsvLine(m, s), prev, CsvLine(m, s), '\n', before, if |s| >= 1 then 1 else 0);
  }

  lemma {:induction false} AllNonEmpty(results: seq<ReadResult>, n: nat)
    requires n <= |results|
    requires forall i :: 0 <= i < n ==> |results[i].bytes| >= 1
    ensures NonEmptyReads(results, n) == n
  {
    if n > 0 {
      AllNonEmpty(results, n - 1);
    }
  }

  /**
   * When the file opens, standard output gets one line per formatted read
   * exactly when every formatted read delivered samples.
   */
  lemma OutputLines(args: Args, recordings: map<string, Recording>)
    requires !args.OptionSeen() && OpenStatus(recordings, Filename(args.operands)) >= 0
    ensures var rec := recordings[Filename(args.operands)];
      var n := Delivered(rec.results);
      && Count(ExpectedRun(args, recordings).stdout, '\n') == NonEmptyReads(rec.results, n)
      && ((forall i :: 0 <= i < n ==> |rec.results[i].bytes| >= 1) ==>
            Count(ExpectedRun(args, recordings).stdout, '\n') == n)
  {
    var rec := recordings[Filename(args.operands)];
    var n := Delivered(rec.results);
    PumpOutputLines(rec.results, n);
    if forall i :: 0 <= i < n ==> |rec.results[i].bytes| >= 1 {
      AllNonEmpty(rec.results, n);
    }
  }

  /** A positive read of zero bytes leaves its header open; the next record's line completes it. */
  lemma EmptyReadMergesLines(m1: Meta, m2: Meta, status: int32, b: byte)
    requires status > 0
    ensures var results := [ReadResult(status, [], m1), ReadResult(status, [b], m2)];
      && PumpOutput(results, 2) == HeaderText(m1) + CsvLine(m2, [b])
      && Count(PumpOutput(results, 2), '\n') == 1
  {
    var results := [ReadResult(status, [], m1), ReadResult(status, [b], m2)];
    TwoLines(results);
    EmptyCsvLine(m1);
    PumpOutputLines(results, 2);
  }

  /**
   * The library's calls in any run: nothing after usage(); otherwise open
   * first, then, only if it succeeded, the reads up to and including the one
   * that stopped the loop and a single close, last.
   */
  lemma CallSequence(args: Args, recordings: map<string, Recording>)
    ensures var calls := ExpectedRun(args, recordings).calls;
      var f := Filename(args.operands);
      && (args.OptionSeen() ==> calls == [])
      && (!args.OptionSeen() ==> |calls| >= 1 && calls[0] == OpenCall(f))
      && (forall i :: 0 <= i < |calls| && calls[i].OpenCall? ==> i == 0)
      && (forall i :: 0 <= i < |calls| && calls[i].CloseCall? ==> i == |calls| - 1)
      && (CloseCall in calls <==> !args.OptionSeen() && OpenStatus(recordings, f) >= 0)
      && (ReadCall in calls <==> CloseCall in calls)
  {
    var f := Filename(args.operands);
    if !args.OptionSeen() && OpenStatus(recordings, f) >= 0 {
      var n := Delivered(recordings[f].results);
      var rs := ReadCalls(n + 1);
      var calls := [OpenCall(f)] + rs + [CloseCall];
      assert calls[1] == rs[0] == ReadCall;
      forall i | 0 <= i < |calls|
        ensures calls[i].OpenCall? ==> i == 0
        ensures calls[i].CloseCall? ==> i == |calls| - 1
      {
        if 1 <= i < |calls| - 1 {
          assert calls[i] == rs[i - 1];
        }
      }
    }
  }

  /**
   * An option ends the run in usage(): exit status 1, nothing on standard
   * output and no library call. Standard error ends with the help text, and
   * for -h it holds nothing else.
   */
  lemma UsageExit(args: Args, recordings: map<string, Recording>)
    requires args.OptionSeen()
    ensures var run := ExpectedRun(args, recordings);
      && run.status == 1 && run.stdout == "" && run.calls == []
      && |run.stderr| >= |UsageText| && run.stderr[|run.stderr| - |UsageText|..] == UsageText
      && (args.first.Help? ==> run.stderr == UsageText)
  {
    var d := GetoptDiagnostic(args.first);
    assert (d + UsageText)[|d|..] == UsageText;
  }

  /**
   * The exit status: 0 exactly when the recording ran out and the close
   * succeeded; negative exactly when the stopping read or the close failed;
   * positive only as a positive close status after a clean end.
   */
  lemma ExitStatus(args: Args, recordings: map<string, Recording>)
    requires !args.OptionSeen() && OpenStatus(recordings, Filename(args.operands)) >= 0
    ensures var rec := recordings[Filename(args.operands)];
      var status := ExpectedRun(args, recordings).status;
      && (status == 0 <==> EndStatus(rec.results) == 0 && rec.closeStatus == 0)
      && (status < 0 <==> EndStatus(rec.results) < 0 || rec.closeStatus < 0)
      && (status > 0 <==> EndStatus(rec.results) == 0 && rec.closeStatus > 0)
  {
  }

  /** Only the first operand names the file, and no operand means standard input, "-". */
  lemma FirstOperandOnly(operands: seq<string>, recordings: map<string, Recording>)
    ensures |operands| >= 1 ==>
      ExpectedRun(Args(NoOption, operands), recordings) == ExpectedRun(Args(NoOption, operands[..1]), recordings)
    ensures operands == [] ==>
      ExpectedRun(Args(NoOption, operands), recordings) == ExpectedRun(Args(NoOption, ["-"]), recordings)
  {
  }

  /** Two formatted records, then a read that reports the end of the file. */
  lemma TwoRecordsThenEnd(f: string, m1: Meta, s1: seq<byte>, m2: Meta, s2: seq<byte>, m3: Meta, close: int32)
    ensures var rec := Recording(0, [ReadResult(1, s1, m1), ReadResult(1, s2, m2), ReadResult(0, [], m3)], close);
      ExpectedRun(Args(NoOption, [f]), map[f := rec])
        == Run(close, CsvLine(m1, s1) + CsvLine(m2, s2), "", [OpenCall(f), ReadCall, ReadCall, ReadCall, CloseCall])
  {
    var results := [ReadResult(1, s1, m1), ReadResult(1, s2, m2), ReadResult(0, [], m3)];
    var rest := results[1..];
    assert rest[1..] == [ReadResult(0, [], m3)];
    assert Delivered(rest[1..]) == 0;
    assert Delivered(rest) == 1 + Delivered(rest[1..]);
    assert Delivered(results) == 1 + Delivered(rest);
    assert EndStatus(results) == 0;
    TwoLines(results);
    ThreeReadsLog(f);
  }

  lemma TwoLines(results: seq<ReadResult>)
    requires |results| >= 2
    ensures PumpOutput(results, 2)
      == CsvLine(results[0].meta, results[0].bytes) + CsvLine(results[1].meta, results[1].bytes)
  {
    PumpOutputStep(results, 1);
    PumpOutputStep(results, 2);
    assert PumpOutput(results, 0) == "";
    assert PumpOutput(results, 1) == CsvLine(results[0].meta, results[0].bytes);
  }

  lemma ThreeReadsLog(f: string)
    ensures [OpenCall(f)] + ReadCalls(3) + [CloseCall] == [OpenCall(f), ReadCall, ReadCall, ReadCall, CloseCall]
  {
    assert ReadCalls(3) == [ReadCall, ReadCall, ReadCall];
  }
}
