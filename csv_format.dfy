/**
 * The text of one CSV line as `csv()` in src/rtl_logfile.c prints it:
 *
 *   pre.sec.pre.nsec9, post.sec.post.nsec9, freq, rate, s0, s1, ..., sN-1\n
 *
 * `CsvLine` is written the way the C code emits it (four header fields, then
 * one sample at a time with the separator chosen by the sample's index).
 * `Fields` and `Join` give the same line as a list of fields, `Split` and
 * `ParseLine` read a line back, and the lemmas connect the two views.
 */
module CsvFormat {
  import opened Optional
  import opened Decimal

  /** A raw unsigned 8-bit sample, as `uint8_t`. */
  newtype byte = x: int | 0 <= x < 0x100

  /** A `struct timespec` whose fields are printed with `%lu`. */
  datatype Timespec = Timespec(sec: nat, nsec: nat)

  /** What the device handle reports about the record most recently read. */
  datatype Meta = Meta(preTs: Timespec, postTs: Timespec, centerFreq: nat, sampleRate: nat)

  /** A decoded line: the metadata and the raw sample bytes. */
  datatype Record = Record(meta: Meta, samples: seq<byte>)

  const Sep: string := ", "
  const NanosPerSecond: nat := 1_000_000_000

  /** A normalised timestamp: the nanoseconds are below one second. */
  predicate ValidTimespec(t: Timespec) { t.nsec < NanosPerSecond }

  /** The sample recentred around the 127 DC offset, as `buf[i] - 127`. */
  function SampleValue(b: byte): (v: int)
    ensures -127 <= v <= 128
  {
    b as int - 127
  }

  /** `%lu.%09lu` */
  function TimespecText(t: Timespec): string
  {
    NatText(t.sec) + "." + Padded(t.nsec, 9)
  }

  /** `%i` of the recentred sample. */
  function SampleText(b: byte): string
  {
    IntText(SampleValue(b))
  }

  /** The printed value of every sample, in buffer order. */
  function SampleTexts(s: seq<byte>): (ts: seq<string>)
    ensures |ts| == |s|
  {
    seq(|s|, i requires 0 <= i < |s| => SampleText(s[i]))
  }

  /** The four header fields, each followed by the separator (lines 69-74). */
  function HeaderText(m: Meta): string
  {
    TimespecText(m.preTs) + Sep + TimespecText(m.postTs) + Sep
      + NatText(m.centerFreq) + Sep + NatText(m.sampleRate) + Sep
  }

  /** Sample text `i` and the separator the loop prints after it: a newline after the last. */
  function SampleField(ts: seq<string>, i: nat): string
    requires i < |ts|
  {
    ts[i] + (if i == |ts| - 1 then "\n" else Sep)
  }

  /** What the sample loop has printed after its first `n` iterations, given the sample texts. */
  function Emitted(ts: seq<string>, n: nat): string
    requires n <= |ts|
  {
    if n == 0 then "" else Emitted(ts, n - 1) + SampleField(ts, n - 1)
  }

  /** Everything one call of csv() prints for metadata `m` and samples `s`. */
  function CsvLine(m: Meta, s: seq<byte>): string
  {
    HeaderText(m) + Emitted(SampleTexts(s), |s|)
  }

  /** The line as a list of fields: four header fields, then one per sample. */
  function Fields(m: Meta, s: seq<byte>): seq<string>
  {
    [TimespecText(m.preTs), TimespecText(m.postTs), NatText(m.centerFreq), NatText(m.sampleRate)]
      + SampleTexts(s)
  }

  /** Fields joined by the separator, none after the last. */
  function Join(fs: seq<string>): string
  {
    if |fs| == 0 then ""
    else if |fs| == 1 then fs[0]
    else Join(fs[..|fs| - 1]) + Sep + fs[|fs| - 1]
  }

  /** Splits a text at every occurrence of the separator. */
  function Split(s: string): (fs: seq<string>)
    ensures |fs| >= 1
  {
    if EndsWithSep(s) then Split(s[..|s| - 2]) + [""]
    else if s == [] then [""]
    else
      var fs := Split(s[..|s| - 1]);
      fs[..|fs| - 1] + [fs[|fs| - 1] + [s[|s| - 1]]]
  }

  predicate EndsWithSep(s: string)
  {
    |s| >= 2 && s[|s| - 2] == ',' && s[|s| - 1] == ' '
  }

  /** A field holds neither a comma nor a newline. */
  predicate Plain(f: string)
  {
    forall i :: 0 <= i < |f| ==> f[i] != ',' && f[i] != '\n'
  }

  /** `sec "." nsec`, the nanoseconds being exactly the last nine characters. */
  function ParseTimespec(f: string): Option<Timespec>
  {
    if |f| >= 11 && f[|f| - 10] == '.' then
      match (ParseNat(f[..|f| - 10]), ParseNat(f[|f| - 9..]))
      case (Some(sec), Some(nsec)) => Some(Timespec(sec, nsec))
      case _ => None
    else None
  }

  /** A signed sample in [-127, 128], mapped back to its byte. */
  function ParseSample(f: string): Option<byte>
  {
    match ParseInt(f)
    case Some(v) => if -127 <= v <= 128 then Some((v + 127) as byte) else None
    case None => None
  }

  function ParseSamples(fs: seq<string>): Option<seq<byte>>
  {
    if fs == [] then Some([])
    else
      match (ParseSamples(fs[..|fs| - 1]), ParseSample(fs[|fs| - 1]))
      case (Some(init), Some(b)) => Some(init + [b])
      case _ => None
  }

  /** Reads one newline-terminated line with at least one sample. */
  function ParseLine(line: string): Option<Record>
  {
    if |line| == 0 || line[|line| - 1] != '\n' then None
    else
      var fs := Split(line[..|line| - 1]);
      if |fs| < 5 then None
      else
        match (ParseTimespec(fs[0]), ParseTimespec(fs[1]), ParseNat(fs[2]), ParseNat(fs[3]), ParseSamples(fs[4..]))
        case (Some(pre), Some(post), Some(freq), Some(rate), Some(samples)) =>
          Some(Record(Meta(pre, post, freq, rate), samples))
        case _ => None
  }

  /** Number of occurrences of `c` in `s`. */
  function Count(s: string, c: char): nat
  {
    if s == [] then 0 else (if s[0] == c then 1 else 0) + Count(s[1..], c)
  }

  // ----- Sample values -----

  /** Byte 0 prints as -127, 127 as 0 and 255 as 128; distinct bytes print distinct values. */
  lemma SampleValueExamples(a: byte, b: byte)
    ensures SampleValue(0) == -127 && SampleValue(127) == 0 && SampleValue(255) == 128
    ensures SampleValue(a) == SampleValue(b) <==> a == b
  {
  }

  // ----- Fields are plain -----

  lemma TimespecTextShape(t: Timespec)
    ensures Plain(TimespecText(t))
    ensures ValidTimespec(t) ==> ParseTimespec(TimespecText(t)) == Some(t)
  {
    var a, b := NatText(t.sec), Padded(t.nsec, 9);
    var f := a + "." + b;
    forall i | 0 <= i < |f| ensures f[i] != ',' && f[i] != '\n' {
      if i < |a| { assert f[i] == a[i]; }
      else if i > |a| { assert f[i] == b[i - |a| - 1]; }
    }
    if ValidTimespec(t) {
      assert Pow10(9) == NanosPerSecond;
      PaddedLength(t.nsec, 9);
      assert f[..|f| - 10] == a;
      assert f[|f| - 9..] == b;
      ParseNatPadded(t.sec, 1);
      ParseNatPadded(t.nsec, 9);
    }
  }

  lemma NatTextPlain(n: nat)
    ensures Plain(NatText(n))
  {
  }

  lemma IntTextPlain(v: int)
    ensures Plain(IntText(v))
  {
  }

  /** Every field of a line is free of commas and newlines. */
  lemma FieldsPlain(m: Meta, s: seq<byte>)
    ensures forall i :: 0 <= i < |Fields(m, s)| ==> Plain(Fields(m, s)[i])
  {
    var fs := Fields(m, s);
    TimespecTextShape(m.preTs);
    TimespecTextShape(m.postTs);
    NatTextPlain(m.centerFreq);
    NatTextPlain(m.sampleRate);
    forall i | 4 <= i < |fs| ensures Plain(fs[i]) {
      IntTextPlain(SampleValue(s[i - 4]));
    }
  }

  // ----- Split inverts Join -----

  lemma {:induction false} SplitPlain(f: string)
    requires Plain(f)
    ensures Split(f) == [f]
    decreases |f|
  {
    if f != [] {
      var init := f[..|f| - 1];
      PlainPrefix(f, |f| - 1);
      SplitPlain(init);
      assert !EndsWithSep(f) by {
        if |f| >= 2 { assert f[|f| - 2] != ','; }
      }
      SnocLast(f);
      var fs := Split(init);
      assert fs[..|fs| - 1] == [] && fs[|fs| - 1] == init;
      assert Split(f) == [] + [init + [f[|f| - 1]]];
    }
  }

  lemma PlainPrefix(f: string, n: nat)
    requires Plain(f) && n <= |f|
    ensures Plain(f[..n])
  {
  }

  lemma SnocLast(s: string)
    requires s != []
    ensures s[..|s| - 1] + [s[|s| - 1]] == s
  {
  }

  lemma {:induction false} SplitAppend(x: string, f: string)
    requires Plain(f)
    ensures Split(x + Sep + f) == Split(x) + [f]
    decreases |f|
  {
    if f == [] {
      assert x + Sep + f == x + Sep;
      SplitSep(x);
    } else {
      var init, c := f[..|f| - 1], f[|f| - 1];
      var t := x + Sep + init;
      SnocLast(f);
      Associate(x + Sep, init, [c]);
      PlainPrefix(f, |f| - 1);
      SplitAppend(x, init);
      assert t[|t| - 1] != ',' by {
        if init == [] {
          assert t[|t| - 1] == ' ';
        } else {
          assert t[|t| - 1] == init[|init| - 1];
        }
      }
      SplitSnoc(t, c, Split(x), init);
    }
  }

  /** A trailing ", " starts a new, empty field. */
  lemma SplitSep(x: string)
    ensures Split(x + Sep) == Split(x) + [""]
  {
    var s := x + Sep;
    assert s[..|s| - 2] == x;
  }

  /** A character after anything but a comma extends the last field. */
  lemma SplitSnoc(t: string, c: char, init: seq<string>, last: string)
    requires Split(t) == init + [last]
    requires |t| == 0 || t[|t| - 1] != ','
    ensures Split(t + [c]) == init + [last + [c]]
  {
    var s := t + [c];
    assert s[..|s| - 1] == t;
    var fs := init + [last];
    assert fs[..|fs| - 1] == init;
  }

  /** Splitting the joined fields at the separator gives back exactly the fields. */
  lemma {:induction false} SplitJoin(fs: seq<string>)
    requires |fs| >= 1
    requires forall i :: 0 <= i < |fs| ==> Plain(fs[i])
    ensures Split(Join(fs)) == fs
  {
    if |fs| == 1 {
      SplitPlain(fs[0]);
    } else {
      var init := fs[..|fs| - 1];
      SplitJoin(init);
      assert Join(fs) == Join(init) + Sep + fs[|fs| - 1];
      SplitLast(Join(init), fs[|fs| - 1], init, fs);
    }
  }

  /** One more plain field after a separator becomes one more field. */
  lemma SplitLast(j: string, last: string, init: seq<string>, fs: seq<string>)
    requires Plain(last) && Split(j) == init && fs == init + [last]
    ensures Split(j + Sep + last) == fs
  {
    SplitAppend(j, last);
  }

  // ----- The emitted line is the joined fields -----

  lemma HeaderJoin(m: Meta, s: seq<byte>)
    ensures HeaderText(m) == Join(Fields(m, s)[..4]) + Sep
  {
    var fs := Fields(m, s);
    assert fs[..4][..3] == fs[..3];
    assert fs[..3][..2] == fs[..2];
    assert fs[..2][..1] == fs[..1];
    assert Join(fs[..1]) == fs[0];
    assert Join(fs[..2]) == fs[0] + Sep + fs[1];
    assert Join(fs[..3]) == Join(fs[..2]) + Sep + fs[2];
    assert Join(fs[..4]) == Join(fs[..3]) + Sep + fs[3];
  }

  /**
   * After the header `h` (the first four fields joined, plus ", "), printing
   * samples 0 to n - 1, none of them the last, gives the first 4 + n fields
   * joined, plus ", ".
   */
  lemma {:induction false} EmittedJoin(h: string, fs: seq<string>, ts: seq<string>, n: nat)
    requires n < |ts| && |fs| == 4 + |ts|
    requires h == Join(fs[..4]) + Sep
    requires forall i :: 0 <= i < |ts| ==> fs[4 + i] == ts[i]
    ensures h + Emitted(ts, n) == Join(fs[..4 + n]) + Sep
  {
    if n == 0 {
      assert h + Emitted(ts, 0) == h;
    } else {
      var k := n - 1;
      EmittedJoin(h, fs, ts, k);
      JoinStep(fs, 4 + k, 4 + n);
      EmittedStep(ts, k, n);
      assert fs[4 + k] == ts[k];
      Regroup(h, Emitted(ts, k), ts[k], Join(fs[..4 + k]), Sep);
    }
  }

  /** Appending a field and its terminator to both sides of `h + e == j + Sep`. */
  lemma Regroup(h: string, e: string, t: string, j: string, end: string)
    requires h + e == j + Sep
    ensures h + (e + (t + end)) == j + Sep + t + end
  {
    Associate(h, e, t + end);
    Associate(h + e, t, end);
  }

  /** Printing sample `k` (not the last) appends its value and ", ". */
  lemma EmittedStep(ts: seq<string>, k: nat, n: nat)
    requires n == k + 1 && n < |ts|
    ensures Emitted(ts, n) == Emitted(ts, k) + (ts[k] + Sep)
  {
  }

  /** Field `4 + i` of a line is sample text `i`. */
  lemma FieldsTexts(m: Meta, s: seq<byte>)
    ensures |Fields(m, s)| == 4 + |s|
    ensures forall i :: 0 <= i < |s| ==> Fields(m, s)[4 + i] == SampleTexts(s)[i]
  {
  }

  /** Joining one more field appends the separator and that field. */
  lemma JoinStep(fs: seq<string>, n: nat, n': nat)
    requires 1 <= n < |fs| && n' == n + 1
    ensures Join(fs[..n']) == Join(fs[..n]) + Sep + fs[n]
  {
    var prefix := fs[..n'];
    assert prefix[..n] == fs[..n];
  }

  lemma Associate(a: string, b: string, c: string)
    ensures a + (b + c) == (a + b) + c
  {
  }

  /** Printing the four header fields one after another appends the header. */
  lemma AppendHeader(out: string, m: Meta)
    ensures out + TimespecText(m.preTs) + Sep + TimespecText(m.postTs) + Sep
              + NatText(m.centerFreq) + Sep + NatText(m.sampleRate) + Sep
            == out + HeaderText(m)
  {
    var h1 := TimespecText(m.preTs);
    var h2 := h1 + Sep;
    var h3 := h2 + TimespecText(m.postTs);
    var h4 := h3 + Sep;
    var h5 := h4 + NatText(m.centerFreq);
    var h6 := h5 + Sep;
    var h7 := h6 + NatText(m.sampleRate);
    Associate(out, h1, Sep);
    Associate(out, h2, TimespecText(m.postTs));
    Associate(out, h3, Sep);
    Associate(out, h4, NatText(m.centerFreq));
    Associate(out, h5, Sep);
    Associate(out, h6, NatText(m.sampleRate));
    Associate(out, h7, Sep);
  }

  /**
   * With at least one sample the line is the fields joined by ", " and ended
   * by a newline; with none it is the four header fields, each followed by
   * ", ", and no newline.
   */
  lemma CsvLineShape(m: Meta, s: seq<byte>)
    ensures |s| >= 1 ==> CsvLine(m, s) == Join(Fields(m, s)) + "\n"
    ensures |s| == 0 ==> CsvLine(m, s) == HeaderText(m) == Join(Fields(m, s)) + Sep
  {
    HeaderJoin(m, s);
    FieldsTexts(m, s);
    LineJoin(HeaderText(m), Fields(m, s), SampleTexts(s));
  }

  /** The whole line, header `h` included, is the fields joined and then ended. */
  lemma LineJoin(h: string, fs: seq<string>, ts: seq<string>)
    requires |fs| == 4 + |ts|
    requires h == Join(fs[..4]) + Sep
    requires forall i :: 0 <= i < |ts| ==> fs[4 + i] == ts[i]
    ensures |ts| >= 1 ==> h + Emitted(ts, |ts|) == Join(fs) + "\n"
    ensures |ts| == 0 ==> h + Emitted(ts, |ts|) == h == Join(fs) + Sep
  {
    if |ts| == 0 {
      assert fs[..4] == fs;
      assert h + Emitted(ts, 0) == h;
    } else {
      var k, n := |ts| - 1, |ts|;
      EmittedJoin(h, fs, ts, k);
      JoinStep(fs, 4 + k, 4 + n);
      assert fs[..4 + n] == fs;
      assert fs[4 + k] == ts[k];
      assert Emitted(ts, n) == Emitted(ts, k) + (ts[k] + "\n");
      Regroup(h, Emitted(ts, k), ts[k], Join(fs[..4 + k]), "\n");
    }
  }

  lemma {:induction false} JoinPlain(fs: seq<string>)
    requires forall i :: 0 <= i < |fs| ==> Plain(fs[i])
    ensures forall i :: 0 <= i < |Join(fs)| ==> Join(fs)[i] != '\n'
    ensures |fs| >= 1 ==>
              |Join(fs)| >= |fs[|fs| - 1]| && Join(fs)[|Join(fs)| - |fs[|fs| - 1]|..] == fs[|fs| - 1]
  {
    if |fs| >= 2 {
      var init := fs[..|fs| - 1];
      JoinPlain(init);
      var a, b := Join(init), fs[|fs| - 1];
      var j := a + Sep + b;
      forall i | 0 <= i < |j| ensures j[i] != '\n' {
        if i < |a| { assert j[i] == a[i]; }
        else if i >= |a| + 2 { assert j[i] == b[i - |a| - 2]; }
      }
      assert j[|j| - |b|..] == b;
    }
  }

  /**
   * Splitting a line on ", " (after dropping the trailing newline, or the
   * trailing ", " of a line without samples) gives 4 + |s| fields: the two
   * timestamps, the frequency, the rate, then one field per sample in buffer
   * order, each the recentred value.
   */
  lemma CsvLineFields(m: Meta, s: seq<byte>)
    ensures var line := CsvLine(m, s);
      var body := if |s| >= 1 then line[..|line| - 1] else line[..|line| - 2];
      |line| >= 2 && Split(body) == Fields(m, s)
    ensures |Fields(m, s)| == 4 + |s|
    ensures Fields(m, s)[..4] == [TimespecText(m.preTs), TimespecText(m.postTs), NatText(m.centerFreq), NatText(m.sampleRate)]
    ensures forall i :: 0 <= i < |s| ==> Fields(m, s)[4 + i] == IntText(SampleValue(s[i]))
  {
    var fs := Fields(m, s);
    CsvLineShape(m, s);
    FieldsPlain(m, s);
    SplitJoin(fs);
    var line := CsvLine(m, s);
    if |s| >= 1 {
      assert line[..|line| - 1] == Join(fs);
    } else {
      assert line[..|line| - 2] == Join(fs);
    }
  }

  /**
   * A line with samples has exactly one newline, its last character, and the
   * character before it is a digit of the last sample (never a separator). A
   * line without samples has no newline and ends with ", ".
   */
  lemma CsvLineTerminator(m: Meta, s: seq<byte>)
    ensures var line := CsvLine(m, s);
      |s| >= 1 ==>
        && |line| >= 2
        && line[|line| - 1] == '\n'
        && IsDigit(line[|line| - 2])
        && (forall i :: 0 <= i < |line| - 1 ==> line[i] != '\n')
        && Count(line, '\n') == 1
    ensures var line := CsvLine(m, s);
      |s| == 0 ==>
        && |line| >= 2
        && line[|line| - 2..] == Sep
        && (forall i :: 0 <= i < |line| ==> line[i] != '\n')
        && Count(line, '\n') == 0
  {
    CsvLineShape(m, s);
    FieldsPlain(m, s);
    FieldsTexts(m, s);
    LineEnding(Fields(m, s), CsvLine(m, s), |s| >= 1);
  }

  /** The ending of fields joined by ", ", then ended by a newline (`samples`) or by ", ". */
  lemma LineEnding(fs: seq<string>, line: string, samples: bool)
    requires |fs| >= 1 && forall i :: 0 <= i < |fs| ==> Plain(fs[i])
    requires samples ==> line == Join(fs) + "\n" && |fs[|fs| - 1]| >= 1 && IsDigit(fs[|fs| - 1][|fs[|fs| - 1]| - 1])
    requires !samples ==> line == Join(fs) + Sep
    ensures samples ==>
        && |line| >= 2
        && line[|line| - 1] == '\n'
        && IsDigit(line[|line| - 2])
        && (forall i :: 0 <= i < |line| - 1 ==> line[i] != '\n')
        && Count(line, '\n') == 1
    ensures !samples ==>
        && |line| >= 2
        && line[|line| - 2..] == Sep
        && (forall i :: 0 <= i < |line| ==> line[i] != '\n')
        && Count(line, '\n') == 0
  {
    JoinPlain(fs);
    if samples {
      NewlineEnded(Join(fs), fs[|fs| - 1], line);
    } else {
      SepEnded(Join(fs), line);
    }
  }

  /** A newline-free text that ends with a digit, followed by one newline. */
  lemma NewlineEnded(j: string, last: string, line: string)
    requires line == j + "\n"
    requires forall i :: 0 <= i < |j| ==> j[i] != '\n'
    requires |last| >= 1 && IsDigit(last[|last| - 1])
    requires |j| >= |last| && j[|j| - |last|..] == last
    ensures |line| >= 2 && line[|line| - 1] == '\n' && IsDigit(line[|line| - 2])
    ensures forall i :: 0 <= i < |line| - 1 ==> line[i] != '\n'
    ensures Count(line, '\n') == 1
  {
    assert line[|line| - 2] == j[|j| - 1] == last[|last| - 1];
    CountAbsent(j, '\n');
    CountSplit(line, j, "\n", '\n', 0, 1);
  }

  /** A newline-free text followed by ", " has no newline and ends with ", ". */
  lemma SepEnded(j: string, line: string)
    requires line == j + Sep
    requires forall i :: 0 <= i < |j| ==> j[i] != '\n'
    ensures |line| >= 2 && line[|line| - 2..] == Sep
    ensures forall i :: 0 <= i < |line| ==> line[i] != '\n'
    ensures Count(line, '\n') == 0
  {
    forall i | 0 <= i < |line| ensures line[i] != '\n' {
      if i < |j| { assert line[i] == j[i]; }
    }
    CountAbsent(line, '\n');
  }

  /** A line holds one newline when it has samples and none otherwise. */
  lemma CsvLineNewlines(m: Meta, s: seq<byte>)
    ensures Count(CsvLine(m, s), '\n') == if |s| >= 1 then 1 else 0
  {
    CsvLineTerminator(m, s);
  }

  /** A record without samples prints as its header alone. */
  lemma EmptyCsvLine(m: Meta)
    ensures CsvLine(m, []) == HeaderText(m)
  {
    CsvLineShape(m, []);
  }

  lemma {:induction false} CountAbsent(s: string, c: char)
    requires forall i :: 0 <= i < |s| ==> s[i] != c
    ensures Count(s, c) == 0
  {
    if s != [] {
      CountAbsent(s[1..], c);
    }
  }

  /** The count in a text made of two parts, from the counts in the parts. */
  lemma CountSplit(whole: string, a: string, b: string, c: char, na: nat, nb: nat)
    requires whole == a + b && Count(a, c) == na && Count(b, c) == nb
    ensures Count(whole, c) == na + nb
  {
    CountAppend(a, b, c);
  }

  /** Counting is additive over concatenation. */
  lemma {:induction false} CountAppend(a: string, b: string, c: char)
    ensures Count(a + b, c) == Count(a, c) + Count(b, c)
  {
    if a != [] {
      assert (a + b)[1..] == a[1..] + b;
      CountAppend(a[1..], b, c);
    } else {
      assert a + b == b;
    }
  }

  /** Nine-digit padding of the nanoseconds, as in `5.000000042`. */
  lemma PaddedTimestampExample()
    ensures TimespecText(Timespec(5, 42)) == "5.000000042"
  {
    NinePaddedExample();
    assert NatText(5) == "5";
  }

  /** A single sample: `<rate>, <sample>\n`, one separator before the sample, none after. */
  lemma SingleSampleLine(m: Meta, b: byte)
    ensures CsvLine(m, [b]) == HeaderText(m) + SampleText(b) + "\n"
  {
    assert Emitted(SampleTexts([b]), 0) == "";
  }

  // ----- Decoding inverts encoding -----

  lemma {:induction false} ParseSamplesText(s: seq<byte>)
    ensures ParseSamples(SampleTexts(s)) == Some(s)
  {
    if s != [] {
      var k := |s| - 1;
      var init := s[..k];
      ParseSamplesText(init);
      SampleTextsPrefix(s, k);
      ParseSampleText(s[k]);
      ParseSamplesStep(SampleTexts(s), init, s[k]);
      SnocBytes(s, k);
    }
  }

  lemma SampleTextsPrefix(s: seq<byte>, k: nat)
    requires k == |s| - 1
    ensures SampleTexts(s)[..k] == SampleTexts(s[..k])
    ensures SampleTexts(s)[k] == SampleText(s[k])
  {
  }

  /** A printed sample reads back as its byte. */
  lemma ParseSampleText(b: byte)
    ensures ParseSample(SampleText(b)) == Some(b)
  {
    ParseIntText(SampleValue(b));
  }

  lemma ParseSamplesStep(fs: seq<string>, init: seq<byte>, b: byte)
    requires fs != []
    requires ParseSamples(fs[..|fs| - 1]) == Some(init) && ParseSample(fs[|fs| - 1]) == Some(b)
    ensures ParseSamples(fs) == Some(init + [b])
  {
  }

  lemma SnocBytes(s: seq<byte>, k: nat)
    requires k == |s| - 1
    ensures s[..k] + [s[k]] == s
  {
  }

  /**
   * Round trip: a line printed for a record with normalised timestamps and at
   * least one sample reads back as exactly that record.
   */
  lemma ParseCsvLine(m: Meta, s: seq<byte>)
    requires ValidTimespec(m.preTs) && ValidTimespec(m.postTs)
    requires |s| >= 1
    ensures ParseLine(CsvLine(m, s)) == Some(Record(m, s))
  {
    var fs := Fields(m, s);
    CsvLineShape(m, s);
    FieldsPlain(m, s);
    FieldsParts(m, s);
    SplitJoin(fs);
    TimespecTextShape(m.preTs);
    TimespecTextShape(m.postTs);
    ParseNatPadded(m.centerFreq, 1);
    ParseNatPadded(m.sampleRate, 1);
    ParseSamplesText(s);
    ParseJoined(Join(fs), fs, Record(m, s));
  }

  /** A newline-terminated text whose fields parse to the parts of `r` parses to `r`. */
  lemma ParseJoined(j: string, fs: seq<string>, r: Record)
    requires Split(j) == fs && |fs| >= 5
    requires ParseTimespec(fs[0]) == Some(r.meta.preTs) && ParseTimespec(fs[1]) == Some(r.meta.postTs)
    requires ParseNat(fs[2]) == Some(r.meta.centerFreq) && ParseNat(fs[3]) == Some(r.meta.sampleRate)
    requires ParseSamples(fs[4..]) == Some(r.samples)
    ensures ParseLine(j + "\n") == Some(r)
  {
    var line := j + "\n";
    assert line[..|line| - 1] == j;
  }

  /** The fields of a line, one by one. */
  lemma FieldsParts(m: Meta, s: seq<byte>)
    ensures |Fields(m, s)| == 4 + |s|
    ensures Fields(m, s)[0] == TimespecText(m.preTs) && Fields(m, s)[1] == TimespecText(m.postTs)
    ensures Fields(m, s)[2] == NatText(m.centerFreq) && Fields(m, s)[3] == NatText(m.sampleRate)
    ensures Fields(m, s)[4..] == SampleTexts(s)
  {
  }
}
