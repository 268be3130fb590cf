# rtl_logfile in Dafny

This is a model of `rtl_logfile`, the rtl-sdr utility that replays a recorded log file and prints one CSV line per record.

It models the two parts of `src/rtl_logfile.c`:

- **`csv()`, the line formatter.** It prints the pre-read timestamp and the post-read timestamp as `sec.nnnnnnnnn`, then the centre frequency, then the sample rate. Each of these four fields is followed by `", "`. It then prints every sample byte recentred as `b - 127`, followed by `", "`, except the last, which is followed by a newline.
- **`main()`, the driver.** It:
  - calls usage() on the first option getopt returns, which prints the help text and exits with 1;
  - takes the first operand as the file name, or `-` when there is none;
  - fails with status 1 if the file does not open;
  - reads and formats records until the first read whose status is not positive;
  - closes the handle once;
  - returns the last read status bitwise-ORed with the close status.

Files:

- `option.dfy` (`Optional`): the `Option` type.
- `decimal.dfy` (`Decimal`): printf's `%lu`/`%u`, `%09lu` and `%i` renderings. Their parsers give the round trips.
- `csv_format.dfy` (`CsvFormat`): the pure specification of one line.
  - `CsvLine` follows the order in which the C code prints.
  - `Fields`/`Join`/`Split` give the same line as a list of fields.
  - `ParseLine` reads a line back.
- `rtlsdr_log.dfy` (`RtlSdrLog`): a stand-in for the rtl-sdr library.
  - A `Library` maps file names to recordings and keeps a ghost log of the calls made to it.
  - A `Device` is an open handle. It holds the reads it has not delivered yet and the metadata of the current record.
- `rtl_logfile.dfy` (`RtlLogfile`): the program.
  - `Csv` is the formatter's loop.
  - `Pump` is main's `while (1)` loop.
  - `OpenReadClose` is the open/loop/close part of main.
  - `LogfileMain` is main.
  - Each method is proved against a function of its inputs: `Csv` against `CsvLine`; `Pump` against `PumpOutput`, `Delivered` and `EndStatus`; `OpenReadClose` against `FileRun`; and `LogfileMain` against `ExpectedRun`.
  - `ExpectedRun` gives the whole run for any arguments and recordings: the exit status, the text written to stdout and stderr, and the library calls.

Standard output and standard error are strings that the methods append to. The exit status is a returned value.

Where a positive read returns zero bytes, the model follows the code at line 114: the loop does not stop there. `csv()` is called with length 0 and prints the four header fields, each followed by `", "`, with no newline. That text runs into the next record's line (`EmptyReadMergesLines`).

## Model

| member | source | states |
|---|---|---|
| RtlLogfile.Csv | src/rtl_logfile.c:62-81 | the loop appends exactly the specified line for the device's current metadata and `buf[0..len)` to what stdout held before |
| CsvFormat.CsvLineFields | src/rtl_logfile.c:69-79 | splitting the line on `", "` (after its newline, or its final `", "` when there are no samples) gives 4 + len fields: pre timestamp, post timestamp, frequency and rate in that order, then each sample's `b - 127` in buffer order |
| CsvFormat.CsvLineTerminator | src/rtl_logfile.c:66-79 | with at least one sample, the line ends in its only newline and the character before it is a digit, so no `", "` precedes it; with none, it has no newline and ends in `", "` |
| CsvFormat.CsvLineNewlines | src/rtl_logfile.c:76-79 | a line contains one newline when it has samples and none otherwise |
| CsvFormat.EmptyCsvLine | src/rtl_logfile.c:69-76 | with len 0 the output is the four header fields, each followed by `", "`, and nothing else |
| CsvFormat.SingleSampleLine | src/rtl_logfile.c:76-79 | one sample: the header, then the sample, then a newline, with no separator after the sample |
| CsvFormat.FieldsPlain | src/rtl_logfile.c:69-79 | no printed field contains a comma or a newline, so the separators are unambiguous |
| CsvFormat.ParseCsvLine | src/rtl_logfile.c:62-81 | a line with normalised timestamps and at least one sample reads back as exactly its metadata and sample bytes |
| CsvFormat.SampleValue | src/rtl_logfile.c:79 | the recentred sample `b - 127` lies in [-127, 128] |
| CsvFormat.SampleValueExamples | src/rtl_logfile.c:79 | byte 0 prints -127, 127 prints 0 and 255 prints 128; distinct bytes give distinct values |
| CsvFormat.TimespecTextShape | src/rtl_logfile.c:69-70 | a timestamp prints as `sec.nsec` with no comma or newline; with nsec below one second it reads back as the same timestamp |
| CsvFormat.PaddedTimestampExample | src/rtl_logfile.c:69-70 | 5 s and 42 ns print as `5.000000042` |
| Decimal.PaddedLength | src/rtl_logfile.c:69-70 | `%09lu` prints exactly nine digits iff the value is below 10^9, and more digits otherwise |
| Decimal.NinePaddedExample | src/rtl_logfile.c:69-70 | `%09lu` of 42 is `000000042` |
| Decimal.ParseNatPadded | src/rtl_logfile.c:69-74 | zero-padded (or plain) unsigned text reads back as the value printed |
| Decimal.IntText | src/rtl_logfile.c:79 | `%i` prints digits with at most a leading minus sign and ends in a digit |
| Decimal.NoLeadingZero | src/rtl_logfile.c:69-74 | a positive value printed with `%lu`/`%u`, or one with at least as many digits as the `%09lu` width (n >= 10^8), starts with a non-zero digit |
| Decimal.IntTextCanonical | src/rtl_logfile.c:72-79 | `%u` and `%i` print the canonical decimal: 0 is `0`, otherwise the first digit after an optional minus sign is not 0, and the minus sign appears exactly for negative values |
| Decimal.ParseIntText | src/rtl_logfile.c:79 | `%i` text reads back as the value printed |
| RtlSdrLog.Library.OpenLogfile | src/rtl_logfile.c:106 | opening logs one open call and returns the recording's open status; a handle on success (holding the recording's reads), none on failure |
| RtlSdrLog.Device.Read | src/rtl_logfile.c:113 | a read logs one read call, copies the next record's bytes into the buffer (never more than it holds), makes its metadata current and returns its status; after the last record it reports end of file (0, no bytes) |
| RtlSdrLog.Device.Close | src/rtl_logfile.c:119 | closing logs one close call, returns the recording's close status and leaves the handle closed |
| RtlLogfile.LogfileMain | src/rtl_logfile.c:83-122 | status, stdout, stderr and the library's call log after main() are exactly those of `ExpectedRun`: on an option, getopt's diagnostic (for an invalid option), then the help text, and status 1; otherwise the run on the resolved file name |
| RtlLogfile.UsageExit | src/rtl_logfile.c:48-60 | after an option: status 1, nothing on stdout, no library call, stderr ending with the help text, and holding only the help text for `-h` |
| RtlLogfile.OpenReadClose | src/rtl_logfile.c:106-121 | on open failure: the message on stderr, status 1, no read and no close; otherwise the formatted reads, then one close, with status = stopping read's status ORed with the close status |
| RtlLogfile.Pump | src/rtl_logfile.c:112-117 | the loop prints the lines of the reads before the first non-positive status, in order, makes exactly one read more than it formats, returns that stopping status, and leaves the handle holding only the reads after the stopping one |
| RtlLogfile.Delivered | src/rtl_logfile.c:112-117 | the number of formatted reads is the index of the first read with status <= 0 (or all of them): every read before it is positive |
| RtlLogfile.EndStatus | src/rtl_logfile.c:113-115 | the status the loop stops on is never positive |
| RtlLogfile.BitOr | src/rtl_logfile.c:119 | C's bitwise OR of two ints: zero iff both are zero, the other operand when one is zero, negative iff either is |
| RtlLogfile.OrSignBit | src/rtl_logfile.c:119 | OR of two 32-bit patterns stays within 32 bits and has its sign bit set iff either operand has |
| RtlLogfile.ExitStatus | src/rtl_logfile.c:112-121 | after a successful open the exit status is 0 iff the recording ran out and the close succeeded, negative iff the stopping read or the close failed, positive iff the recording ran out and the close returned a positive status |
| RtlLogfile.CallSequence | src/rtl_logfile.c:91-121 | no library call after usage(); otherwise open is the first call and the only one; a close happens iff the open succeeded, exactly once and last; reads happen iff a close does |
| RtlLogfile.FirstOperandOnly | src/rtl_logfile.c:100-104 | only the first operand matters, and no operand behaves as the file name `-` |
| RtlLogfile.PumpOutputLines | src/rtl_logfile.c:112-117 | the loop's output holds one newline per formatted read that delivered samples |
| RtlLogfile.OutputLines | src/rtl_logfile.c:106-121 | after a successful open, stdout has one line per formatted read when every formatted read delivered samples |
| RtlLogfile.EmptyReadMergesLines | src/rtl_logfile.c:76-117 | a positive read of zero bytes prints only its header, which runs into the next record's line, giving one newline for two reads |
| RtlLogfile.TwoRecordsThenEnd | src/rtl_logfile.c:106-121 | two positive reads and then end of file give the two lines in order, four calls after the open (three reads, one close) and the close status as exit status |

## Left out

- The rtl-sdr library itself: the on-disk log format, rtlsdr_open_logfile, rtlsdr_read_logfile, rtlsdr_close and the getters rtlsdr_get_timestamp, rtlsdr_get_center_freq and rtlsdr_get_sample_rate (src/rtl_logfile.c:68, 72, 74). The getters are `Device.Timestamps`, `Device.CenterFreq` and `Device.SampleRate`; they return the fields of the metadata that the latest `Device.Read` made current, and carry no contract of their own. A recording is given directly as its open status, the script of read results (status, bytes, metadata) and its close status. A file name the library does not know fails to open with -1.
- Reads after a recording's script is exhausted: the model returns end of file (status 0, no bytes). What the real library does there belongs to the library.
- Real stdio and process termination. printf/fprintf append to strings, and exit() and `return r` become the returned status. Buffering, write errors and the truncation of the exit status to 8 bits by the operating system are not modelled.
- getopt: the command line is reduced to the first option getopt returns and the operands left after it. Option permutation and `--` are getopt's business.
- RtlLogfile.LogfileMain: for an invalid option, the diagnostic getopt writes before the help text is an input of the model (`Invalid`'s text), not its exact wording, which belongs to the C library.
- The Windows compatibility block (src/rtl_logfile.c:32-44): nothing in the program uses it.
- The 1 MiB stack buffer is a `byte` array of that size. The library never delivers more bytes than it holds.
- CsvFormat.Timespec: the seconds and nanoseconds are unbounded `nat`s. A negative `tv_sec` printed through `%lu`, and the wrap-around of values beyond 64 bits, are not modelled.
- CsvFormat.Meta: the centre frequency and the sample rate are unbounded `nat`s, not `uint32_t`, so `%u` never wraps in the model.
- CsvFormat.ParseCsvLine: the round trip is stated for lines with at least one sample. A line without samples has no newline and is not a complete line.
