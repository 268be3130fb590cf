/**
 * A stand-in for the part of the rtl-sdr library that rtl_logfile calls:
 * rtlsdr_open_logfile, rtlsdr_read_logfile, the metadata getters and
 * rtlsdr_close. The on-disk log format is not part of this model; a
 * recording is given directly as the script of results its successive reads
 * return. The library keeps a ghost log of the calls made to it, so that the
 * driver's use of the handle (open once, read, close once) can be stated.
 */
module RtlSdrLog {
  import opened CsvFormat

  /** C `int`. */
  newtype int32 = x: int | -0x8000_0000 <= x < 0x8000_0000

  /** Capacity of the program's sample buffer, `uint8_t buf[0x100000]`. */
  const BufSize: nat := 0x100000

  /** One call of rtlsdr_read_logfile: its status, the bytes it delivers and the record's metadata. */
  datatype ReadResult = ReadResult(status: int32, bytes: seq<byte>, meta: Meta)

  /** How the library behaves for one file name. */
  datatype Recording = Recording(openStatus: int32, results: seq<ReadResult>, closeStatus: int32)

  datatype Call = OpenCall(filename: string) | ReadCall | CloseCall

  /** The library never delivers more bytes than the buffer holds. */
  predicate Fits(results: seq<ReadResult>)
  {
    forall i :: 0 <= i < |results| ==> |results[i].bytes| <= BufSize
  }

  /** Status of opening `filename`: a name the library does not know fails with -1. */
  function OpenStatus(recordings: map<string, Recording>, filename: string): int32
  {
    if filename in recordings then recordings[filename].openStatus else -1
  }

  class Library {
    const recordings: map<string, Recording>
    ghost var calls: seq<Call>

    ghost predicate Valid()
    {
      forall f :: f in recordings ==> Fits(recordings[f].results)
    }

    constructor (recordings: map<string, Recording>)
      requires forall f :: f in recordings ==> Fits(recordings[f].results)
      ensures this.recordings == recordings && Valid() && calls == []
    {
      this.recordings := recordings;
      calls := [];
    }

    /** rtlsdr_open_logfile: a handle on success (status >= 0), none on failure. */
    method OpenLogfile(filename: string) returns (r: int32, dev: Device?)
      requires Valid()
      modifies this
      ensures calls == old(calls) + [OpenCall(filename)]
      ensures r == OpenStatus(recordings, filename)
      ensures r < 0 ==> dev == null
      ensures r >= 0 ==>
                && dev != null && fresh(dev) && dev.lib == this && dev.Valid() && dev.open
                && dev.pending == recordings[filename].results
                && dev.closeStatus == recordings[filename].closeStatus
    {
      calls := calls + [OpenCall(filename)];
      r := OpenStatus(recordings, filename);
      if r < 0 {
        dev := null;
      } else {
        var rec := recordings[filename];
        dev := new Device(this, rec.results, rec.closeStatus);
      }
    }
  }

  /** An open log-file handle (`rtlsdr_dev_t` in log-file mode). */
  class Device {
    const lib: Library
    const closeStatus: int32
    /** The reads the handle has not delivered yet. */
    var pending: seq<ReadResult>
    /** Metadata of the record most recently read. */
    var meta: Meta
    var open: bool

    ghost predicate Valid()
      reads this
    {
      Fits(pending)
    }

    constructor (lib: Library, results: seq<ReadResult>, closeStatus: int32)
      requires Fits(results)
      ensures this.lib == lib && this.closeStatus == closeStatus
      ensures pending == results && open && Valid()
    {
      this.lib := lib;
      this.closeStatus := closeStatus;
      pending := results;
      meta := Meta(Timespec(0, 0), Timespec(0, 0), 0, 0);
      open := true;
    }

    /** rtlsdr_get_timestamp */
    function Timestamps(): (Timespec, Timespec)
      reads this
    {
      (meta.preTs, meta.postTs)
    }

    /** rtlsdr_get_center_freq */
    function CenterFreq(): nat
      reads this
    {
      meta.centerFreq
    }

    /** rtlsdr_get_sample_rate */
    function SampleRate(): nat
      reads this
    {
      meta.sampleRate
    }

    /**
     * rtlsdr_read_logfile: delivers the next scripted read into `buf` and
     * makes its metadata current; once the script is exhausted every read
     * reports end of stream (status 0, no bytes).
     */
    method Read(buf: array<byte>) returns (r: int32, readLen: nat)
      requires Valid() && open && buf.Length == BufSize
      modifies this, buf, lib
      ensures Valid() && open
      ensures lib.calls == old(lib.calls) + [ReadCall]
      ensures old(pending) == [] ==> r == 0 && readLen == 0 && pending == [] && meta == old(meta)
      ensures old(pending) != [] ==>
        && r == old(pending)[0].status
        && readLen == |old(pending)[0].bytes| <= buf.Length
        && buf[..readLen] == old(pending)[0].bytes
        && meta == old(pending)[0].meta
        && pending == old(pending)[1..]
    {
      lib.calls := lib.calls + [ReadCall];
      if pending == [] {
        r, readLen := 0, 0;
      } else {
        var next := pending[0];
        forall i | 0 <= i < |next.bytes| {
          buf[i] := next.bytes[i];
        }
        r, readLen := next.status, |next.bytes|;
        meta := next.meta;
        pending := pending[1..];
      }
    }

    /** rtlsdr_close: releases the handle and reports the recording's close status. */
    method Close() returns (r: int32)
      requires open
      modifies this, lib
      ensures !open && pending == old(pending) && meta == old(meta)
      ensures lib.calls == old(lib.calls) + [CloseCall]
      ensures r == closeStatus
    {
      lib.calls := lib.calls + [CloseCall];
      open := false;
      r := closeStatus;
    }
  }
}
