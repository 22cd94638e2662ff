/**
 * The Rust side of the bridge (src/lib.rs): the relay of the engine's log
 * lines into `tracing`, the region-decode step over the foreign decompressor,
 * the pass-through that opens a region, and the byte reader the C++ byte
 * source calls back into. The foreign engine and the asynchronous stream are
 * oracles: classes that record every call made to them and answer with
 * values the model does not constrain.
 */
module Kaduceus {
  import opened Interop

  // ---------------------------------------------------------------- logging

  /**
   * cxx represents the shared enum `LogLevel` as a struct around its
   * discriminant, so a value other than the four named ones can reach `log`.
   */
  datatype LogLevel = LogLevel(repr: u8)

  const Debug: LogLevel := LogLevel(0)
  const Info: LogLevel := LogLevel(1)
  const Warning: LogLevel := LogLevel(2)
  const Error: LogLevel := LogLevel(3)

  predicate IsNamed(level: LogLevel) {
    level in {Debug, Info, Warning, Error}
  }

  /** The `tracing` macros `log` can end in. */
  datatype Severity = TRACE | DEBUG | INFO | WARN | ERROR

  /** How severe an event is: `TRACE` is the least severe. */
  function Rank(s: Severity): nat {
    match s
    case TRACE => 0
    case DEBUG => 1
    case INFO => 2
    case WARN => 3
    case ERROR => 4
  }

  const TARGET: string := "kakadu"

  /** One event handed to `tracing`. */
  datatype Event = Event(target: string, severity: Severity, message: string)

  /**
   * `log`: every level becomes an event with target "kakadu" and the message
   * unchanged; the named levels keep their name and any other value falls
   * through to `TRACE`.
   */
  function Log(level: LogLevel, message: string): (e: Event)
    ensures e.target == TARGET && e.message == message
    ensures IsNamed(level) <==> e.severity != TRACE
    ensures level == Debug <==> e.severity == DEBUG
    ensures level == Info <==> e.severity == INFO
    ensures level == Warning <==> e.severity == WARN
    ensures level == Error <==> e.severity == ERROR
  {
    var severity :=
      if level == Debug then DEBUG
      else if level == Info then INFO
      else if level == Warning then WARN
      else if level == Error then ERROR
      else TRACE;
    Event(TARGET, severity, message)
  }

  /** The named levels keep their order of severity. */
  lemma LogPreservesLevelOrder(a: LogLevel, b: LogLevel, m: string)
    requires IsNamed(a) && IsNamed(b)
    ensures a.repr < b.repr <==> Rank(Log(a, m).severity) < Rank(Log(b, m).severity)
  {
  }

  /** `log` is total: an unnamed level is emitted at the lowest severity. */
  lemma LogUnnamedIsLowest(level: LogLevel, m: string)
    requires !IsNamed(level)
    ensures forall s: Severity :: Rank(Log(level, m).severity) <= Rank(s)
  {
  }

  // ---------------------------------------------------------------- regions

  datatype Region = Region(x: u32, y: u32, width: u32, height: u32)

  /** `Region::default()`. */
  const DEFAULT_REGION: Region := Region(0, 0, 0, 0)

  datatype RegionField = X | Y | Width | Height

  /** One store the engine makes through its `&mut Region`. */
  datatype RegionStore = RegionStore(field: RegionField, value: u32)

  function Get(r: Region, f: RegionField): u32 {
    match f
    case X => r.x
    case Y => r.y
    case Width => r.width
    case Height => r.height
  }

  function Set(r: Region, f: RegionField, v: u32): Region {
    match f
    case X => r.(x := v)
    case Y => r.(y := v)
    case Width => r.(width := v)
    case Height => r.(height := v)
  }

  predicate StoredLater(stores: seq<RegionStore>, k: nat, f: RegionField) {
    exists k' :: k < k' < |stores| && stores[k'].field == f
  }

  /** The region after the engine's stores, made in order. */
  function ApplyStores(r: Region, stores: seq<RegionStore>): Region
    decreases |stores|
  {
    if stores == [] then r else ApplyStores(Set(r, stores[0].field, stores[0].value), stores[1..])
  }

  /** A field no store names keeps its value. */
  lemma {:induction false} ApplyStoresKeepsUnstored(r: Region, stores: seq<RegionStore>, f: RegionField)
    requires forall k :: 0 <= k < |stores| ==> stores[k].field != f
    ensures Get(ApplyStores(r, stores), f) == Get(r, f)
    decreases |stores|
  {
    if stores != [] {
      assert forall k :: 0 <= k < |stores[1..]| ==> stores[1..][k] == stores[k + 1];
      ApplyStoresKeepsUnstored(Set(r, stores[0].field, stores[0].value), stores[1..], f);
    }
  }

  /** A field holds the value of the last store to it. */
  lemma {:induction false} ApplyStoresLastWins(r: Region, stores: seq<RegionStore>, k: nat)
    requires k < |stores| && !StoredLater(stores, k, stores[k].field)
    ensures Get(ApplyStores(r, stores), stores[k].field) == stores[k].value
    decreases |stores|
  {
    var r1 := Set(r, stores[0].field, stores[0].value);
    var tail := stores[1..];
    if k == 0 {
      forall j | 0 <= j < |tail| ensures tail[j].field != stores[0].field {
        assert tail[j] == stores[j + 1];
      }
      ApplyStoresKeepsUnstored(r1, tail, stores[0].field);
    } else {
      assert tail[k - 1] == stores[k];
      forall j | k - 1 < j < |tail| ensures tail[j].field != stores[k].field {
        assert tail[j] == stores[j + 1];
      }
      ApplyStoresLastWins(r1, tail, k - 1);
    }
  }

  // ------------------------------------------------------- foreign decoder

  /**
   * A call the wrapper made into the foreign decompressor, with its answer;
   * `process` records the sample slice it was given.
   */
  datatype EngineCall =
    | ProcessCall(data: array<i32>, incomplete: bool, stores: seq<RegionStore>)
    | FinishCall(ok: bool, errorCode: i32)

  /**
   * Oracle for `ffi::KakaduDecompressor`: `process` writes samples and the
   * region it decoded, `finish` finalises; both answers are unconstrained.
   */
  class RegionEngine {
    var calls: seq<EngineCall>

    constructor()
      ensures calls == []
    {
      calls := [];
    }

    method Process(data: array<i32>) returns (incomplete: bool, stores: seq<RegionStore>)
      modifies this, data
      ensures calls == old(calls) + [ProcessCall(data, incomplete, stores)]
    {
      incomplete :| true;
      stores :| true;
      calls := calls + [ProcessCall(data, incomplete, stores)];
    }

    method Finish() returns (ok: bool, errorCode: i32)
      modifies this
      ensures calls == old(calls) + [FinishCall(ok, errorCode)]
    {
      ok :| true;
      errorCode :| true;
      calls := calls + [FinishCall(ok, errorCode)];
    }
  }

  const DECODE_ERROR_MESSAGE: string := "Kakadu Decompression error"

  datatype DecodeError = DecodeError(message: string)

  /**
   * The calls one `KakaduDecompressor::process` makes into the engine, and
   * the result it returns: one `process`; when that reports incomplete, the
   * region it wrote and nothing else; otherwise exactly one `finish`, whose
   * boolean alone decides between the region and the fixed error.
   */
  predicate ProcessProtocol(calls: seq<EngineCall>, r: Result<Region, DecodeError>) {
    && |calls| > 0
    && calls[0].ProcessCall?
    && var region := ApplyStores(DEFAULT_REGION, calls[0].stores);
       if calls[0].incomplete then
         calls == [calls[0]] && r == Ok(region)
       else
         && |calls| == 2
         && calls[1].FinishCall?
         && r == (if calls[1].ok then Ok(region) else Err(DecodeError(DECODE_ERROR_MESSAGE)))
  }

  /** `finish` is called exactly when `process` reports completion, and then once. */
  lemma ProcessFinishesOnlyWhenComplete(calls: seq<EngineCall>, r: Result<Region, DecodeError>)
    requires ProcessProtocol(calls, r)
    ensures (exists k :: 0 <= k < |calls| && calls[k].FinishCall?) <==> !calls[0].incomplete
    ensures forall k :: 1 <= k < |calls| ==> calls[k].FinishCall? && k == 1
  {
    if !calls[0].incomplete {
      assert calls[1].FinishCall?;
    }
  }

  /** The call fails exactly when `finish` reported failure. */
  lemma ProcessErrIffFinishFails(calls: seq<EngineCall>, r: Result<Region, DecodeError>)
    requires ProcessProtocol(calls, r)
    ensures r.Err? <==> (|calls| == 2 && !calls[1].ok)
    ensures r.Err? ==> r.error.message == DECODE_ERROR_MESSAGE
    ensures r.Ok? ==> r.value == ApplyStores(DEFAULT_REGION, calls[0].stores)
  {
  }

  /** The error code `finish` reports is discarded: it never changes the result. */
  lemma ProcessIgnoresErrorCode(p: EngineCall, ok: bool, c1: i32, c2: i32, r: Result<Region, DecodeError>)
    requires ProcessProtocol([p, FinishCall(ok, c1)], r)
    ensures ProcessProtocol([p, FinishCall(ok, c2)], r)
  {
  }

  /** A field the engine does not store to is returned as zero. */
  lemma ProcessUnwrittenFieldsAreZero(calls: seq<EngineCall>, r: Result<Region, DecodeError>, f: RegionField)
    requires ProcessProtocol(calls, r)
    requires r.Ok?
    requires forall k :: 0 <= k < |calls[0].stores| ==> calls[0].stores[k].field != f
    ensures Get(r.value, f) == 0
  {
    ApplyStoresKeepsUnstored(DEFAULT_REGION, calls[0].stores, f);
  }

  /**
   * `KakaduDecompressor`: the engine handle and a tracing span (left out).
   * There is no terminal flag: every call is forwarded to the engine.
   */
  class KakaduDecompressor {
    const inner: RegionEngine

    constructor(inner: RegionEngine)
      ensures this.inner == inner
    {
      this.inner := inner;
    }

    method Process(data: array<i32>) returns (r: Result<Region, DecodeError>)
      modifies inner, data
      ensures |inner.calls| >= |old(inner.calls)|
      ensures inner.calls[..|old(inner.calls)|] == old(inner.calls)
      ensures ProcessProtocol(inner.calls[|old(inner.calls)|..], r)
      ensures inner.calls[|old(inner.calls)|].data == data
    {
      ghost var before := inner.calls;
      var region := DEFAULT_REGION;
      var incomplete, stores := inner.Process(data);
      region := ApplyStores(region, stores);
      if incomplete {
        assert inner.calls[|before|..] == [ProcessCall(data, incomplete, stores)];
        return Ok(region);
      }
      var ok, errorCode := inner.Finish();
      assert inner.calls[|before|..] == [ProcessCall(data, incomplete, stores), FinishCall(ok, errorCode)];
      if ok {
        return Ok(region);
      }
      return Err(DecodeError(DECODE_ERROR_MESSAGE));
    }
  }

  // ---------------------------------------------------------------- images

  /** Oracle for `ffi::KakaduImageReader`: records every region it is asked to open. */
  class ImageEngine {
    var requested: seq<Region>

    constructor()
      ensures requested == []
    {
      requested := [];
    }

    method Open(roi: Region) returns (d: RegionEngine)
      modifies this
      ensures requested == old(requested) + [roi]
      ensures fresh(d) && d.calls == []
    {
      requested := requested + [roi];
      d := new RegionEngine();
    }
  }

  /** `KakaduImage`: the image-reader handle and a tracing span (left out). */
  class KakaduImage {
    const inner: ImageEngine

    constructor(inner: ImageEngine)
      ensures this.inner == inner
    {
      this.inner := inner;
    }

    /** Forwards the caller's region unchanged; nothing is validated here. */
    method OpenRegion(region: Region) returns (decompressor: KakaduDecompressor)
      modifies inner
      ensures inner.requested == old(inner.requested) + [region]
      ensures fresh(decompressor) && fresh(decompressor.inner) && decompressor.inner.calls == []
    {
      var engine := inner.Open(region);
      decompressor := new KakaduDecompressor(engine);
    }
  }

  // ---------------------------------------------------------- byte reader

  /**
   * One read the C++ byte source requested: the slice `buffer[..length]` it
   * passed, and the reader's answer.
   */
  datatype ReadCall = ReadCall(buffer: array<u8>, length: nat, result: Result<usize, IoError>)

  /**
   * Oracle for `AsyncReader::read`: one read of the stream into the given
   * slice, whose count the bridge does not check against the slice length.
   */
  class AsyncReader {
    var calls: seq<ReadCall>

    constructor()
      ensures calls == []
    {
      calls := [];
    }

    /** Reads into `buffer[..length]`, the slice the caller passed. */
    method Read(buffer: array<u8>, length: nat) returns (r: Result<usize, IoError>)
      requires length <= buffer.Length
      modifies this, buffer
      ensures calls == old(calls) + [ReadCall(buffer, length, r)]
      ensures forall i :: length <= i < buffer.Length ==> buffer[i] == old(buffer[i])
    {
      r :| true;
      calls := calls + [ReadCall(buffer, length, r)];
    }
  }
}
