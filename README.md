# kaduceus glue, modelled in Dafny

kaduceus binds a closed-source JPEG 2000 engine (Kakadu) to Rust. The engine pulls
compressed bytes from an asynchronous Rust stream through a blocking callback. It
decodes a requested region step by step, and it reports diagnostics through a logger
object. The engine itself is foreign code. This project models the glue around it:

- **Log relay** (`Kaduceus.Log`, module `Kaduceus`, from `src/lib.rs`). It maps the
  engine's `LogLevel` to a `tracing` severity, with target `"kakadu"`. cxx carries a
  shared enum as a struct around its discriminant, so `LogLevel` is modelled as a
  byte, and a value outside the four named ones reaches the `_` arm.
- **Native logger** (`Logger.KakaduLogger`, from `src/kakadu_logger_private.h`). This
  is a class with a constant `level` and a `buffer: string` field. `PutText` runs the
  newline-replacing loop (`Logger.ReplaceNewlines`) and appends the result. `Flush`
  returns the event it hands to `log`. `Emissions` models a whole sequence of calls
  on one logger, so that lemmas can relate several calls. `Logger.Replay` proves that
  the class methods, called in sequence, emit exactly `Emissions`.
- **Region-decode step** (`Kaduceus.KakaduDecompressor.Process`). The foreign
  decompressor is an oracle class, `RegionEngine`. It records every call with its
  answer, and its answers are unconstrained. The engine's writes through
  `&mut Region` are a sequence of field stores applied to `Region::default()`.
  `ProcessProtocol` states which engine calls one `process` makes and what it returns.
- **Region opening** (`Kaduceus.KakaduImage.OpenRegion`). It forwards the region to
  the image-reader oracle unchanged.
- **Blocking fetch**, in two variants: `DataSource.AsyncReaderCompressedSource.FetchData`
  (`src/data_source.cc`) and `KakaduRs.AsyncReaderCompressedSource.FetchData`
  (`src/kakadu_rs.cc`). The Rust reader is the oracle class `AsyncReader`. Its count is
  an arbitrary `usize`: no code checks it against the slice length, and the guard in
  `fetch_data` exists for exactly that case. A 64-bit platform is assumed
  (`SSIZE_MAX` = 2^63 − 1). `src/kakadu_rs.cc` belongs to a sibling bridge, `digirati::kdurs`,
  whose Rust side is not part of this model. Its reader is assumed to have the same
  `read(&mut self, &mut [u8]) -> Result<usize>` signature as `AsyncReader::read` in
  `src/lib.rs`, so both variants share the `AsyncReader` oracle.

Foreign calls are replaced by oracle methods that choose their answer with `:|`.
The wrappers are proved for every answer the oracles can give.

## Model

| member | source | states |
|---|---|---|
| `Kaduceus.Log` | src/lib.rs:85-93 | The event always has target "kakadu" and the message unchanged. Each named level maps to its own severity, in both directions. Exactly the unnamed level values fall through to TRACE, so `log` is total. |
| `Kaduceus.LogPreservesLevelOrder` | src/lib.rs:86-90 | Among the named levels, one level is below another exactly when its severity ranks below. |
| `Kaduceus.LogUnnamedIsLowest` | src/lib.rs:91 | An unnamed level value is emitted at the lowest severity. |
| `Kaduceus.ApplyStoresKeepsUnstored` | src/lib.rs:125-126 | A Region field the engine never stores to keeps the value it had before `process`. |
| `Kaduceus.ApplyStoresLastWins` | src/lib.rs:126 | A Region field holds the value of the engine's last store to it. |
| `Kaduceus.RegionEngine.Process` | src/lib.rs:58-62 | Oracle for the engine's `process`. It records one call with the sample array it was given, the incomplete flag and the region stores it made. |
| `Kaduceus.RegionEngine.Finish` | src/lib.rs:57 | Oracle for the engine's `finish`. It records one call with its boolean and its error code. |
| `Kaduceus.KakaduDecompressor.constructor` | src/lib.rs:115-120 | The wrapper holds only the engine handle. It has no terminal flag. |
| `Kaduceus.KakaduDecompressor.Process` | src/lib.rs:122-138 | Earlier engine calls stay as they were. The new calls and the result satisfy `ProcessProtocol`: one `process`, which receives the caller's `data` array; then, if the engine reports incomplete, `Ok` with the region it wrote and no `finish`; otherwise exactly one `finish`, whose boolean picks `Ok(region)` or the fixed error. The method has no precondition on earlier outcomes, so calls after a terminal outcome are forwarded too. |
| `Kaduceus.ProcessFinishesOnlyWhenComplete` | src/lib.rs:126-133 | `finish` appears among the calls exactly when `process` reported completion, and then only once, as the second call. |
| `Kaduceus.ProcessErrIffFinishFails` | src/lib.rs:131-136 | The result is `Err` exactly when `finish` returned false. The error carries "Kakadu Decompression error". Any `Ok` holds the region the engine wrote. |
| `Kaduceus.ProcessIgnoresErrorCode` | src/lib.rs:131-135 | The error code `finish` reports is discarded: changing it does not change the result. |
| `Kaduceus.ProcessUnwrittenFieldsAreZero` | src/lib.rs:125-129 | A field the engine does not write comes back as 0, from `Region::default()`. |
| `Kaduceus.ImageEngine.Open` | src/lib.rs:76 | Oracle for the engine's `open`. It records the region it received and returns a fresh decompressor with no calls yet. |
| `Kaduceus.KakaduImage.OpenRegion` | src/lib.rs:162-167 | The caller's region is passed to the engine unchanged, with no validation. The result wraps a fresh engine decompressor. |
| `Kaduceus.AsyncReader.Read` | src/lib.rs:193-207 | Oracle for one read of the stream into the slice `buffer[..length]`. It records the caller's array, the slice length and the answer. It is one read with no retry loop, and it writes nothing outside the slice. |
| `Logger.Normalized` | src/kakadu_logger_private.h:20-25 | The result has the same length as the input. Every newline becomes a space and every other character stays. The result holds no newline. |
| `Logger.FirstIndexOf` | src/kakadu_logger_private.h:23 | `find` returns none exactly when the character is absent. Otherwise it returns a position that holds the character, with no earlier occurrence. |
| `Logger.CountAfterReplace` | src/kakadu_logger_private.h:23-25 | Replacing one newline by a space lowers the newline count by exactly one. This is the loop's termination measure. |
| `Logger.ReplaceNewlines` | src/kakadu_logger_private.h:20-25 | The find-and-replace loop terminates and leaves exactly `Normalized(text)`. |
| `Logger.KakaduLogger.constructor` | src/kakadu_logger_private.h:13-16 | The level is the one given; the buffer starts empty. The level is a `const`, so nothing else can change it. |
| `Logger.KakaduLogger.PutText` | src/kakadu_logger_private.h:18-28 | The buffer becomes the old buffer followed by the normalised text. Earlier contents are untouched, and the buffer stays newline-free. |
| `Logger.KakaduLogger.Flush` | src/kakadu_logger_private.h:30-37 | An event is emitted exactly when `endOfMessage` is true. It is `log` of the whole buffer at the logger's level and holds no newline. The buffer is not changed, because `clear()` resets stream flags only. |
| `Logger.KakaduLogger.FlushAndReset` | src/kakadu_logger_private.h:36 | Corrected flush: it emits as `Flush` does, and empties the buffer when the message ends. |
| `Logger.EmissionsNewlineFree` | src/kakadu_logger_private.h:23-33 | Over any sequence of calls, every emitted message is newline-free and at the logger's level. |
| `Logger.BufferBeginsEveryEmission` | src/kakadu_logger_private.h:27-36 | Text already in the buffer is a prefix of every later emitted message. |
| `Logger.EmissionsExtendEarlier` | src/kakadu_logger_private.h:30-37 | Each emitted message is a prefix of every later one, so later messages re-emit earlier text. |
| `Logger.FlushReEmitsEarlierText` | src/kakadu_logger_private.h:36 | For put "a", flush, put "b", flush, the code as written emits "a" then "ab". The corrected flush emits "a" then "b". |
| `Logger.IntendedMessagesIndependent` | src/kakadu_logger_private.h:30-37 | With the corrected flush, the calls after an end-of-message flush emit exactly what they would emit on an empty logger. |
| `Logger.Replay` | src/kakadu_logger_private.h:18-37 | Making a sequence of `put_text`/`flush` calls on one logger, through the class methods, emits exactly `Emissions` of its initial buffer. So the lemmas about `Emissions` hold of the class as written. |
| `Logger.ReplayWithReset` | src/kakadu_logger_private.h:36 | The same calls, made with the corrected `FlushAndReset`, emit exactly `IntendedEmissions`. |
| `DataSource.ToSsize` | src/data_source.cc:28 | Storing a `usize` in `ssize_t` keeps the value modulo 2^64. The result never exceeds SSIZE_MAX. It is negative exactly when the count exceeds SSIZE_MAX. |
| `DataSource.SignedCheckUnreachable` | src/data_source.cc:28-33 | Whatever the reader returns, the guard `read > SSIZE_MAX` is false. Counts up to SSIZE_MAX are returned unchanged. Larger counts are returned as `count − 2^64`, a negative value. |
| `DataSource.SignedFetchWrapsAtTwoToTheSixtyThree` | src/data_source.cc:28-33 | A reader count of 2^63 is returned as −2^63. |
| `DataSource.AsyncReaderCompressedSource.constructor` | src/data_source.cc:7-19 | The source holds the reader it was given. |
| `DataSource.AsyncReaderCompressedSource.FetchData` | src/data_source.cc:21-34 | A non-blocking call returns −1 and touches neither the reader nor the buffer. A blocking call makes exactly one read, into the caller's `buffer` with length `maxBytes`. It returns the reader's error as `rust::Error`, or the count narrowed by `ToSsize`. Its throw branch is proved unreachable. Bytes past `maxBytes` are untouched. |
| `KakaduRs.UnsignedCheckGuardsNarrowing` | src/kakadu_rs.cc:26-31 | A reader error propagates. A count raises `runtime_error` exactly when it exceeds SSIZE_MAX. Any returned count is non-negative and equal to the reader's count. |
| `KakaduRs.VariantsAgreeIffCountFits` | src/kakadu_rs.cc:26-31 | The two `fetch_data` variants give the same result exactly when the reader fails or its count is at most SSIZE_MAX. |
| `KakaduRs.AsyncReaderCompressedSource.constructor` | src/kakadu_rs.cc:13-17 | The source holds the reader it was given. |
| `KakaduRs.AsyncReaderCompressedSource.FetchData` | src/kakadu_rs.cc:19-32 | A non-blocking call returns −1 and touches neither the reader nor the buffer. A blocking call makes exactly one read, into the caller's `buffer` with length `maxBytes`. Its result is `UnsignedFetchOutcome` of the reader's answer: an error, the `runtime_error`, or the unchanged count. Bytes past `maxBytes` are untouched. |

## Left out

- The engine's `process`, `finish`, `open` and `info`, and everything under them (codestream, jp2/jpx sources, channel mapping, decompressor start-up in `src/kakadu_decompressor.cc`, `src/kakadu_image.cc` and `src/kakadu_image_reader.cc`). These are closed-source engine calls, so they appear only as oracles whose answers are unconstrained.
- `KakaduImage::info` and the `Info` record. `info` only forwards to the engine, and its contents come from the engine.
- `AsyncReader::read` is an oracle only. It builds a current-thread tokio runtime and calls `block_on`, which is asynchronous plumbing. Its single read is kept; the futures rule that a count never exceeds the slice length is not assumed.
- Tracing spans, the `Send`/`Sync` impls, and `KakaduContext` with its shared-pointer clones (`src/lib.rs:82-83`, `src/lib.rs:95-106`). These carry no logic the glue decides.
- `src/kakadu_context.cc`: the memory broker, the thread environment and the one-time registration of the global logger. This is process-wide state and concurrency.
- The detached servicing thread and `enable`/`open` calls in the `src/data_source.cc` constructor, and `open(true)` in the `src/kakadu_rs.cc` constructor. These are concurrency and engine set-up; the constructors model only the stored reader.
- Seek and position tracking. They are declared in `src/data_source.h` and commented out in `src/data_source.cc`, so no such code runs.
- `KakaduImage::new`, the factory functions and `src/kaduceus.cc`. They are pass-throughs into the engine.
- `build.rs` and the tests, which do build configuration, file I/O and PNG encoding.
- UTF-8 validation when the buffer becomes a `rust::Str`, and the end of a C string at its first NUL. Text is a `seq<char>`.
- The locking of the engine's thread-safe message base class. Concurrency is not modelled.
- DataSource.AsyncReaderCompressedSource.FetchData and KakaduRs.AsyncReaderCompressedSource.FetchData require `0 <= maxBytes <= buffer.Length`. This is the engine's guarantee that its buffer holds `max_bytes` bytes. With a negative `max_bytes`, the slice length would wrap to a huge `size_t`.
- A C++ exception raised inside the engine's own `process`/`finish` is not modelled. Those calls return plain values here.

## Findings

| source | as written | input that shows it | evidently intended | confidence | as-written member | corrected member |
|---|---|---|---|---|---|---|
| src/kakadu_logger_private.h:36 | `buffer.clear()` on a `std::stringstream` resets stream flags only, so the text stays after a message is emitted | `put_text("a")`, `flush(true)`, `put_text("b")`, `flush(true)` emits "a" and then "ab" | discard the emitted text (`buffer.str("")`), so each message is emitted once | medium, not executed | `Logger.KakaduLogger.Flush`, shown by `Logger.FlushReEmitsEarlierText` and `Logger.EmissionsExtendEarlier`, tied to the class by `Logger.Replay` | `Logger.KakaduLogger.FlushAndReset`, with `Logger.IntendedMessagesIndependent`, tied to the class by `Logger.ReplayWithReset` |
| src/data_source.cc:28-29 | the reader's `usize` count is stored in a signed `ssize_t`, so `read > SSIZE_MAX` is always false | a reader count of 2^63 makes `fetch_data` return −2^63 instead of throwing | keep the count unsigned so the guard throws, as `src/kakadu_rs.cc:26-29` does | high, not executed | `DataSource.AsyncReaderCompressedSource.FetchData`, shown by `DataSource.SignedCheckUnreachable` and `DataSource.SignedFetchWrapsAtTwoToTheSixtyThree` | `KakaduRs.AsyncReaderCompressedSource.FetchData`, with `KakaduRs.UnsignedCheckGuardsNarrowing` |

The logger model keeps the code as written: `Flush` is the operation the logger class offers, and `FlushAndReset` sits beside it.
