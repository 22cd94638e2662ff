/**
 * `AsyncReaderCompressedSource::fetch_data` as written in src/kakadu_rs.cc:
 * the same request as in src/data_source.cc, but the reader's count is kept
 * in an unsigned `size_t`, so the guard against counts above `SSIZE_MAX` can
 * fire and raises `std::runtime_error` instead of returning a wrapped count.
 */
module KakaduRs {
  import opened Interop
  import opened Kaduceus
  import DataSource

  const TOO_MANY_BYTES: string := "reader returned too many bytes, this is an implementation error"

  /** What a blocking `fetch_data` returns for the reader's answer. */
  function UnsignedFetchOutcome(answer: Result<usize, IoError>): Result<i64, CppException> {
    match answer
    case Err(e) => Err(RustError(e))
    case Ok(n) => if n as int > SSIZE_MAX then Err(RuntimeError(TOO_MANY_BYTES)) else Ok(n as int as i64)
  }

  /**
   * The guard is reachable and exact: a count above SSIZE_MAX raises the
   * runtime error, and every other count is returned unchanged and non-negative.
   */
  lemma UnsignedCheckGuardsNarrowing(answer: Result<usize, IoError>)
    ensures answer.Err? ==> UnsignedFetchOutcome(answer) == Err(RustError(answer.error))
    ensures answer.Ok? ==>
      (UnsignedFetchOutcome(answer) == Err(RuntimeError(TOO_MANY_BYTES)) <==> answer.value as int > SSIZE_MAX)
    ensures UnsignedFetchOutcome(answer).Ok? ==>
      answer.Ok? && 0 <= UnsignedFetchOutcome(answer).value as int == answer.value as int
  {
  }

  /** The two variants agree exactly on the reader's errors and on counts up to SSIZE_MAX. */
  lemma VariantsAgreeIffCountFits(answer: Result<usize, IoError>)
    ensures UnsignedFetchOutcome(answer) == DataSource.SignedFetchOutcome(answer)
      <==> (answer.Err? || answer.value as int <= SSIZE_MAX)
  {
  }

  class AsyncReaderCompressedSource {
    const reader: AsyncReader

    constructor(reader: AsyncReader)
      ensures this.reader == reader
    {
      this.reader := reader;
    }

    /**
     * A non-blocking request is refused with -1 and never reaches the reader;
     * a blocking one reads once into `buffer[..maxBytes]` and checks the count.
     */
    method FetchData(maxBytes: i64, buffer: array<u8>, blocking: bool) returns (r: Result<i64, CppException>)
      requires 0 <= maxBytes as int <= buffer.Length
      modifies reader, buffer
      ensures !blocking ==> r == Ok(-1) && reader.calls == old(reader.calls) && buffer[..] == old(buffer[..])
      ensures blocking ==>
        && |reader.calls| == |old(reader.calls)| + 1
        && reader.calls[..|old(reader.calls)|] == old(reader.calls)
        && reader.calls[|old(reader.calls)|].buffer == buffer
        && reader.calls[|old(reader.calls)|].length == maxBytes as int
        && r == UnsignedFetchOutcome(reader.calls[|old(reader.calls)|].result)
      ensures forall i :: maxBytes as int <= i < buffer.Length ==> buffer[i] == old(buffer[i])
    {
      if !blocking {
        return Ok(-1);
      }
      var answer := reader.Read(buffer, maxBytes as nat);
      if answer.Err? {
        return Err(RustError(answer.error));
      }
      var read: usize := answer.value;
      if read as int > SSIZE_MAX {
        return Err(RuntimeError(TOO_MANY_BYTES));
      }
      return Ok(read as int as i64);
    }
  }
}
