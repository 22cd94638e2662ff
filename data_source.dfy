/**
 * `AsyncReaderCompressedSource::fetch_data` as written in src/data_source.cc:
 * the engine's request for bytes, served by one call to the Rust reader. The
 * reader's `usize` count is stored in a signed `ssize_t`, so the guard
 * against counts above `SSIZE_MAX` compares a value that cannot exceed it.
 */
module DataSource {
  import opened Interop
  import opened Kaduceus

  /**
   * The implicit conversion of a `usize` into `ssize_t`: the same 64 bits read
   * as two's complement. Counts above SSIZE_MAX become negative.
   */
  function ToSsize(n: usize): (s: i64)
    ensures (s as int) % WORD_MODULUS == n as int
    ensures s as int <= SSIZE_MAX
    ensures s < 0 <==> n as int > SSIZE_MAX
  {
    if n as int <= SSIZE_MAX then n as int as i64 else (n as int - WORD_MODULUS) as i64
  }

  /** What a blocking `fetch_data` returns for the reader's answer, as written. */
  function SignedFetchOutcome(answer: Result<usize, IoError>): Result<i64, CppException> {
    match answer
    case Err(e) => Err(RustError(e))
    case Ok(n) => Ok(ToSsize(n))
  }

  /**
   * The overflow guard never fires: the narrowed count is at most SSIZE_MAX
   * whatever the reader returns, counts up to SSIZE_MAX come back unchanged,
   * and larger ones come back negative instead of raising an error.
   */
  lemma SignedCheckUnreachable(n: usize)
    ensures SignedFetchOutcome(Ok(n)).Ok?
    ensures SignedFetchOutcome(Ok(n)).value as int <= SSIZE_MAX
    ensures n as int <= SSIZE_MAX ==> SignedFetchOutcome(Ok(n)).value as int == n as int
    ensures n as int > SSIZE_MAX ==> SignedFetchOutcome(Ok(n)).value as int == n as int - WORD_MODULUS < 0
  {
  }

  /** The count 2^63 comes back as the most negative `ssize_t`. */
  lemma SignedFetchWrapsAtTwoToTheSixtyThree()
    ensures SignedFetchOutcome(Ok(0x8000_0000_0000_0000 as usize)) == Ok(-0x8000_0000_0000_0000 as i64)
  {
  }

  class AsyncReaderCompressedSource {
    const reader: AsyncReader

    constructor(reader: AsyncReader)
      ensures this.reader == reader
    {
      this.reader := reader;
    }

    /**
     * A non-blocking request is refused with -1 and never reaches the reader;
     * a blocking one reads once into `buffer[..maxBytes]`.
     */
    method FetchData(maxBytes: i64, buffer: array<u8>, blocking: bool) returns (r: Result<i64, CppException>)
      requires 0 <= maxBytes as int <= buffer.Length
      modifies reader, buffer
      ensures !blocking ==> r == Ok(-1) && reader.calls == old(reader.calls) && buffer[..] == old(buffer[..])
      ensures blocking ==>
        && |reader.calls| == |old(reader.calls)| + 1
        && reader.calls[..|old(reader.calls)|] == old(reader.calls)
        && reader.calls[|old(reader.calls)|].buffer == buffer
        && reader.calls[|old(reader.calls)|].length == maxBytes as int
        && r == SignedFetchOutcome(reader.calls[|old(reader.calls)|].result)
      ensures forall i :: maxBytes as int <= i < buffer.Length ==> buffer[i] == old(buffer[i])
    {
      if !blocking {
        return Ok(-1);
      }
      var answer := reader.Read(buffer, maxBytes as nat);
      if answer.Err? {
        return Err(RustError(answer.error));
      }
      var read: i64 := ToSsize(answer.value);
      if read as int > SSIZE_MAX {
        // The `throw` here cannot be reached: `read` is already signed.
        assert false;
      }
      return Ok(read);
    }
  }
}
