/**
 * `KakaduLogger` (src/kakadu_logger_private.h): the message sink the engine
 * writes its diagnostics into. `put_text` turns every newline into a space
 * and appends to a text buffer; `flush(true)` hands the whole buffer to `log`
 * at the level the logger was built with. The buffer is a `std::stringstream`
 * and `clear()` only resets its state flags, so flushing keeps the text.
 */
module Logger {
  import opened Interop
  import opened Kaduceus

  predicate NoNewline(s: string) {
    '\n' !in s
  }

  /** `s` with every newline replaced by a space, and nothing else changed. */
  function Normalized(s: string): (r: string)
    ensures |r| == |s|
    ensures forall i :: 0 <= i < |s| ==> r[i] == (if s[i] == '\n' then ' ' else s[i])
    ensures NoNewline(r)
  {
    if s == [] then [] else [if s[0] == '\n' then ' ' else s[0]] + Normalized(s[1..])
  }

  function Count(s: string, c: char): nat {
    if s == [] then 0 else (if s[0] == c then 1 else 0) + Count(s[1..], c)
  }

  /** Replacing one newline by a space removes exactly one newline. */
  lemma {:induction false} CountAfterReplace(s: string, i: nat)
    requires i < |s| && s[i] == '\n'
    ensures Count(s[i := ' '], '\n') == Count(s, '\n') - 1
  {
    if i == 0 {
      assert s[i := ' '][1..] == s[1..];
    } else {
      CountAfterReplace(s[1..], i - 1);
      assert s[i := ' '][1..] == s[1..][i - 1 := ' '];
    }
  }

  /** `std::string::find`: the first position of `c`, or none (`npos`). */
  function FirstIndexOf(s: string, c: char): (r: Option<nat>)
    ensures r.None? <==> c !in s
    ensures r.Some? ==> r.value < |s| && s[r.value] == c && c !in s[..r.value]
  {
    if s == [] then None
    else if s[0] == c then Some(0)
    else match FirstIndexOf(s[1..], c)
      case None => None
      case Some(k) =>
        assert s[..k + 1] == [s[0]] + s[1..][..k];
        Some(k + 1)
  }

  /**
   * The loop of `put_text`: find the first newline, replace it by a space,
   * and search again from the start until none is left.
   */
  method ReplaceNewlines(s: string) returns (message: string)
    ensures message == Normalized(s)
  {
    message := s;
    var offset := FirstIndexOf(message, '\n');
    while offset.Some?
      invariant |message| == |s|
      invariant forall i :: 0 <= i < |s| ==> message[i] == s[i] || (s[i] == '\n' && message[i] == ' ')
      invariant offset == FirstIndexOf(message, '\n')
      decreases Count(message, '\n')
    {
      CountAfterReplace(message, offset.value);
      message := message[offset.value := ' '];
      offset := FirstIndexOf(message, '\n');
    }
    assert forall i :: 0 <= i < |s| ==> message[i] == Normalized(s)[i] by {
      forall i | 0 <= i < |s| ensures message[i] == Normalized(s)[i] {
        assert message[i] in message;
      }
    }
  }

  /** What `flush` passes to `log`: the whole buffer, and only at the end of a message. */
  function Emission(level: LogLevel, buffer: string, endOfMessage: bool): Option<Event> {
    if endOfMessage then Some(Log(level, buffer)) else None
  }

  class KakaduLogger {
    /** Set by the constructor; no member assigns it. */
    const level: LogLevel
    /** The text held by the `std::stringstream`. */
    var buffer: string

    ghost predicate Valid()
      reads this
    {
      NoNewline(buffer)
    }

    constructor(level: LogLevel)
      ensures this.level == level && buffer == [] && Valid()
    {
      this.level := level;
      buffer := [];
    }

    method PutText(text: string)
      requires Valid()
      modifies this`buffer
      ensures Valid()
      ensures buffer == old(buffer) + Normalized(text)
    {
      var message := ReplaceNewlines(text);
      buffer := buffer + message;
    }

    /**
     * As written: emits the whole buffer when the message ends, and keeps
     * the buffer (`clear()` resets stream flags only).
     */
    method Flush(endOfMessage: bool) returns (emitted: Option<Event>)
      requires Valid()
      ensures emitted == Emission(level, buffer, endOfMessage)
      ensures emitted.Some? <==> endOfMessage
      ensures emitted.Some? ==> emitted.value.message == buffer && NoNewline(emitted.value.message)
    {
      if endOfMessage {
        emitted := Some(Log(level, buffer));
      } else {
        emitted := None;
      }
    }

    /** Corrected: the emitted text is discarded, so each message is emitted once. */
    method FlushAndReset(endOfMessage: bool) returns (emitted: Option<Event>)
      requires Valid()
      modifies this`buffer
      ensures Valid()
      ensures emitted == Emission(level, old(buffer), endOfMessage)
      ensures buffer == if endOfMessage then [] else old(buffer)
    {
      if endOfMessage {
        emitted := Some(Log(level, buffer));
        buffer := [];
      } else {
        emitted := None;
      }
    }
  }

  // ------------------------------------------------- sequences of calls

  /** A call the engine makes on a logger. */
  datatype LoggerCall = PutTextCall(text: string) | FlushCall(endOfMessage: bool)

  function Emitted(e: Option<Event>): seq<Event> {
    match e
    case None => []
    case Some(v) => [v]
  }

  /** The events a logger holding `buffer` emits over `calls`, as written. */
  function Emissions(level: LogLevel, buffer: string, calls: seq<LoggerCall>): seq<Event>
    decreases |calls|
  {
    if calls == [] then []
    else match calls[0]
      case PutTextCall(text) => Emissions(level, buffer + Normalized(text), calls[1..])
      case FlushCall(end) => Emitted(Emission(level, buffer, end)) + Emissions(level, buffer, calls[1..])
  }

  /** The events emitted when each flush at the end of a message discards the buffer. */
  function IntendedEmissions(level: LogLevel, buffer: string, calls: seq<LoggerCall>): seq<Event>
    decreases |calls|
  {
    if calls == [] then []
    else match calls[0]
      case PutTextCall(text) => IntendedEmissions(level, buffer + Normalized(text), calls[1..])
      case FlushCall(end) =>
        Emitted(Emission(level, buffer, end)) + IntendedEmissions(level, if end then [] else buffer, calls[1..])
  }

  /** Every message the logger emits is newline-free and at the logger's level. */
  lemma {:induction false} EmissionsNewlineFree(level: LogLevel, buffer: string, calls: seq<LoggerCall>)
    requires NoNewline(buffer)
    ensures forall i :: 0 <= i < |Emissions(level, buffer, calls)| ==>
      NoNewline(Emissions(level, buffer, calls)[i].message)
      && Emissions(level, buffer, calls)[i] == Log(level, Emissions(level, buffer, calls)[i].message)
    decreases |calls|
  {
    if calls != [] {
      match calls[0]
      case PutTextCall(text) =>
        EmissionsNewlineFree(level, buffer + Normalized(text), calls[1..]);
      case FlushCall(end) =>
        EmissionsNewlineFree(level, buffer, calls[1..]);
    }
  }

  /** Text once buffered stays: it begins every later message. */
  lemma {:induction false} BufferBeginsEveryEmission(level: LogLevel, buffer: string, calls: seq<LoggerCall>)
    ensures forall i :: 0 <= i < |Emissions(level, buffer, calls)| ==>
      buffer <= Emissions(level, buffer, calls)[i].message
    decreases |calls|
  {
    if calls != [] {
      match calls[0]
      case PutTextCall(text) =>
        var grown := buffer + Normalized(text);
        BufferBeginsEveryEmission(level, grown, calls[1..]);
        forall i | 0 <= i < |Emissions(level, grown, calls[1..])|
          ensures buffer <= Emissions(level, grown, calls[1..])[i].message
        {
          var m := Emissions(level, grown, calls[1..])[i].message;
          assert buffer == m[..|buffer|];
        }
      case FlushCall(end) =>
        BufferBeginsEveryEmission(level, buffer, calls[1..]);
    }
  }

  /** As written, each emitted message extends every earlier one: old text is re-emitted. */
  lemma {:induction false} EmissionsExtendEarlier(level: LogLevel, buffer: string, calls: seq<LoggerCall>)
    ensures forall i, j :: 0 <= i < j < |Emissions(level, buffer, calls)| ==>
      Emissions(level, buffer, calls)[i].message <= Emissions(level, buffer, calls)[j].message
    decreases |calls|
  {
    if calls != [] {
      match calls[0]
      case PutTextCall(text) =>
        EmissionsExtendEarlier(level, buffer + Normalized(text), calls[1..]);
      case FlushCall(end) =>
        var rest := Emissions(level, buffer, calls[1..]);
        EmissionsExtendEarlier(level, buffer, calls[1..]);
        BufferBeginsEveryEmission(level, buffer, calls[1..]);
        if end {
          assert Emissions(level, buffer, calls) == [Log(level, buffer)] + rest;
        } else {
          assert Emissions(level, buffer, calls) == rest;
        }
    }
  }

  /** Two one-line messages: as written the second repeats the first; as intended it does not. */
  lemma FlushReEmitsEarlierText(level: LogLevel)
    ensures Emissions(level, [], [PutTextCall("a"), FlushCall(true), PutTextCall("b"), FlushCall(true)])
      == [Log(level, "a"), Log(level, "ab")]
    ensures IntendedEmissions(level, [], [PutTextCall("a"), FlushCall(true), PutTextCall("b"), FlushCall(true)])
      == [Log(level, "a"), Log(level, "b")]
  {
    var calls := [PutTextCall("a"), FlushCall(true), PutTextCall("b"), FlushCall(true)];
    var c1, c2, c3 := calls[1..], calls[2..], calls[3..];
    assert c1 == calls[1..] && c1[1..] == c2 && c2[1..] == c3 && c3[1..] == [];
    assert Normalized("a") == "a" && Normalized("b") == "b";
    assert [] + "a" == "a" && "a" + "b" == "ab" && [] + "b" == "b";
    assert Emissions(level, "ab", c3) == [Log(level, "ab")];
    assert Emissions(level, "a", c2) == [Log(level, "ab")];
    assert Emissions(level, "a", c1) == [Log(level, "a"), Log(level, "ab")];
    assert IntendedEmissions(level, "b", c3) == [Log(level, "b")];
    assert IntendedEmissions(level, [], c2) == [Log(level, "b")];
    assert IntendedEmissions(level, "a", c1) == [Log(level, "a"), Log(level, "b")];
  }

  /**
   * With the corrected flush, the calls after the end of a message emit
   * exactly what they would emit on a fresh logger.
   */
  lemma {:induction false} IntendedMessagesIndependent(
    level: LogLevel, buffer: string, before: seq<LoggerCall>, after: seq<LoggerCall>)
    ensures IntendedEmissions(level, buffer, before + [FlushCall(true)] + after)
      == IntendedEmissions(level, buffer, before + [FlushCall(true)]) + IntendedEmissions(level, [], after)
    decreases |before|
  {
    var whole := before + [FlushCall(true)] + after;
    var head := before + [FlushCall(true)];
    if before == [] {
      assert whole[1..] == after && head[1..] == [];
    } else {
      assert whole[1..] == before[1..] + [FlushCall(true)] + after;
      assert head[1..] == before[1..] + [FlushCall(true)];
      match before[0]
      case PutTextCall(text) =>
        IntendedMessagesIndependent(level, buffer + Normalized(text), before[1..], after);
      case FlushCall(end) =>
        IntendedMessagesIndependent(level, if end then [] else buffer, before[1..], after);
    }
  }

  // ------------------------------------------ the class against the calls

  /** The engine's calls, made one by one on `l`, emit exactly `Emissions`. */
  method Replay(l: KakaduLogger, calls: seq<LoggerCall>) returns (events: seq<Event>)
    requires l.Valid()
    modifies l`buffer
    ensures l.Valid()
    ensures events == Emissions(l.level, old(l.buffer), calls)
  {
    events := [];
    var i := 0;
    while i < |calls|
      invariant 0 <= i <= |calls|
      invariant l.Valid()
      invariant events + Emissions(l.level, l.buffer, calls[i..]) == Emissions(l.level, old(l.buffer), calls)
    {
      ghost var rest := Emissions(l.level, l.buffer, calls[i + 1..]);
      assert calls[i..][1..] == calls[i + 1..];
      if calls[i].PutTextCall? {
        l.PutText(calls[i].text);
      } else {
        var emitted := l.Flush(calls[i].endOfMessage);
        assert Emissions(l.level, l.buffer, calls[i..]) == Emitted(emitted) + rest;
        events := events + Emitted(emitted);
      }
      i := i + 1;
    }
    assert calls[i..] == [];
  }

  /** With the corrected flush, the same calls emit exactly `IntendedEmissions`. */
  method ReplayWithReset(l: KakaduLogger, calls: seq<LoggerCall>) returns (events: seq<Event>)
    requires l.Valid()
    modifies l`buffer
    ensures l.Valid()
    ensures events == IntendedEmissions(l.level, old(l.buffer), calls)
  {
    events := [];
    var i := 0;
    while i < |calls|
      invariant 0 <= i <= |calls|
      invariant l.Valid()
      invariant events + IntendedEmissions(l.level, l.buffer, calls[i..])
        == IntendedEmissions(l.level, old(l.buffer), calls)
    {
      ghost var before := l.buffer;
      assert calls[i..][1..] == calls[i + 1..];
      if calls[i].PutTextCall? {
        l.PutText(calls[i].text);
      } else {
        var emitted := l.FlushAndReset(calls[i].endOfMessage);
        assert IntendedEmissions(l.level, before, calls[i..])
          == Emitted(emitted) + IntendedEmissions(l.level, l.buffer, calls[i + 1..]);
        events := events + Emitted(emitted);
      }
      i := i + 1;
    }
    assert calls[i..] == [];
  }
}
