/**
 * The serial acquisition loop of `main`: read a line, decode it (UTF-8, else
 * latin-1), parse it, count it and clear the consecutive-error counter; on a
 * `SerialException` (opening or reading the port) count the error, log it, and
 * after ten in a row close the port, pause, clear the counter and log that too.
 *
 * The port and the clock are not modelled: the loop is driven by a sequence of
 * events, each either a line of bytes the port delivered or a `SerialException`.
 * The error table is an append-only log of messages.
 */
module Acquisition {
  import opened Wrappers
  import opened Nmea

  newtype byte = x: int | 0 <= x < 256

  /** Consecutive link errors after which the port is closed and the loop pauses. */
  const Threshold: nat := 10

  const SerialErrorMessage := "SerialException occurred. Attempting to reconnect in 100 milliseconds..."
  const MaxErrorMessage := "Max error count reached. Restarting serial connection..."

  /** One pass of the read loop: the bytes of one line, or a `SerialException`. */
  datatype Event = Received(raw: seq<byte>) | LinkFailure

  // ---------------------------------------------------------------- decoding

  /** `bytes.decode('latin-1')`: every byte becomes the character with the same code. */
  function Latin1(raw: seq<byte>): (text: string)
    ensures |text| == |raw|
    ensures forall i :: 0 <= i < |raw| ==> text[i] as int == raw[i] as int
  {
    if raw == [] then [] else Latin1(raw[..|raw| - 1]) + [(raw[|raw| - 1] as int) as char]
  }

  /** `str.encode('latin-1')` on text whose characters are all below 256. */
  function Latin1Encode(text: string): (raw: seq<byte>)
    requires forall i :: 0 <= i < |text| ==> text[i] as int < 256
  {
    if text == [] then [] else Latin1Encode(text[..|text| - 1]) + [text[|text| - 1] as int as byte]
  }

  /** The latin-1 fallback loses nothing: encoding the decoded text gives back the bytes. */
  lemma {:induction false} Latin1RoundTrip(raw: seq<byte>)
    ensures Latin1Encode(Latin1(raw)) == raw
  {
    if raw != [] {
      var init := raw[..|raw| - 1];
      Latin1RoundTrip(init);
      assert Latin1(raw)[..|raw| - 1] == Latin1(init);
      assert raw == init + [raw[|raw| - 1]];
    }
  }

  /**
   * Decoding a line read from the port: UTF-8 first (`utf8` stands for the
   * strict decoder, `None` for its `UnicodeDecodeError`), then latin-1, which
   * cannot fail. A line is therefore always obtained as text.
   */
  function DecodeLine(utf8: seq<byte> -> Option<string>, raw: seq<byte>): (text: string)
    ensures utf8(raw).Some? ==> text == utf8(raw).value
    ensures utf8(raw).None? ==> |text| == |raw| && forall i :: 0 <= i < |raw| ==> text[i] as int == raw[i] as int
    ensures utf8(raw).None? ==> Latin1Encode(text) == raw
  {
    match utf8(raw)
    case Some(t) => t
    case None => Latin1RoundTrip(raw); Latin1(raw)
  }

  // ---------------------------------------------------------------- the state machine

  /** The loop's counters and the error log it has written to. */
  datatype LoopState = LoopState(lineCount: nat, errorCount: nat, errorLog: seq<string>, connected: bool)

  /** The effect of one event on the loop's state. */
  function Next(utf8: seq<byte> -> Option<string>, s: LoopState, e: Event): (t: LoopState)
    ensures s.errorCount < Threshold ==> t.errorCount < Threshold
    ensures s.errorLog <= t.errorLog
  {
    match e
    case Received(raw) =>
      var line := DecodeLine(utf8, raw);
      LoopState(s.lineCount + 1, 0, s.errorLog + ErrorWrites(ParseGpsData(line)), true)
    case LinkFailure =>
      var count := s.errorCount + 1;
      var log := s.errorLog + [SerialErrorMessage];
      if count >= Threshold then LoopState(s.lineCount, 0, log + [MaxErrorMessage], false)
      else LoopState(s.lineCount, count, log, false)
  }

  /** The state after a sequence of events, the last one applied last. */
  function Replay(utf8: seq<byte> -> Option<string>, s: LoopState, es: seq<Event>): (t: LoopState)
    ensures s.errorCount < Threshold ==> t.errorCount < Threshold
    ensures s.errorLog <= t.errorLog
    decreases |es|
  {
    if es == [] then s else Next(utf8, Replay(utf8, s, es[..|es| - 1]), es[|es| - 1])
  }

  /**
   * A line read successfully always counts one line, clears the error counter,
   * marks the port open and writes no error, whatever its bytes.
   */
  lemma ReceivedResets(utf8: seq<byte> -> Option<string>, s: LoopState, raw: seq<byte>)
    ensures Next(utf8, s, Received(raw)) == LoopState(s.lineCount + 1, 0, s.errorLog, true)
  {
    ParseNeverFails(DecodeLine(utf8, raw));
  }

  /**
   * A `SerialException` logs exactly one error, or two when it is the tenth in a
   * row, and then the counter starts again from zero.
   */
  lemma FailureLogs(utf8: seq<byte> -> Option<string>, s: LoopState)
    requires s.errorCount < Threshold
    ensures var t := Next(utf8, s, LinkFailure);
      && t.lineCount == s.lineCount && !t.connected
      && t.errorCount == (s.errorCount + 1) % Threshold
      && t.errorLog == s.errorLog + [SerialErrorMessage]
                     + (if s.errorCount == Threshold - 1 then [MaxErrorMessage] else [])
  {
  }

  /** The number of successful reads among the events. */
  function Reads(es: seq<Event>): nat {
    if es == [] then 0 else Reads(es[..|es| - 1]) + (if es[|es| - 1].Received? then 1 else 0)
  }

  /** The number of `SerialException`s at the end of the events, since the last successful read. */
  function TrailingFailures(es: seq<Event>): (n: nat)
    ensures n <= |es|
  {
    if es == [] || es[|es| - 1].Received? then 0 else TrailingFailures(es[..|es| - 1]) + 1
  }

  /** `line_count` counts the successful reads. */
  lemma {:induction false} LineCountCountsReads(utf8: seq<byte> -> Option<string>, s: LoopState, es: seq<Event>)
    ensures Replay(utf8, s, es).lineCount == s.lineCount + Reads(es)
    decreases |es|
  {
    if es != [] {
      LineCountCountsReads(utf8, s, es[..|es| - 1]);
    }
  }

  /**
   * `error_count` is the number of `SerialException`s since the last successful
   * read (counting on from the starting value when there was none), modulo the
   * threshold: the rolling count of consecutive failures.
   */
  /** The failures in a row at the end of `es`, counting on from the counter of `s` when `es` holds no read. */
  function FailureRun(s: LoopState, es: seq<Event>): nat {
    (if TrailingFailures(es) == |es| then s.errorCount else 0) + TrailingFailures(es)
  }

  lemma {:induction false} ErrorCountTracksFailures(utf8: seq<byte> -> Option<string>, s: LoopState, es: seq<Event>)
    requires s.errorCount < Threshold
    ensures Replay(utf8, s, es).errorCount == FailureRun(s, es) % Threshold
    decreases |es|
  {
    if es != [] {
      var init, e := es[..|es| - 1], es[|es| - 1];
      ErrorCountTracksFailures(utf8, s, init);
      assert es == init + [e];
      ErrorCountStep(utf8, s, init, e);
    }
  }

  lemma ErrorCountStep(utf8: seq<byte> -> Option<string>, s: LoopState, init: seq<Event>, e: Event)
    requires s.errorCount < Threshold
    requires Replay(utf8, s, init).errorCount == FailureRun(s, init) % Threshold
    ensures Replay(utf8, s, init + [e]).errorCount == FailureRun(s, init + [e]) % Threshold
  {
    var t := Replay(utf8, s, init);
    ReplayLast(utf8, s, init, e);
    NextErrorCount(utf8, t, e);
    FailureRunStep(s, init, e);
    if e.LinkFailure? {
      ModStep(FailureRun(s, init), t.errorCount);
    }
  }

  lemma ReplayLast(utf8: seq<byte> -> Option<string>, s: LoopState, init: seq<Event>, e: Event)
    ensures Replay(utf8, s, init + [e]) == Next(utf8, Replay(utf8, s, init), e)
  {
    assert (init + [e])[..|init|] == init;
  }

  lemma FailureRunStep(s: LoopState, init: seq<Event>, e: Event)
    ensures FailureRun(s, init + [e]) == if e.Received? then 0 else FailureRun(s, init) + 1
  {
    assert (init + [e])[..|init|] == init;
  }

  lemma NextErrorCount(utf8: seq<byte> -> Option<string>, t: LoopState, e: Event)
    ensures Next(utf8, t, e).errorCount ==
      if e.Received? || t.errorCount + 1 >= Threshold then 0 else t.errorCount + 1
  {
  }

  lemma ModStep(x: nat, c: nat)
    requires c == x % Threshold
    ensures (if c + 1 >= Threshold then 0 else c + 1) == (x + 1) % Threshold
  {
  }

  /** The last `n` events are all `SerialException`s when at least `n` trail. */
  lemma {:induction false} TrailingAreFailures(es: seq<Event>, n: nat)
    requires n <= TrailingFailures(es)
    ensures forall j :: |es| - n <= j < |es| ==> es[j] == LinkFailure
    decreases |es|
  {
    if n > 0 {
      var init := es[..|es| - 1];
      TrailingAreFailures(init, n - 1);
      assert forall j :: |es| - n <= j < |es| - 1 ==> es[j] == init[j];
    }
  }

  /**
   * Starting from a cleared counter, the backoff (the second log entry) is taken
   * only on a `SerialException` that follows nine more with no successful read
   * in between: ten consecutive failures.
   */
  lemma BackoffNeedsTenConsecutive(utf8: seq<byte> -> Option<string>, s: LoopState, es: seq<Event>)
    requires s.errorCount == 0
    requires var t := Replay(utf8, s, es); |Next(utf8, t, LinkFailure).errorLog| == |t.errorLog| + 2
    ensures |es| >= Threshold - 1
    ensures forall j :: |es| - (Threshold - 1) <= j < |es| ==> es[j] == LinkFailure
  {
    var t := Replay(utf8, s, es);
    ErrorCountTracksFailures(utf8, s, es);
    assert t.errorCount == Threshold - 1;
    assert TrailingFailures(es) >= Threshold - 1;
    TrailingAreFailures(es, Threshold - 1);
  }

  /** `k` copies of `x`. */
  function Repeat<T>(x: T, k: nat): (r: seq<T>)
    ensures |r| == k && forall i :: 0 <= i < k ==> r[i] == x
  {
    if k == 0 then [] else Repeat(x, k - 1) + [x]
  }

  /** Fewer than ten consecutive failures from a cleared counter log one message each and count up. */
  lemma {:induction false} ConsecutiveFailures(utf8: seq<byte> -> Option<string>, s: LoopState, k: nat)
    requires s.errorCount + k < Threshold
    ensures var t := Replay(utf8, s, Repeat(LinkFailure, k));
      && t.errorCount == s.errorCount + k && t.lineCount == s.lineCount
      && t.errorLog == s.errorLog + Repeat(SerialErrorMessage, k)
  {
    if k > 0 {
      ConsecutiveFailures(utf8, s, k - 1);
      assert Repeat(LinkFailure, k)[..k - 1] == Repeat(LinkFailure, k - 1);
    }
  }

  /**
   * Ten consecutive failures from a cleared counter log ten link errors and one
   * backoff message, and leave the counter cleared.
   */
  lemma TenConsecutiveFailures(utf8: seq<byte> -> Option<string>, s: LoopState)
    requires s.errorCount == 0
    ensures var t := Replay(utf8, s, Repeat(LinkFailure, Threshold));
      && t.errorCount == 0 && t.lineCount == s.lineCount && !t.connected
      && t.errorLog == s.errorLog + Repeat(SerialErrorMessage, Threshold) + [MaxErrorMessage]
  {
    ConsecutiveFailures(utf8, s, Threshold - 1);
    var es := Repeat(LinkFailure, Threshold);
    assert es[..Threshold - 1] == Repeat(LinkFailure, Threshold - 1);
    assert Repeat(SerialErrorMessage, Threshold) == Repeat(SerialErrorMessage, Threshold - 1) + [SerialErrorMessage];
  }

  /**
   * After a successful read, whatever came before, a single failure does not
   * trigger the backoff: it logs one message and leaves the counter at one.
   */
  lemma ReadThenFailure(utf8: seq<byte> -> Option<string>, s: LoopState, es: seq<Event>, raw: seq<byte>)
    requires s.errorCount < Threshold
    ensures var before := Replay(utf8, s, es);
      var t := Replay(utf8, s, es + [Received(raw), LinkFailure]);
      && t.errorCount == 1 && t.lineCount == before.lineCount + 1
      && t.errorLog == before.errorLog + [SerialErrorMessage]
  {
    var es' := es + [Received(raw), LinkFailure];
    assert es'[..|es'| - 1] == es + [Received(raw)];
    assert (es + [Received(raw)])[..|es|] == es;
    ReceivedResets(utf8, Replay(utf8, s, es), raw);
  }

  lemma NextReceived(utf8: seq<byte> -> Option<string>, s: LoopState, raw: seq<byte>)
    ensures Next(utf8, s, Received(raw)) ==
      LoopState(s.lineCount + 1, 0, s.errorLog + ErrorWrites(ParseGpsData(DecodeLine(utf8, raw))), true)
  {
  }

  lemma NextFailure(utf8: seq<byte> -> Option<string>, s: LoopState)
    ensures Next(utf8, s, LinkFailure) ==
      if s.errorCount + 1 >= Threshold
      then LoopState(s.lineCount, 0, s.errorLog + [SerialErrorMessage] + [MaxErrorMessage], false)
      else LoopState(s.lineCount, s.errorCount + 1, s.errorLog + [SerialErrorMessage], false)
  {
  }

  // ---------------------------------------------------------------- the loop as a class

  /** The loop of `main`, its counters held as fields that each pass updates. */
  class AcquisitionLoop {
    const utf8: seq<byte> -> Option<string>
    var lineCount: nat
    var errorCount: nat
    var errorLog: seq<string>
    var connected: bool

    /** Between passes the consecutive-error counter stays below the threshold. */
    ghost predicate Valid()
      reads this
    {
      errorCount < Threshold
    }

    function State(): LoopState
      reads this
    {
      LoopState(lineCount, errorCount, errorLog, connected)
    }

    /** `main()` starts with both counters at zero and no port open; `errorLog` holds the errors already stored. */
    constructor (utf8: seq<byte> -> Option<string>, errorLog: seq<string>)
      ensures Valid() && this.utf8 == utf8
      ensures State() == LoopState(0, 0, errorLog, false)
    {
      this.utf8 := utf8;
      lineCount, errorCount := 0, 0;
      this.errorLog := errorLog;
      connected := false;
    }

    /** One pass of the loop. */
    method Step(e: Event)
      requires Valid()
      modifies this
      ensures Valid()
      ensures State() == Next(utf8, old(State()), e)
    {
      match e
      case Received(raw) => Receive(raw);
      case LinkFailure => Fail();
    }

    /** The `try` body after a successful read: decode, parse, count the line, clear the error counter. */
    method Receive(raw: seq<byte>)
      requires Valid()
      modifies this
      ensures Valid()
      ensures State() == Next(utf8, old(State()), Received(raw))
    {
      ghost var before := State();
      var line: string;
      match utf8(raw) {
        case Some(t) => line := t;
        case None => line := Latin1(raw);
      }
      NextReceived(utf8, before, raw);
      assert line == DecodeLine(utf8, raw);
      errorLog := errorLog + ErrorWrites(ParseGpsData(line));
      lineCount, errorCount, connected := lineCount + 1, 0, true;
    }

    /** The `SerialException` handler: count and log the error, and back off on the tenth in a row. */
    method Fail()
      requires Valid()
      modifies this
      ensures Valid()
      ensures State() == Next(utf8, old(State()), LinkFailure)
    {
      NextFailure(utf8, State());
      connected := false;
      errorCount := errorCount + 1;
      errorLog := errorLog + [SerialErrorMessage];
      if errorCount >= Threshold {
        errorCount := 0;
        errorLog := errorLog + [MaxErrorMessage];
      }
    }

    /** The loop over a finite prefix of the event stream. */
    method Run(events: seq<Event>)
      requires Valid()
      modifies this
      ensures Valid()
      ensures State() == Replay(utf8, old(State()), events)
    {
      var i := 0;
      while i < |events|
        invariant 0 <= i <= |events|
        invariant Valid()
        invariant State() == Replay(utf8, old(State()), events[..i])
      {
        Step(events[i]);
        assert events[..i + 1][..i] == events[..i];
        i := i + 1;
      }
      assert events[..|events|] == events;
    }
  }
}
