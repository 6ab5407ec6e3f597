/**
 * The Hot Rod client's `ping` operation: one header round trip on a transport,
 * classified into a `PingResult` or an exception.
 *
 * The transport is not modelled; a `Connection` says how each of its three
 * calls (write the request header, flush, read and validate the response
 * header) turns out, and `Execute` records which calls were made and what
 * `execute()` returns or throws.
 */
module Ping {
  import opened Wrappers
  import opened JavaText
  import Util

  /** Operation code of the ping request in the Hot Rod protocol. */
  const PingRequest: int := 0x17

  /** Response status of a request the server handled without error. */
  const NoErrorStatus: Int16 := 0x00

  /** The cache name written when no cache is named: the default cache. */
  const DefaultCacheNameBytes: Util.ByteArray := []

  /** Text whose presence in a client exception's message means the cache is missing. */
  const CacheNotFoundMarker: string := "CacheNotFoundException"

  const UnexpectedStatusPrefix: string := "Unexpected response status: "

  datatype PingResult = Success | CacheDoesNotExist | Fail

  /** A ping bound to one cache name (`None` is a `null` array). */
  datatype PingOperation = PingOperation(cacheName: Option<Util.ByteArray>)

  /** The three-argument constructor: ping the default cache. */
  function NewPing(): (op: PingOperation)
    ensures op.cacheName == Some(DefaultCacheNameBytes)
  {
    NewPingForCache(Some(DefaultCacheNameBytes))
  }

  /** The four-argument constructor: ping the named cache. */
  function NewPingForCache(cacheName: Option<Util.ByteArray>): (op: PingOperation)
    ensures op.cacheName == cacheName
  {
    PingOperation(cacheName)
  }

  /**
   * Exceptions that reach or leave `execute`. `InvalidResponseException` is
   * a `HotRodClientException`; `OtherException` is anything that is not.
   * `RuntimeFault` is a runtime exception raised by the JVM itself.
   */
  datatype Exception =
    | HotRodClientException(message: Option<string>)
    | InvalidResponseException(message: Option<string>)
    | OtherException(message: Option<string>)
    | RuntimeFault(fault: Util.Exception)

  predicate IsClientException(e: Exception) {
    e.HotRodClientException? || e.InvalidResponseException?
  }

  /** How a transport call that returns nothing turns out. */
  datatype StepOutcome = Completed | Raised(exception: Exception)

  /** How reading and validating the response header turns out. */
  datatype ReadOutcome = Status(status: Int16) | ReadRaised(exception: Exception)

  /** The behaviour of the transport for one exchange. */
  datatype Connection = Connection(write: StepOutcome, flush: StepOutcome, read: ReadOutcome)

  /** A call `execute` makes on the transport. */
  datatype Step = WriteHeader(opCode: int, cacheName: Option<Util.ByteArray>) | Flush | ReadHeader

  /** What `execute` returns or throws. */
  type PingOutcome = Outcome<PingResult, Exception>

  /** The calls made, in order, and what `execute` returned or threw. */
  datatype Execution = Execution(steps: seq<Step>, outcome: PingOutcome)

  /** The full exchange of one ping, in the order the calls are made. */
  function Exchange(op: PingOperation): seq<Step> {
    [WriteHeader(PingRequest, op.cacheName), Flush, ReadHeader]
  }

  /**
   * The exception thrown for a status other than `NoErrorStatus`. Its message
   * is a fixed prefix followed by hex digits, so it never contains the
   * cache-missing marker.
   */
  function UnexpectedStatus(status: Int16): (e: Exception)
    ensures e.InvalidResponseException? && e.message.Some?
    ensures !SignalsMissingCache(e)
  {
    var message := UnexpectedStatusPrefix + HexText(status);
    HexTextHasNoCapitalC(status);
    assert 'C' !in UnexpectedStatusPrefix;
    assert 'C' !in message;
    assert CacheNotFoundMarker[0] == 'C';
    MissingCharNotContained(message, CacheNotFoundMarker, 'C');
    InvalidResponseException(Some(message))
  }

  /** The exception a transport call raised first, if any. */
  function FirstRaised(c: Connection): Option<Exception> {
    if c.write.Raised? then Some(c.write.exception)
    else if c.flush.Raised? then Some(c.flush.exception)
    else if c.read.ReadRaised? then Some(c.read.exception)
    else None
  }

  /** The `try` block: the calls made and how the block completes. */
  function TryBlock(op: PingOperation, c: Connection): Execution {
    var exchange := Exchange(op);
    if c.write.Raised? then Execution(exchange[..1], Threw(c.write.exception))
    else if c.flush.Raised? then Execution(exchange[..2], Threw(c.flush.exception))
    else match c.read
      case ReadRaised(e) => Execution(exchange, Threw(e))
      case Status(s) =>
        if s == NoErrorStatus then Execution(exchange, Returned(Success))
        else Execution(exchange, Threw(UnexpectedStatus(s)))
  }

  /**
   * The `catch (HotRodClientException e)` clause. A `null` message makes
   * `getMessage().contains` throw a `NullPointerException`.
   */
  function Catch(o: PingOutcome): PingOutcome {
    match o
    case Returned(_) => o
    case Threw(e) =>
      if !IsClientException(e) then o
      else if e.message.None? then Threw(RuntimeFault(Util.NullPointerException))
      else if Contains(e.message.value, CacheNotFoundMarker) then Returned(CacheDoesNotExist)
      else o
  }

  /** A client exception whose message names a missing cache. */
  predicate SignalsMissingCache(e: Exception) {
    IsClientException(e) && e.message.Some? && Contains(e.message.value, CacheNotFoundMarker)
  }

  /** `PingOperation.execute()`. */
  function Execute(op: PingOperation, c: Connection): (r: Execution)
    // The calls are a prefix of write, flush, read: each at most once, in order, never retried.
    ensures 1 <= |r.steps| <= 3 && r.steps == Exchange(op)[..|r.steps|]
    ensures r.steps[0] == WriteHeader(PingRequest, op.cacheName)
    ensures |r.steps| >= 2 <==> c.write.Completed?
    ensures |r.steps| == 3 <==> c.write.Completed? && c.flush.Completed?
    // `FAIL` is never returned.
    ensures r.outcome != Returned(Fail)
    ensures r.outcome == Returned(Success) <==> FirstRaised(c).None? && c.read.status == NoErrorStatus
    ensures r.outcome == Returned(CacheDoesNotExist) <==> FirstRaised(c).Some? && SignalsMissingCache(FirstRaised(c).value)
    ensures FirstRaised(c).None? && c.read.status != NoErrorStatus ==> r.outcome == Threw(UnexpectedStatus(c.read.status))
    ensures FirstRaised(c).Some? && IsClientException(FirstRaised(c).value) && FirstRaised(c).value.message.None?
            ==> r.outcome == Threw(RuntimeFault(Util.NullPointerException))
    ensures FirstRaised(c).Some? && !IsClientException(FirstRaised(c).value) ==> r.outcome == Threw(FirstRaised(c).value)
    ensures (FirstRaised(c).Some? && IsClientException(FirstRaised(c).value) && FirstRaised(c).value.message.Some?
             && !SignalsMissingCache(FirstRaised(c).value)) ==> r.outcome == Threw(FirstRaised(c).value)
  {
    var t := TryBlock(op, c);
    Execution(t.steps, Catch(t.outcome))
  }

  /** No digit of a hexadecimal numeral is a capital letter. */
  lemma {:induction false} HexTextHasNoCapitalC(x: Int32)
    ensures 'C' !in HexText(x)
  {
    var h := HexText(x);
    forall i | 0 <= i < |h|
      ensures h[i] != 'C'
    {
      assert IsDigitIn(h[i], 16);
    }
  }

  /** The catch clause rethrows the unexpected-status exception unchanged. */
  lemma UnexpectedStatusNotCacheMissing(status: Int16)
    ensures !SignalsMissingCache(UnexpectedStatus(status))
    ensures Catch(Threw(UnexpectedStatus(status))) == Threw(UnexpectedStatus(status))
  {
  }

  /** The status that caused an unexpected-status exception can be read back from its message. */
  lemma UnexpectedStatusReadBack(status: Int16)
    ensures var m := UnexpectedStatus(status).message.value;
            |m| > |UnexpectedStatusPrefix| && m[..|UnexpectedStatusPrefix|] == UnexpectedStatusPrefix
            && Wrap32(ParseNumeral(m[|UnexpectedStatusPrefix|..], 16)) == status
  {
    var m := UnexpectedStatus(status).message.value;
    assert m[|UnexpectedStatusPrefix|..] == HexText(status);
    HexTextReadBack(status);
  }

  /** A negative `short` status is sign-extended before it is printed in hex. */
  lemma UnexpectedStatusOfMinusOne()
    ensures UnexpectedStatus(-1) == InvalidResponseException(Some("Unexpected response status: ffffffff"))
  {
    HexTextOfMinusOne();
    assert UnexpectedStatusPrefix + "ffffffff" == "Unexpected response status: ffffffff";
  }

  /** A ping made with the three-argument constructor writes the default cache name. */
  lemma DefaultPingWritesDefaultCache(c: Connection)
    ensures Execute(NewPing(), c).steps[0] == WriteHeader(PingRequest, Some([]))
  {
  }

  /** A ping whose three calls all complete, with the no-error status, succeeds. */
  lemma HealthyConnectionSucceeds(op: PingOperation)
    ensures Execute(op, Connection(Completed, Completed, Status(NoErrorStatus)))
         == Execution(Exchange(op), Returned(Success))
  {
  }

  /** When writing the header fails, nothing else is sent and nothing is read. */
  lemma FailedWriteStopsExchange(op: PingOperation, e: Exception, flush: StepOutcome, read: ReadOutcome)
    ensures Execute(op, Connection(Raised(e), flush, read)).steps == [WriteHeader(PingRequest, op.cacheName)]
  {
  }
}
