/**
 The server side of one IndexedDB transaction stream. The client's messages, the
 outcome of every send and every answer of the provider are arbitrary; the
 provider stages writes, applies them on a successful commit and drops them on
 an abort.
 */
module TransactionStream {
  import opened Wrappers
  import opened Sorting

  datatype TransactionMode = Readonly | Readwrite

  datatype Kind =
    | Get | GetKey | Add | Put | Delete | Clear | GetAll | GetAllKeys | Count | DeleteRange
    | IndexGet | IndexGetKey | IndexGetAll | IndexGetAllKeys | IndexCount | IndexDelete
    | UnknownKind

  /** An operation; `payload` is what decoding the record of an Add or Put, or an index query, gives. */
  datatype Operation = Operation(requestId: nat, kind: Kind, payload: Option<string>, arguments: string)

  /** An error as the server sees it: does it wrap ErrNotFound, and its status code if it has one. */
  datatype Error = Error(wrapsNotFound: bool, code: Option<nat>)

  const INVALID_ARGUMENT: nat := 3
  const NOT_FOUND: nat := 5
  const FAILED_PRECONDITION: nat := 9

  datatype ClientMessage =
    | Begin(stores: seq<string>, mode: TransactionMode)
    | Operate(op: Option<Operation>)
    | CommitRequest
    | AbortRequest
    | UnsetMessage

  datatype Event = Received(msg: ClientMessage) | EndOfStream | Broken(error: Error, canceled: bool)

  datatype ServerMessage =
    | BeginReply
    | OperationReply(requestId: nat, outcome: Result<string, Error>)
    | CommitReply(error: Option<Error>)
    | AbortReply(error: Option<Error>)

  /** The provider's answer to one operation; a value may still fail to be marshalled. */
  datatype Answer = Refused(error: Error) | Returned(value: string, marshalError: Option<Error>)

  datatype Call = Executed(op: Operation) | Committed | Aborted

  /** The operations that only look at the store, and those that change it. */
  const READ_KINDS: set<Kind> :=
    {Get, GetKey, GetAll, GetAllKeys, Count, IndexGet, IndexGetKey, IndexGetAll, IndexGetAllKeys, IndexCount}

  const WRITE_KINDS: set<Kind> := {Add, Put, Delete, Clear, DeleteRange, IndexDelete}

  /** The reads that do not go through an index. */
  const OBJECT_STORE_READS: set<Kind> := {Get, GetKey, GetAll, GetAllKeys, Count}

  predicate Writes(op: Operation) {
    op.kind in WRITE_KINDS
  }

  // ---- Classifying operations ----

  predicate IsWrite(op: Operation) {
    || op.kind.Add? || op.kind.Put? || op.kind.Delete? || op.kind.Clear?
    || op.kind.DeleteRange? || op.kind.IndexDelete?
  }

  predicate IsRead(op: Operation) {
    || op.kind.Get? || op.kind.GetKey? || op.kind.GetAll? || op.kind.GetAllKeys?
    || op.kind.IndexGet? || op.kind.IndexGetKey? || op.kind.IndexGetAll? || op.kind.IndexGetAllKeys?
    || op.kind.Count? || op.kind.IndexCount?
  }

  predicate ReturnsRecords(op: Operation) {
    || op.kind.Get? || op.kind.GetAll? || op.kind.IndexGet? || op.kind.IndexGetAll?
  }

  predicate TransactionNotFound(e: Error) {
    e.wrapsNotFound || e.code == Some(NOT_FOUND)
  }

  function RequestId(op: Option<Operation>): nat {
    if op.Some? then op.value.requestId else 0
  }

  function ReadonlyError(mode: TransactionMode, op: Option<Operation>): Option<Error> {
    if mode == Readwrite || op.None? then None
    else if IsWrite(op.value) then Some(Error(false, Some(FAILED_PRECONDITION)))
    else None
  }

  /** Operations with a payload that is decoded before the provider is asked. */
  predicate IsDecoded(op: Operation) {
    || op.kind.Add? || op.kind.Put?
    || op.kind.IndexGet? || op.kind.IndexGetKey? || op.kind.IndexGetAll? || op.kind.IndexGetAllKeys?
    || op.kind.IndexCount? || op.kind.IndexDelete?
  }

  /** Why an operation cannot even be put to the provider. */
  function MalformedError(op: Option<Operation>): Option<Error> {
    if op.None? || op.value.kind == UnknownKind then Some(Error(false, Some(INVALID_ARGUMENT)))
    else if IsDecoded(op.value) && op.value.payload.None? then Some(Error(false, None))
    else None
  }

  function Encode(op: Operation, a: Answer): Result<string, Error> {
    match a
    case Refused(e) => Failure(e)
    case Returned(v, m) => if ReturnsRecords(op) && m.Some? then Failure(m.value) else Success(v)
  }

  /** The outcome of an operation, given the answer the provider would give if it is asked. */
  function Outcome(mode: TransactionMode, op: Option<Operation>, a: Answer): Result<string, Error> {
    if ReadonlyError(mode, op).Some? then Failure(ReadonlyError(mode, op).value)
    else if MalformedError(op).Some? then Failure(MalformedError(op).value)
    else Encode(op.value, a)
  }

  predicate Asked(mode: TransactionMode, op: Option<Operation>) {
    ReadonlyError(mode, op).None? && MalformedError(op).None?
  }

  /** Outcomes the transaction survives: success, or a read answered not-found. */
  predicate Survives(mode: TransactionMode, op: Option<Operation>, a: Answer) {
    var r := Outcome(mode, op, a);
    r.Success? || (op.Some? && IsRead(op.value) && TransactionNotFound(r.error))
  }

  /** Only operations the provider executed are survived, and a survived write succeeded. */
  lemma SurvivorsWereExecuted(mode: TransactionMode, op: Option<Operation>, a: Answer)
    requires Survives(mode, op, a)
    ensures op.Some? && Asked(mode, op) && op.value.kind in READ_KINDS + WRITE_KINDS
    ensures Writes(op.value) ==> a.Returned?
    ensures mode == Readonly ==> op.value.kind in READ_KINDS
  {
  }

  /** The provider is asked for every known, decodable operation, except for a write in a readonly transaction. */
  lemma AskedExactly(mode: TransactionMode, op: Option<Operation>)
    ensures Asked(mode, op) <==>
            && op.Some? && op.value.kind in READ_KINDS + WRITE_KINDS
            && (op.value.kind in {Add, Put, IndexDelete} || (op.value.kind in READ_KINDS - OBJECT_STORE_READS) ==>
                  op.value.payload.Some?)
            && (mode == Readonly ==> op.value.kind in READ_KINDS)
  {
  }

  /** A write in a readonly transaction fails with FailedPrecondition, whatever else is wrong with it. */
  lemma ReadonlyRefusesWrites(op: Operation, a: Answer)
    ensures op.kind in WRITE_KINDS ==> Outcome(Readonly, Some(op), a) == Failure(Error(false, Some(9)))
    ensures op.kind in READ_KINDS ==> Outcome(Readonly, Some(op), a) == Outcome(Readwrite, Some(op), a)
  {
  }

  /** An absent or unknown operation is an invalid argument; one that does not decode fails without a status. */
  lemma MalformedOutcome(op: Operation, a: Answer)
    ensures Outcome(Readwrite, None, a) == Outcome(Readonly, None, a) == Failure(Error(false, Some(3)))
    ensures op.kind == UnknownKind ==> Outcome(Readwrite, Some(op), a) == Failure(Error(false, Some(3)))
    ensures op.kind in READ_KINDS + WRITE_KINDS && !Asked(Readwrite, Some(op)) ==>
              Outcome(Readwrite, Some(op), a) == Failure(Error(false, None))
  {
  }

  /** What an operation the provider was asked for comes to. */
  lemma OutcomeOfAnswer(mode: TransactionMode, op: Operation, a: Answer)
    requires Asked(mode, Some(op))
    ensures a.Refused? ==> Outcome(mode, Some(op), a) == Failure(a.error)
    ensures a.Returned? && a.marshalError.None? ==> Outcome(mode, Some(op), a) == Success(a.value)
    ensures a.Returned? && a.marshalError.Some? ==>
              Outcome(mode, Some(op), a) == if op.kind in {Get, GetAll, IndexGet, IndexGetAll}
                                            then Failure(a.marshalError.value) else Success(a.value)
  {
  }

  /** A failure is survived exactly when a read failed with not-found, as a sentinel or as gRPC status 5. */
  lemma SurvivesExactly(mode: TransactionMode, op: Option<Operation>, a: Answer)
    ensures Survives(mode, op, a) <==>
            || Outcome(mode, op, a).Success?
            || (&& op.Some? && op.value.kind in READ_KINDS
                && (Outcome(mode, op, a).error.wrapsNotFound || Outcome(mode, op, a).error.code == Some(5)))
  {
  }

  // ---- The two ends the handler talks to ----

  function EventAt(script: seq<Event>, i: nat): Event {
    if i < |script| then script[i] else EndOfStream
  }

  class Stream {
    const script: seq<Event>
    const delivers: nat -> bool
    var received: nat
    var sent: seq<ServerMessage>

    constructor (script: seq<Event>, delivers: nat -> bool)
      ensures this.script == script && this.delivers == delivers && received == 0 && sent == []
    {
      this.script, this.delivers := script, delivers;
      received, sent := 0, [];
    }

    method Recv() returns (e: Event)
      modifies this`received
      ensures e == EventAt(script, old(received)) && received == old(received) + 1
    {
      e := EventAt(script, received);
      received := received + 1;
    }

    method Send(m: ServerMessage) returns (ok: bool)
      modifies this`sent
      ensures ok == delivers(|old(sent)|) && sent == if ok then old(sent) + [m] else old(sent)
    {
      ok := delivers(|sent|);
      if ok {
        sent := sent + [m];
      }
    }
  }

  function ApplyAll<S>(apply: (S, Operation) -> S, store: S, ops: seq<Operation>): S {
    if ops == [] then store else apply(ApplyAll(apply, store, ops[..|ops| - 1]), ops[|ops| - 1])
  }

  /** The provider's transaction over a durable store of any type. */
  class ProviderTransaction<S> {
    const apply: (S, Operation) -> S
    const answers: nat -> Answer
    const commitError: Option<Error>
    const abortError: Option<Error>
    var durable: S
    var staged: seq<Operation>
    var calls: seq<Call>

    constructor (apply: (S, Operation) -> S, answers: nat -> Answer, commitError: Option<Error>,
                 abortError: Option<Error>, store: S)
      ensures durable == store && staged == [] && calls == []
      ensures this.apply == apply && this.answers == answers
      ensures this.commitError == commitError && this.abortError == abortError
    {
      this.apply, this.answers, this.commitError, this.abortError := apply, answers, commitError, abortError;
      durable, staged, calls := store, [], [];
    }

    method Execute(op: Operation) returns (a: Answer)
      modifies this`staged, this`calls
      ensures a == answers(|old(calls)|) && calls == old(calls) + [Executed(op)]
      ensures staged == if Writes(op) && a.Returned? then old(staged) + [op] else old(staged)
    {
      a := answers(|calls|);
      calls := calls + [Executed(op)];
      if Writes(op) && a.Returned? {
        staged := staged + [op];
      }
    }

    method Commit() returns (err: Option<Error>)
      modifies this`durable, this`staged, this`calls
      ensures err == commitError && calls == old(calls) + [Committed] && staged == []
      ensures durable == if err.None? then ApplyAll(apply, old(durable), old(staged)) else old(durable)
    {
      calls := calls + [Committed];
      if commitError.None? {
        durable := ApplyAll(apply, durable, staged);
      }
      staged := [];
      err := commitError;
    }

    method Abort() returns (err: Option<Error>)
      modifies this`staged, this`calls
      ensures err == abortError && calls == old(calls) + [Aborted] && staged == []
    {
      calls := calls + [Aborted];
      staged := [];
      err := abortError;
    }
  }

  method ExecuteOperation<S>(tx: ProviderTransaction<S>, op: Option<Operation>) returns (r: Result<string, Error>)
    modifies tx`staged, tx`calls
    ensures r == Outcome(Readwrite, op, tx.answers(|old(tx.calls)|))
    ensures tx.calls == if MalformedError(op).None? then old(tx.calls) + [Executed(op.value)] else old(tx.calls)
    ensures tx.staged == if MalformedError(op).None? && Writes(op.value) && tx.answers(|old(tx.calls)|).Returned?
                         then old(tx.staged) + [op.value] else old(tx.staged)
  {
    if MalformedError(op).Some? {
      return Failure(MalformedError(op).value);
    }
    var a := tx.Execute(op.value);
    return Encode(op.value, a);
  }

  /** The readonly gate and then the provider. */
  method TryOperation<S>(tx: ProviderTransaction<S>, mode: TransactionMode, op: Option<Operation>)
    returns (r: Result<string, Error>)
    modifies tx`staged, tx`calls
    ensures r == Outcome(mode, op, tx.answers(|old(tx.calls)|))
    ensures tx.calls == if Asked(mode, op) then old(tx.calls) + [Executed(op.value)] else old(tx.calls)
    ensures tx.staged == if Asked(mode, op) && Writes(op.value) && tx.answers(|old(tx.calls)|).Returned?
                         then old(tx.staged) + [op.value] else old(tx.staged)
  {
    var opErr := ReadonlyError(mode, op);
    if opErr.Some? {
      return Failure(opErr.value);
    }
    r := ExecuteOperation(tx, op);
  }

  // ---- What a run looks like ----

  datatype ServeError =
    | NothingReceived
    | ReceiveFailed(error: Error)
    | SendFailed
    | BadRequest
    | ProviderFailed(error: Error)

  /** Why the handler stopped serving. */
  datatype Ending =
    | Undelivered
    | ClientGone
    | StreamBroken(error: Error)
    | OperationFailed(op: Option<Operation>, error: Error)
    | CommitAsked
    | AbortAsked
    | Unexpected

  function Calls(ops: seq<Operation>): (r: seq<Call>)
    ensures |r| == |ops| && forall i :: 0 <= i < |ops| ==> r[i] == Executed(ops[i])
  {
    if ops == [] then [] else Calls(ops[..|ops| - 1]) + [Executed(ops[|ops| - 1])]
  }

  /** One reply per served operation, in order and under its request id. */
  function Replies(mode: TransactionMode, answers: nat -> Answer, served: seq<Operation>): (r: seq<ServerMessage>)
    ensures |r| == |served| + 1
  {
    if served == [] then [BeginReply]
    else
      var n := |served| - 1;
      Replies(mode, answers, served[..n])
      + [OperationReply(served[n].requestId, Outcome(mode, Some(served[n]), answers(n)))]
  }

  /** The messages that close a run. */
  function Closing(ending: Ending, commitError: Option<Error>, abortError: Option<Error>): seq<ServerMessage> {
    match ending
    case OperationFailed(op, e) => [OperationReply(RequestId(op), Failure(e)), AbortReply(abortError)]
    case CommitAsked => [CommitReply(commitError)]
    case AbortAsked => [AbortReply(abortError)]
    case _ => []
  }

  /**
   The event after the served operations stops the run: it is no operation, or
   an operation whose failure the transaction does not survive.
   */
  predicate StopsRun(mode: TransactionMode, answers: nat -> Answer, n: nat, e: Event, failure: Option<Error>) {
    if failure.None? then !(e.Received? && e.msg.Operate?)
    else
      && e.Received? && e.msg.Operate?
      && Outcome(mode, e.msg.op, answers(n)) == Failure(failure.value)
      && !Survives(mode, e.msg.op, answers(n))
  }

  /** Operation `i` after Begin was received and survived. */
  ghost predicate ServedAt(script: seq<Event>, mode: TransactionMode, answers: nat -> Answer, op: Operation, i: nat) {
    EventAt(script, i + 1) == Received(Operate(Some(op))) && Survives(mode, Some(op), answers(i))
  }

  /** `served` are the operations received after Begin that the transaction survived. */
  ghost predicate Served(script: seq<Event>, mode: TransactionMode, answers: nat -> Answer, served: seq<Operation>) {
    forall i {:trigger ServedAt(script, mode, answers, served[i], i)} ::
      0 <= i < |served| ==> ServedAt(script, mode, answers, served[i], i)
  }

  /** Everything the handler meant to send was sent, or sending stopped at the first failure. */
  ghost predicate SentUpToFailure(delivers: nat -> bool, sent: seq<ServerMessage>, meant: seq<ServerMessage>) {
    sent <= meant && (sent == meant || !delivers(|sent|))
  }

  /** The failing operation reaches the provider only if nothing refused it before. */
  function FailedCall(mode: TransactionMode, ending: Ending): seq<Call> {
    if ending.OperationFailed? && Asked(mode, ending.op) then [Executed(ending.op.value)] else []
  }

  /** Exactly one call finishes the transaction, and it is the last one. */
  ghost predicate FinishedOnce(calls: seq<Call>, commit: bool) {
    && calls != []
    && calls[|calls| - 1] == (if commit then Committed else Aborted)
    && forall i :: 0 <= i < |calls| - 1 ==> calls[i].Executed?
  }

  /** The durable store after a run: untouched, or with every served write applied in order. */
  function StoreAfter<S>(apply: (S, Operation) -> S, store: S, served: seq<Operation>, commits: bool): S {
    if commits then ApplyAll(apply, store, Filter(Writes, served)) else store
  }

  lemma ServeOneMore(mode: TransactionMode, answers: nat -> Answer, served: seq<Operation>, op: Operation)
    ensures Replies(mode, answers, served + [op])
            == Replies(mode, answers, served)
               + [OperationReply(op.requestId, Outcome(mode, Some(op), answers(|served|)))]
    ensures Calls(served + [op]) == Calls(served) + [Executed(op)]
    ensures Filter(Writes, served + [op]) == Filter(Writes, served) + if Writes(op) then [op] else []
  {
    assert (served + [op])[..|served|] == served;
    FilterAppend(Writes, served, [op]);
  }

  /** Receives until the first event that is no message: the end of the stream, a cancellation or another error. */
  method Drain(stream: Stream) returns (status: Result<(), ServeError>)
    modifies stream`received
    ensures old(stream.received) < stream.received
    ensures forall i :: old(stream.received) <= i < stream.received - 1 ==> EventAt(stream.script, i).Received?
    ensures var last := EventAt(stream.script, stream.received - 1);
            && !last.Received?
            && (status.Success? <==> last.EndOfStream? || last.canceled)
            && (status.Failure? ==> status.error == ReceiveFailed(last.error))
  {
    while true
      invariant old(stream.received) <= stream.received
      invariant forall i :: old(stream.received) <= i < stream.received ==> EventAt(stream.script, i).Received?
      decreases |stream.script| - stream.received
    {
      var e := stream.Recv();
      match e
      case EndOfStream => return Success(());
      case Broken(err, canceled) =>
        if canceled {
          return Success(());
        }
        return Failure(ReceiveFailed(err));
      case Received(_) =>
    }
  }

  /** Aborts after a failed operation, reports both, and waits for the client to leave. */
  method FailOperation<S>(stream: Stream, tx: ProviderTransaction<S>, op: Option<Operation>, opErr: Error)
    returns (status: Result<(), ServeError>)
    modifies stream, tx`staged, tx`calls
    ensures tx.calls == old(tx.calls) + [Aborted] && tx.staged == []
    ensures SentUpToFailure(stream.delivers, stream.sent,
                            old(stream.sent) + Closing(OperationFailed(op, opErr), tx.commitError, tx.abortError))
    ensures old(stream.sent) <= stream.sent
    ensures status == Failure(SendFailed) <==> |stream.sent| < |old(stream.sent)| + 2
  {
    var abortErr := tx.Abort();
    var ok := stream.Send(OperationReply(RequestId(op), Failure(opErr)));
    if !ok {
      return Failure(SendFailed);
    }
    ok := stream.Send(AbortReply(abortErr));
    if !ok {
      return Failure(SendFailed);
    }
    status := Drain(stream);
  }

  /** Mid-run: every served operation is replied to, executed and, if it is a write, staged. */
  ghost predicate Serving<S>(stream: Stream, tx: ProviderTransaction<S>, mode: TransactionMode, served: seq<Operation>)
    reads stream, tx
  {
    && stream.sent == Replies(mode, tx.answers, served)
    && tx.calls == Calls(served)
    && tx.staged == Filter(Writes, served)
  }

  /** The reply to the last served operation, or the opening reply, could not be sent. */
  ghost predicate LostReply<S>(stream: Stream, tx: ProviderTransaction<S>, mode: TransactionMode,
                               served: seq<Operation>)
    reads stream, tx
  {
    && stream.sent == (if served == [] then [] else Replies(mode, tx.answers, served[..|served| - 1]))
    && !stream.delivers(|stream.sent|)
    && tx.calls == Calls(served)
  }

  /** The ending an event brings about. */
  function EndingOf(e: Event, failure: Option<Error>): Ending {
    match e
    case EndOfStream => ClientGone
    case Broken(error, _) => StreamBroken(error)
    case Received(Operate(op)) => if failure.Some? then OperationFailed(op, failure.value) else Unexpected
    case Received(CommitRequest) => CommitAsked
    case Received(AbortRequest) => AbortAsked
    case Received(_) => Unexpected
  }

  /** What stopped the receive loop: a reply that could not be sent, or an event that ends the run. */
  datatype Stop = ReplyLost | Stopped(event: Event, failure: Option<Error>)

  ghost predicate StoppedBy<S>(stream: Stream, tx: ProviderTransaction<S>, mode: TransactionMode,
                               served: seq<Operation>, stop: Stop)
    reads stream, tx
  {
    && Served(stream.script, mode, tx.answers, served)
    && match stop
       case ReplyLost => LostReply(stream, tx, mode, served)
       case Stopped(event, failure) =>
         && stream.sent == Replies(mode, tx.answers, served)
         && event == EventAt(stream.script, |served| + 1)
         && StopsRun(mode, tx.answers, |served|, event, failure)
         && tx.calls == Calls(served) + FailedCall(mode, EndingOf(event, failure))
         && (failure.None? ==> tx.staged == Filter(Writes, served))
  }

  lemma ServedOneMore(script: seq<Event>, mode: TransactionMode, answers: nat -> Answer,
                      served: seq<Operation>, op: Operation)
    requires Served(script, mode, answers, served) && Survives(mode, Some(op), answers(|served|))
    requires EventAt(script, |served| + 1) == Received(Operate(Some(op)))
    ensures Served(script, mode, answers, served + [op])
  {
    assert forall i :: 0 <= i < |served| ==> (served + [op])[i] == served[i];
  }

  /** Replies to an operation the transaction survived. */
  method ReplyTo<S>(stream: Stream, tx: ProviderTransaction<S>, mode: TransactionMode, op: Operation,
                    r: Result<string, Error>, ghost served: seq<Operation>)
    returns (delivered: bool)
    requires stream.sent == Replies(mode, tx.answers, served) && r == Outcome(mode, Some(op), tx.answers(|served|))
    requires tx.calls == Calls(served) + [Executed(op)]
    requires tx.staged == Filter(Writes, served) + if Writes(op) then [op] else []
    modifies stream`sent
    ensures delivered ==> Serving(stream, tx, mode, served + [op])
    ensures !delivered ==> LostReply(stream, tx, mode, served + [op])
  {
    ServeOneMore(mode, tx.answers, served, op);
    assert (served + [op])[..|served|] == served;
    delivered := stream.Send(OperationReply(op.requestId, r));
  }

  /** One operation: executed and, when the transaction survives it, replied to. */
  method AnswerOperation<S>(stream: Stream, tx: ProviderTransaction<S>, mode: TransactionMode, op: Option<Operation>,
                            ghost served: seq<Operation>)
    returns (r: Result<string, Error>, survives: bool, delivered: bool)
    requires Serving(stream, tx, mode, served) && Served(stream.script, mode, tx.answers, served)
    requires EventAt(stream.script, |served| + 1) == Received(Operate(op))
    modifies stream`sent, tx`staged, tx`calls
    ensures survives ==> op.Some? && Served(stream.script, mode, tx.answers, served + [op.value])
    ensures survives && delivered ==> Serving(stream, tx, mode, served + [op.value])
    ensures survives && !delivered ==> StoppedBy(stream, tx, mode, served + [op.value], ReplyLost)
    ensures !survives ==>
              && r.Failure? && stream.sent == old(stream.sent)
              && StoppedBy(stream, tx, mode, served, Stopped(Received(Operate(op)), Some(r.error)))
  {
    r := TryOperation(tx, mode, op);
    delivered := false;
    survives := r.Success? || (op.Some? && IsRead(op.value) && TransactionNotFound(r.error));
    if survives {
      SurvivorsWereExecuted(mode, op, tx.answers(|served|));
      ServedOneMore(stream.script, mode, tx.answers, served, op.value);
      delivered := ReplyTo(stream, tx, mode, op.value, r, served);
    }
  }

  function Finish(ending: Ending): seq<Call> {
    match ending
    case Undelivered => []
    case StreamBroken(_) => []
    case CommitAsked => [Committed]
    case _ => [Aborted]
  }

  ghost predicate Progressing<S>(stream: Stream, tx: ProviderTransaction<S>, mode: TransactionMode,
                                 served: seq<Operation>)
    reads stream, tx
  {
    && stream.received == |served| + 1
    && Served(stream.script, mode, tx.answers, served)
    && Serving(stream, tx, mode, served)
  }

  /** Receives one event and answers it, unless it stops the run. */
  method ServeNext<S>(stream: Stream, tx: ProviderTransaction<S>, mode: TransactionMode, ghost served: seq<Operation>)
    returns (stop: Option<Stop>, ghost served': seq<Operation>)
    requires Progressing(stream, tx, mode, served)
    modifies stream, tx`staged, tx`calls
    ensures stop.None? ==> Progressing(stream, tx, mode, served') && old(stream.received) < |stream.script|
    ensures stop.Some? ==> StoppedBy(stream, tx, mode, served', stop.value)
    ensures stop.None? ==> |served'| == |served| + 1
  {
    served' := served;
    var e := stream.Recv();
    if !(e.Received? && e.msg.Operate?) {
      return Some(Stopped(e, None)), served';
    }
    var r, survives, delivered := AnswerOperation(stream, tx, mode, e.msg.op, served);
    if !survives {
      return Some(Stopped(e, Some(r.error))), served';
    }
    served' := served + [e.msg.op.value];
    return if delivered then None else Some(ReplyLost), served';
  }

  /** Opens the exchange and answers operations up to the first event that is not one the transaction survives. */
  method ServeOperations<S>(stream: Stream, tx: ProviderTransaction<S>, mode: TransactionMode)
    returns (stop: Stop, ghost served: seq<Operation>)
    requires stream.received == 1 && stream.sent == [] && tx.calls == [] && tx.staged == []
    modifies stream, tx`staged, tx`calls
    ensures StoppedBy(stream, tx, mode, served, stop)
  {
    served := [];
    var delivered := stream.Send(BeginReply);
    if !delivered {
      return ReplyLost, served;
    }
    while true
      invariant Progressing(stream, tx, mode, served)
      decreases |stream.script| - stream.received
    {
      var next;
      next, served := ServeNext(stream, tx, mode, served);
      if next.Some? {
        return next.value, served;
      }
    }
  }

  /** What the handler returns, by how the run ended and whether everything it meant to send was sent. */
  ghost predicate Answers(status: Result<(), ServeError>, ending: Ending, allSent: bool) {
    match ending
    case Undelivered => status == Failure(SendFailed)
    case ClientGone => status == Success(())
    case StreamBroken(e) => status == Failure(ReceiveFailed(e))
    case Unexpected => status == Failure(BadRequest)
    case OperationFailed(_, _) => status == Failure(SendFailed) <==> !allSent
    case _ => status == if allSent then Success(()) else Failure(SendFailed)
  }

  /** Ends the run on an event: `finished` tells the caller whether the deferred abort is still due. */
  method Conclude<S>(stream: Stream, tx: ProviderTransaction<S>, e: Event, failure: Option<Error>)
    returns (status: Result<(), ServeError>, finished: bool)
    modifies stream, tx
    ensures var ending := EndingOf(e, failure);
            && finished == (Finish(ending) != []) && (finished ==> tx.staged == [])
            && tx.calls == old(tx.calls) + Finish(ending)
            && SentUpToFailure(stream.delivers, stream.sent,
                               old(stream.sent) + Closing(ending, tx.commitError, tx.abortError))
            && old(stream.sent) <= stream.sent
            && tx.durable == (if ending.CommitAsked? && tx.commitError.None?
                              then ApplyAll(tx.apply, old(tx.durable), old(tx.staged)) else old(tx.durable))
            && Answers(status, ending,
                       |stream.sent| == |old(stream.sent)| + |Closing(ending, tx.commitError, tx.abortError)|)
  {
    finished := true;
    match e
    case EndOfStream =>
      var _ := tx.Abort();
      status := Success(());
    case Broken(error, _) =>
      finished := false;
      status := Failure(ReceiveFailed(error));
    case Received(msg) =>
      if msg.Operate? && failure.Some? {
        status := FailOperation(stream, tx, msg.op, failure.value);
      } else if msg.CommitRequest? {
        var commitErr := tx.Commit();
        var ok := stream.Send(CommitReply(commitErr));
        status := if ok then Success(()) else Failure(SendFailed);
      } else if msg.AbortRequest? {
        var abortErr := tx.Abort();
        var ok := stream.Send(AbortReply(abortErr));
        status := if ok then Success(()) else Failure(SendFailed);
      } else {
        var _ := tx.Abort();
        status := Failure(BadRequest);
      }
  }

  /**
   A run as the client sees it: the served operations are those of the script up
   to the event that ended the run, every reply was sent up to the first send that
   failed, and the status says how it ended.
   */
  ghost predicate Exchanged(script: seq<Event>, delivers: nat -> bool, answers: nat -> Answer, mode: TransactionMode,
                            served: seq<Operation>, ending: Ending, failure: Option<Error>,
                            status: Result<(), ServeError>, sent: seq<ServerMessage>, closing: seq<ServerMessage>)
  {
    && Served(script, mode, answers, served)
    && (!ending.Undelivered? ==>
          var e := EventAt(script, |served| + 1);
          ending == EndingOf(e, failure) && StopsRun(mode, answers, |served|, e, failure))
    && (ending.Undelivered? <==> |sent| < |Replies(mode, answers, served)|)
    && SentUpToFailure(delivers, sent, Replies(mode, answers, served) + closing)
    && Answers(status, ending, sent == Replies(mode, answers, served) + closing)
  }

  /** Serves a transaction that has begun, leaving a broken run for the deferred abort. */
  method Serve<S>(stream: Stream, tx: ProviderTransaction<S>, mode: TransactionMode)
    returns (status: Result<(), ServeError>, finished: bool,
             ghost served: seq<Operation>, ghost ending: Ending, ghost failure: Option<Error>)
    requires stream.received == 1 && stream.sent == [] && tx.calls == [] && tx.staged == []
    modifies stream, tx
    ensures Exchanged(stream.script, stream.delivers, tx.answers, mode, served, ending, failure, status, stream.sent,
                      Closing(ending, tx.commitError, tx.abortError))
    ensures finished == (Finish(ending) != []) && (finished ==> tx.staged == [])
    ensures tx.calls == Calls(served) + FailedCall(mode, ending) + Finish(ending)
    ensures tx.durable == StoreAfter(tx.apply, old(tx.durable), served, ending.CommitAsked? && tx.commitError.None?)
  {
    finished, ending, failure := false, Undelivered, None;
    var stop;
    stop, served := ServeOperations(stream, tx, mode);
    if stop.ReplyLost? {
      status := Failure(SendFailed);
    } else {
      failure, ending := stop.failure, EndingOf(stop.event, stop.failure);
      status, finished := Conclude(stream, tx, stop.event, stop.failure);
    }
  }

  /** A transaction begins on a Begin that names a store and that the provider accepts. */
  function Open(script: seq<Event>, beginError: Option<Error>): Result<TransactionMode, ServeError> {
    match EventAt(script, 0)
    case EndOfStream => Failure(NothingReceived)
    case Broken(e, _) => Failure(ReceiveFailed(e))
    case Received(Begin(stores, mode)) =>
      if stores == [] then Failure(BadRequest)
      else if beginError.Some? then Failure(ProviderFailed(beginError.value))
      else Success(mode)
    case Received(_) => Failure(BadRequest)
  }

  /** Exactly which streams open a transaction, in which mode, and how the others are refused. */
  lemma OpensExactly(script: seq<Event>, beginError: Option<Error>, mode: TransactionMode)
    ensures Open(script, beginError) == Success(mode) <==>
            && beginError.None? && script != [] && script[0].Received? && script[0].msg.Begin?
            && script[0].msg.stores != [] && script[0].msg.mode == mode
    ensures script == [] ==> Open(script, beginError) == Failure(NothingReceived)
    ensures script != [] && script[0].EndOfStream? ==> Open(script, beginError) == Failure(NothingReceived)
    ensures script != [] && script[0].Broken? ==> Open(script, beginError) == Failure(ReceiveFailed(script[0].error))
    ensures script != [] && script[0].Received? && (script[0].msg.Begin? ==> script[0].msg.stores == []) ==>
              Open(script, beginError) == Failure(BadRequest)
    ensures (&& beginError.Some? && script != [] && script[0].Received? && script[0].msg.Begin?
             && script[0].msg.stores != [])
            ==> Open(script, beginError) == Failure(ProviderFailed(beginError.value))
  {
  }

  method ReceiveBegin(stream: Stream, beginError: Option<Error>) returns (r: Result<TransactionMode, ServeError>)
    requires stream.received == 0
    modifies stream`received
    ensures r == Open(stream.script, beginError) && stream.received == 1
  {
    var first := stream.Recv();
    if first.EndOfStream? {
      return Failure(NothingReceived);
    }
    if first.Broken? {
      return Failure(ReceiveFailed(first.error));
    }
    if !first.msg.Begin? || first.msg.stores == [] {
      return Failure(BadRequest);
    }
    if beginError.Some? {
      return Failure(ProviderFailed(beginError.value));
    }
    return Success(first.msg.mode);
  }

  /** The calls of a run: the served operations, perhaps the failing one, and one finishing call. */
  function RunCalls(mode: TransactionMode, served: seq<Operation>, ending: Ending): seq<Call> {
    Calls(served) + FailedCall(mode, ending) + [if ending.CommitAsked? then Committed else Aborted]
  }

  ghost predicate OnlyReads(calls: seq<Call>) {
    forall i :: 0 <= i < |calls| && calls[i].Executed? ==> calls[i].op.kind in READ_KINDS
  }

  /** In a readonly transaction only reads reach the provider. */
  lemma ReadonlyRunsOnlyRead(script: seq<Event>, answers: nat -> Answer, served: seq<Operation>, ending: Ending)
    requires Served(script, Readonly, answers, served)
    ensures OnlyReads(RunCalls(Readonly, served, ending))
  {
    forall i | 0 <= i < |served| ensures served[i].kind in READ_KINDS {
      assert ServedAt(script, Readonly, answers, served[i], i);
      SurvivorsWereExecuted(Readonly, Some(served[i]), answers(i));
    }
    if ending.OperationFailed? { AskedExactly(Readonly, ending.op); }
  }

  /** A write ends a readonly run: it fails with FailedPrecondition, is never executed, and the run aborts. */
  lemma ReadonlyWriteEndsRun(answers: nat -> Answer, served: seq<Operation>, op: Operation, failure: Option<Error>)
    requires op.kind in WRITE_KINDS
    requires StopsRun(Readonly, answers, |served|, Received(Operate(Some(op))), failure)
    ensures failure == Some(Error(false, Some(9)))
    ensures var ending := EndingOf(Received(Operate(Some(op))), failure);
            && ending == OperationFailed(Some(op), Error(false, Some(9)))
            && RunCalls(Readonly, served, ending) == Calls(served) + [Aborted]
  {
    ReadonlyRefusesWrites(op, answers(|served|));
    WritesAreNotAsked(op);
    assert Calls(served) + [] == Calls(served);
  }

  lemma WritesAreNotAsked(op: Operation)
    requires op.kind in WRITE_KINDS
    ensures !Asked(Readonly, Some(op))
  {
  }

  /** No readonly run gets past a write: the run stops at it or before it. */
  lemma ReadonlyStopsAtWrite(script: seq<Event>, answers: nat -> Answer, served: seq<Operation>, i: nat, op: Operation)
    requires Served(script, Readonly, answers, served)
    requires EventAt(script, i + 1) == Received(Operate(Some(op))) && op.kind in WRITE_KINDS
    ensures |served| <= i
  {
    if i < |served| {
      assert ServedAt(script, Readonly, answers, served[i], i);
      SurvivorsWereExecuted(Readonly, Some(served[i]), answers(i));
    }
  }

  /** Every run of a begun transaction has exactly one finishing call, and it is the last. */
  lemma RunFinishesOnce(mode: TransactionMode, served: seq<Operation>, ending: Ending)
    ensures FinishedOnce(RunCalls(mode, served, ending), ending.CommitAsked?)
  {
  }

  /** The calls of a run, with the deferred abort made if it was still due. */
  lemma CallsOfRun(script: seq<Event>, mode: TransactionMode, answers: nat -> Answer,
                   served: seq<Operation>, ending: Ending)
    requires Served(script, mode, answers, served)
    ensures Calls(served) + FailedCall(mode, ending) + Finish(ending) + (if Finish(ending) == [] then [Aborted] else [])
            == RunCalls(mode, served, ending)
    ensures FinishedOnce(RunCalls(mode, served, ending), ending.CommitAsked?)
    ensures mode == Readonly ==> OnlyReads(RunCalls(mode, served, ending))
  {
    RunFinishesOnce(mode, served, ending);
    if mode == Readonly { ReadonlyRunsOnlyRead(script, answers, served, ending); }
  }

  /** Which event brings about which ending, and what the run then does last. */
  lemma EndingExactly(e: Event, failure: Option<Error>)
    ensures EndingOf(e, failure).CommitAsked? <==> e == Received(CommitRequest)
    ensures EndingOf(e, failure).AbortAsked? <==> e == Received(AbortRequest)
    ensures EndingOf(e, failure).ClientGone? <==> e.EndOfStream?
    ensures EndingOf(e, failure).StreamBroken? <==> e.Broken?
    ensures EndingOf(e, failure).OperationFailed? <==> e.Received? && e.msg.Operate? && failure.Some?
    ensures !EndingOf(e, failure).Undelivered?
  {
  }

  /**
   The messages of a run: the opening reply, one reply per served operation in
   order and under its id, the reply to a failed operation, and at most one
   closing reply, which carries the provider's error.
   */
  lemma MessageShape(mode: TransactionMode, answers: nat -> Answer, served: seq<Operation>, ending: Ending,
                     commitError: Option<Error>, abortError: Option<Error>)
    ensures var meant := Replies(mode, answers, served) + Closing(ending, commitError, abortError);
            var n := |served| + 1;
            && |meant| >= n && meant[0] == BeginReply
            && (forall i :: 0 <= i < |served| ==>
                  meant[i + 1] == OperationReply(served[i].requestId, Outcome(mode, Some(served[i]), answers(i))))
            && meant[n..] == match ending
                             case CommitAsked => [CommitReply(commitError)]
                             case AbortAsked => [AbortReply(abortError)]
                             case OperationFailed(op, e) =>
                               [OperationReply(if op.Some? then op.value.requestId else 0, Failure(e)),
                                AbortReply(abortError)]
                             case _ => []
  {
    RepliesInOrder(mode, answers, served);
  }

  lemma {:induction false} RepliesInOrder(mode: TransactionMode, answers: nat -> Answer, served: seq<Operation>)
    ensures Replies(mode, answers, served)[0] == BeginReply
    ensures forall i :: 0 <= i < |served| ==>
              Replies(mode, answers, served)[i + 1]
              == OperationReply(served[i].requestId, Outcome(mode, Some(served[i]), answers(i)))
  {
    if served != [] {
      var n := |served| - 1;
      RepliesInOrder(mode, answers, served[..n]);
      assert forall i :: 0 <= i < n ==> served[..n][i] == served[i];
    }
  }

  /**
   The whole handler. Whatever the client sends and wherever sending, receiving
   or the provider fails: a transaction that began is committed or aborted
   exactly once, as its last call; the store is left alone or gets every served
   write in order, the latter only when the client asked to commit and nothing
   but reads answered not-found had failed before; and the replies are one per
   served operation between the opening and the closing ones.
   */
  method Transaction<S>(stream: Stream, beginError: Option<Error>, tx: ProviderTransaction<S>)
    returns (status: Result<(), ServeError>,
             ghost served: seq<Operation>, ghost ending: Ending, ghost failure: Option<Error>)
    requires stream.received == 0 && stream.sent == [] && tx.calls == [] && tx.staged == []
    modifies stream, tx
    ensures tx.staged == []
    ensures Open(stream.script, beginError).Failure? ==>
              && status == Failure(Open(stream.script, beginError).error)
              && tx.calls == [] && stream.sent == [] && tx.durable == old(tx.durable)
    ensures Open(stream.script, beginError).Success? ==>
              var mode := Open(stream.script, beginError).value;
              && Exchanged(stream.script, stream.delivers, tx.answers, mode, served, ending, failure,
                           status, stream.sent, Closing(ending, tx.commitError, tx.abortError))
              && tx.calls == RunCalls(mode, served, ending)
              && FinishedOnce(tx.calls, ending.CommitAsked?)
              && (mode == Readonly ==> OnlyReads(tx.calls))
              && tx.durable == StoreAfter(tx.apply, old(tx.durable), served,
                                          ending.CommitAsked? && tx.commitError.None?)
  {
    served, ending, failure := [], Undelivered, None;
    var begun := ReceiveBegin(stream, beginError);
    if begun.Failure? {
      return Failure(begun.error), served, ending, failure;
    }
    var finished;
    status, finished, served, ending, failure := Serve(stream, tx, begun.value);
    CallsOfRun(stream.script, begun.value, tx.answers, served, ending);
    if !finished {
      var _ := tx.Abort();
    }
  }
}
