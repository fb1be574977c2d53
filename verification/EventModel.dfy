/**
 Rows of the event backbone.  The attempt, consumer-state and dead-letter tables
 are grouped under the outbox row their foreign key names.
 */
module EventModel {
  import opened Options

  type EventId = nat

  datatype Priority = Critical | High | Normal | Low | Background

  datatype EventStatus =
    | Pending
    | Locked
    | Dispatched
    | FailedRetryable
    | DeadLettered
    | DiscardedInvalid

  datatype Row = Row(
    eventType: string,
    idempotencyKey: string,
    priority: Priority,
    occurredAt: int,
    status: EventStatus,
    availableAt: int,
    lockedAt: Option<int>,
    lockedBy: string,
    dispatchedAt: Option<int>)

  datatype AttemptStatus = AttemptStarted | AttemptSucceeded | AttemptFailedRetryable | AttemptDeadLettered

  datatype Attempt = Attempt(number: nat, dispatcher: string, status: AttemptStatus, finishedAt: Option<int>)

  datatype ConsumerStatus = Started | Processed | Failed

  datatype DeadLetterReason = MaxRetriesExceeded | PermanentFailure

  datatype DeadLetter = DeadLetter(reason: DeadLetterReason, failedAfterAttempts: nat)

  /** One finished handler invocation. */
  datatype Call = Call(consumer: string, returned: bool)

  /**
   What happened to an event, kept so that properties can speak about it.  No
   decision of the relay reads it.
   `interruptions` counts relay deaths while an attempt on the event was open;
   `lostRecord` says that one of them fell between saving the dead-lettered
   status and creating the dead-letter row; `stuck` holds the consumers whose row one
   of them left started.
   */
  datatype History = History(
    retries: nat, interruptions: nat, lostRecord: bool, stuck: set<string>, calls: seq<Call>)

  datatype Event = Event(
    row: Row,
    attempts: seq<Attempt>,
    consumers: map<string, ConsumerStatus>,
    deadLetters: seq<DeadLetter>,
    history: History)

  /** How often the handler of `c` has returned normally. */
  function Returns(calls: seq<Call>, c: string): nat {
    if calls == [] then 0
    else
      var last := calls[|calls| - 1];
      Returns(calls[..|calls| - 1], c) + (if last.consumer == c && last.returned then 1 else 0)
  }

  lemma ReturnsOfOneMore(calls: seq<Call>, call: Call, c: string)
    ensures Returns(calls + [call], c) ==
            Returns(calls, c) + (if call.consumer == c && call.returned then 1 else 0)
  {
    assert (calls + [call])[..|calls|] == calls;
  }
}
