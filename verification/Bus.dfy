/** The event bus: message headers on the way out, and the acknowledgement, redelivery and
    dead-letter protocol on the way in. The broker redelivers a message that was neither
    acknowledged nor terminated, at most `maxDeliver` times. */
module Bus {

  // ----- publishing ---------------------------------------------------------

  const MESSAGE_ID := "Nats-Msg-Id"

  /** Headers of a published event: the caller's non-empty ones, and always the event's own id as
      message id, whatever the caller passed under that name. */
  method PublishHeaders(id: string, headers: map<string, string>) returns (out: map<string, string>)
    ensures "Nats-Msg-Id" in out && out["Nats-Msg-Id"] == id
    ensures forall key :: key in out && key != MESSAGE_ID ==> key in headers && out[key] == headers[key]
    ensures forall key :: key in headers && key != MESSAGE_ID ==>
              (key in out <==> key != "" && headers[key] != "")
  {
    out := map[MESSAGE_ID := id];
    var remaining := headers.Keys;
    while remaining != {}
      invariant remaining <= headers.Keys
      invariant MESSAGE_ID in out && out[MESSAGE_ID] == id
      invariant forall key :: key in out && key != MESSAGE_ID ==> key in headers && out[key] == headers[key]
      invariant forall key :: key in headers - remaining && key != MESSAGE_ID ==>
                  (key in out <==> key != "" && headers[key] != "")
      invariant forall key :: key in out && key != MESSAGE_ID ==> key !in remaining
      decreases remaining
    {
      var key :| key in remaining;
      remaining := remaining - {key};
      if key == "" || headers[key] == "" || key == MESSAGE_ID {
        continue;
      }
      out := out[key := headers[key]];
    }
  }

  // ----- consuming ----------------------------------------------------------

  const DLQ_PREFIX := "kmap.dlq."
  const ROOT_PREFIX := "kmap."

  predicate IsDLQ(subject: string) {
    DLQ_PREFIX <= subject
  }

  function TrimPrefix(subject: string, prefix: string): string {
    if prefix <= subject then subject[|prefix|..] else subject
  }

  /** The dead-letter subject of an event of the program is its own subject with the prefix replaced, so
      that different subjects stay apart; and every dead-letter subject is recognised as one. */
  lemma DeadLetterSubjects(name: string, other: string, anything: string)
    ensures TrimPrefix(ROOT_PREFIX + name, ROOT_PREFIX) == name
    ensures !(ROOT_PREFIX <= anything) ==> TrimPrefix(anything, ROOT_PREFIX) == anything
    ensures DLQ_PREFIX + TrimPrefix(ROOT_PREFIX + name, ROOT_PREFIX) == "kmap.dlq." + name
    ensures IsDLQ(DLQ_PREFIX + anything)
    ensures DLQ_PREFIX + name == DLQ_PREFIX + other ==> name == other
  {
    assert (ROOT_PREFIX + name)[|ROOT_PREFIX|..] == name;
    assert (DLQ_PREFIX + name)[|DLQ_PREFIX|..] == name && (DLQ_PREFIX + other)[|DLQ_PREFIX|..] == other;
  }

  type Positive = n: nat | n > 0 witness 1

  const DEFAULT_MAX_DELIVER: Positive := 5

  datatype DeadLetter = DeadLetter(subject: string, reason: Reason, origin: string)

  datatype Reason = Decode | MaxDeliveries | TerminatedByHandler

  datatype Verdict = Ack | Nack | Term

  /** What the handling of one delivery meets: a payload that does not decode; a handler verdict, with
      or without readable delivery metadata; or no answer, because the consumer died or timed out. */
  datatype Event = Undecodable | Handled(verdict: Verdict, metadata: bool) | NoAnswer

  /** One delivery: what it meets, whether a dead letter sent for it would be written, and whether its
      acknowledgement or termination reaches the broker. The consumer may die before either. */
  datatype Attempt = Attempt(event: Event, writes: bool, settles: bool)

  datatype Status = Waiting | Acked | Terminated

  predicate IsAck(attempt: Attempt) {
    attempt.event.Handled? && attempt.event.verdict.Ack?
  }

  /** Delivery number `n` is given up: a dead letter, then termination. */
  predicate GivenUp(attempt: Attempt, n: nat, maxDeliver: nat) {
    || attempt.event.Undecodable?
    || (attempt.event.Handled? && attempt.event.verdict.Term?)
    || (attempt.event.Handled? && attempt.event.verdict.Nack? && attempt.event.metadata && n >= maxDeliver)
  }

  /** Delivery number `n` leaves the message to be redelivered. */
  predicate Retried(attempt: Attempt, n: nat, maxDeliver: nat) {
    !attempt.settles || !(IsAck(attempt) || GivenUp(attempt, n, maxDeliver))
  }

  /** Every one of the first `n` attempts was retried. */
  ghost predicate AllRetried(attempts: seq<Attempt>, n: nat, maxDeliver: nat)
    requires n <= |attempts|
  {
    forall i :: 0 <= i < n ==> Retried(attempts[i], i + 1, maxDeliver)
  }

  /** The first attempt that is not retried is number `k`. */
  ghost predicate SettledAt(attempts: seq<Attempt>, k: nat, maxDeliver: nat) {
    k < |attempts| && AllRetried(attempts, k, maxDeliver) && !Retried(attempts[k], k + 1, maxDeliver)
  }

  /** Attempt `i` leaves a dead letter, whether or not the message is terminated afterwards. */
  predicate Leaves(attempts: seq<Attempt>, i: nat, maxDeliver: nat)
    requires i < |attempts|
  {
    GivenUp(attempts[i], i + 1, maxDeliver) && attempts[i].writes
  }

  /** The letters that the first `n` attempts leave; there are none for a message that comes from the
      dead-letter stream. */
  function LettersOf(subject: string, attempts: seq<Attempt>, n: nat, maxDeliver: nat): seq<DeadLetter>
    requires n <= |attempts|
  {
    if n == 0 then []
    else
      LettersOf(subject, attempts, n - 1, maxDeliver) +
      if Leaves(attempts, n - 1, maxDeliver) && !IsDLQ(subject) then [LetterFor(subject, attempts[n - 1])] else []
  }

  function LetterFor(subject: string, attempt: Attempt): DeadLetter {
    DeadLetter(DLQ_PREFIX + TrimPrefix(subject, ROOT_PREFIX), ReasonFor(attempt.event), subject)
  }

  /** What the letter for an event of the program says: its own name below the dead-letter prefix, where
      it came from, and why it was given up. */
  lemma LetterSays(name: string, attempt: Attempt, n: nat, maxDeliver: nat)
    requires GivenUp(attempt, n, maxDeliver)
    ensures
      var letter := LetterFor("kmap." + name, attempt);
      && letter.subject == "kmap.dlq." + name && letter.origin == "kmap." + name
      && (letter.reason == Decode <==> attempt.event.Undecodable?)
      && (letter.reason == TerminatedByHandler <==> attempt.event.Handled? && attempt.event.verdict.Term?)
      && (letter.reason == MaxDeliveries <==> attempt.event.Handled? && attempt.event.verdict.Nack?)
  {
    DeadLetterSubjects(name, name, name);
  }

  /** The reason recorded when an attempt ends in the dead-letter stream. */
  function ReasonFor(event: Event): Reason {
    match event
    case Undecodable => Decode
    case NoAnswer => MaxDeliveries
    case Handled(verdict, _) => if verdict.Term? then TerminatedByHandler else MaxDeliveries
  }

  /** One message on one durable consumer. */
  class Delivery {
    const subject: string
    const maxDeliver: Positive
    var status: Status
    var delivered: nat
    var letters: seq<DeadLetter>

    constructor (subject: string, configured: int)
      ensures this.subject == subject
      ensures this.maxDeliver == if configured > 0 then configured else 5
      ensures status == Waiting && delivered == 0 && letters == []
    {
      this.subject := subject;
      this.maxDeliver := if configured > 0 then configured else DEFAULT_MAX_DELIVER;
      status, delivered, letters := Waiting, 0, [];
    }

    /** Sends a copy to the dead-letter stream, unless the message came from there. A failure of
        that send is ignored. */
    method SendDeadLetter(reason: Reason, writes: bool)
      modifies this`letters
      ensures letters == old(letters) +
                if IsDLQ(subject) || !writes then []
                else [DeadLetter(DLQ_PREFIX + TrimPrefix(subject, ROOT_PREFIX), reason, subject)]
    {
      if IsDLQ(subject) {
        return;
      }
      if writes {
        letters := letters + [DeadLetter(DLQ_PREFIX + TrimPrefix(subject, ROOT_PREFIX), reason, subject)];
      }
    }

    /** Terminates the message, unless that does not reach the broker. */
    method Terminate(settles: bool)
      modifies this`status
      ensures status == if settles then Terminated else old(status)
    {
      if settles {
        status := Terminated;
      }
    }

    /** Handles delivery number `delivered`. */
    method Handle(attempt: Attempt)
      requires status == Waiting
      modifies this`status, this`letters
      ensures status == Waiting <==> Retried(attempt, delivered, maxDeliver)
      ensures status == Acked <==> IsAck(attempt) && attempt.settles
      ensures letters == old(letters) +
                if GivenUp(attempt, delivered, maxDeliver) && attempt.writes && !IsDLQ(subject)
                then [LetterFor(subject, attempt)] else []
    {
      match attempt.event
      case Undecodable =>
        SendDeadLetter(Decode, attempt.writes);
        Terminate(attempt.settles);
      case NoAnswer =>
      case Handled(verdict, metadata) =>
        var count := if metadata then delivered else 0;
        match verdict
        case Ack =>
          status := if attempt.settles then Acked else Waiting;
        case Nack =>
          if count >= maxDeliver {
            SendDeadLetter(MaxDeliveries, attempt.writes);
            Terminate(attempt.settles);
            return;
          }
        case Term =>
          SendDeadLetter(TerminatedByHandler, attempt.writes);
          Terminate(attempt.settles);
    }

    /** The broker delivers the message again and again until it is settled or used up. */
    method Consume(attempts: seq<Attempt>)
      requires status == Waiting && delivered == 0 && letters == []
      modifies this
      ensures delivered <= maxDeliver && delivered <= |attempts|
      ensures status == Waiting ==>
                (delivered == maxDeliver || delivered == |attempts|) && AllRetried(attempts, delivered, maxDeliver)
      ensures status != Waiting ==> delivered > 0 && SettledAt(attempts, delivered - 1, maxDeliver)
      ensures status != Waiting ==> (status == Acked <==> IsAck(attempts[delivered - 1]))
      ensures letters == LettersOf(subject, attempts, delivered, maxDeliver)
      ensures |attempts| >= maxDeliver ==>
                (status != Acked && letters == [] <==> Lost(attempts, maxDeliver, IsDLQ(subject)))
    {
      while status == Waiting && delivered < maxDeliver && delivered < |attempts|
        invariant delivered <= maxDeliver && delivered <= |attempts|
        invariant status == Waiting ==> AllRetried(attempts, delivered, maxDeliver)
        invariant status != Waiting ==> delivered > 0 && SettledAt(attempts, delivered - 1, maxDeliver)
        invariant status != Waiting ==> (status == Acked <==> IsAck(attempts[delivered - 1]))
        invariant letters == LettersOf(subject, attempts, delivered, maxDeliver)
        decreases |attempts| - delivered, status == Waiting
      {
        delivered := delivered + 1;
        Handle(attempts[delivered - 1]);
      }
      if |attempts| >= maxDeliver {
        NoLetterIff(subject, attempts, delivered, maxDeliver);
        UsedUpIff(attempts, maxDeliver);
        if status != Waiting {
          SettledOnce(attempts, delivered - 1, maxDeliver);
        }
      }
    }
  }

  // ----- how a message can end ----------------------------------------------

  /** All deliveries are used up without one that settles the message: the last one got no answer, was
      refused without readable metadata, or could not be reported; the earlier ones were refused, not
      answered, or not reported. */
  ghost predicate UsedUp(attempts: seq<Attempt>, maxDeliver: nat)
    requires 0 < maxDeliver <= |attempts|
  {
    var last := attempts[maxDeliver - 1];
    && (last.event.NoAnswer? || last.event == Handled(Nack, false) || !last.settles)
    && forall i :: 0 <= i < maxDeliver - 1 ==>
         || attempts[i].event.NoAnswer?
         || (attempts[i].event.Handled? && attempts[i].event.verdict.Nack?)
         || !attempts[i].settles
  }

  /** No delivery settles the message exactly when they are used up. */
  lemma UsedUpIff(attempts: seq<Attempt>, maxDeliver: nat)
    requires 0 < maxDeliver <= |attempts|
    ensures AllRetried(attempts, maxDeliver, maxDeliver) <==> UsedUp(attempts, maxDeliver)
  {
    var last := attempts[maxDeliver - 1];
    assert Retried(last, maxDeliver, maxDeliver) <==>
        last.event.NoAnswer? || last.event == Handled(Nack, false) || !last.settles;
    if AllRetried(attempts, maxDeliver, maxDeliver) {
      forall i | 0 <= i < maxDeliver - 1
        ensures || attempts[i].event.NoAnswer?
                || (attempts[i].event.Handled? && attempts[i].event.verdict.Nack?)
                || !attempts[i].settles
      {
        assert Retried(attempts[i], i + 1, maxDeliver);
      }
    }
  }

  /** The attempt that settles a message is the only one, and the deliveries are not used up. */
  lemma SettledOnce(attempts: seq<Attempt>, k: nat, maxDeliver: nat)
    requires k < maxDeliver <= |attempts| && SettledAt(attempts, k, maxDeliver)
    ensures !AllRetried(attempts, maxDeliver, maxDeliver)
    ensures forall m :: 0 <= m < maxDeliver && SettledAt(attempts, m, maxDeliver) ==> m == k
  {
    forall m | 0 <= m < maxDeliver && SettledAt(attempts, m, maxDeliver) ensures m == k {
      assert Retried(attempts[k], k + 1, maxDeliver) || m <= k;
      assert Retried(attempts[m], m + 1, maxDeliver) || k <= m;
    }
  }

  /** None of the first `n` attempts leaves a dead letter. */
  ghost predicate NoneLeaves(attempts: seq<Attempt>, n: nat, maxDeliver: nat)
    requires n <= |attempts|
  {
    forall i :: 0 <= i < n ==> !Leaves(attempts, i, maxDeliver)
  }

  lemma {:induction false} NoLetterIff(subject: string, attempts: seq<Attempt>, n: nat, maxDeliver: nat)
    requires n <= |attempts|
    ensures LettersOf(subject, attempts, n, maxDeliver) == [] <==> IsDLQ(subject) || NoneLeaves(attempts, n, maxDeliver)
  {
    if n > 0 {
      NoLetterIff(subject, attempts, n - 1, maxDeliver);
    }
  }

  /** A message ends with neither an acknowledgement nor a dead letter exactly when its deliveries are
      used up, or the one that settles it is not an acknowledgement, and no letter was written on the
      way: none can be for a message from the dead-letter stream. */
  ghost predicate Lost(attempts: seq<Attempt>, maxDeliver: nat, fromDLQ: bool)
    requires 0 < maxDeliver <= |attempts|
  {
    || (UsedUp(attempts, maxDeliver) && (fromDLQ || NoneLeaves(attempts, maxDeliver, maxDeliver)))
    || (exists k :: 0 <= k < maxDeliver && SettledAt(attempts, k, maxDeliver) && !IsAck(attempts[k])
                    && (fromDLQ || NoneLeaves(attempts, k + 1, maxDeliver)))
  }

  lemma {:induction false} LettersBound(subject: string, attempts: seq<Attempt>, n: nat, maxDeliver: nat, i: nat)
    requires n <= |attempts| && !IsDLQ(subject) && i < n && Leaves(attempts, i, maxDeliver)
    ensures |LettersOf(subject, attempts, n, maxDeliver)| >= 1
    ensures |LettersOf(subject, attempts, n, maxDeliver)| >= 2 <==>
              exists j :: 0 <= j < n && j != i && Leaves(attempts, j, maxDeliver)
    decreases n
  {
    NoLetterIff(subject, attempts, n - 1, maxDeliver);
    if i < n - 1 {
      LettersBound(subject, attempts, n - 1, maxDeliver, i);
    }
  }

  /** One message leaves several dead letters exactly when an attempt before the last one wrote a
      letter and another did too; the termination that should have followed the earlier one never
      reached the broker. */
  lemma SeveralLettersIff(subject: string, attempts: seq<Attempt>, n: nat, maxDeliver: nat)
    requires 0 < n <= |attempts| && AllRetried(attempts, n - 1, maxDeliver)
    ensures |LettersOf(subject, attempts, n, maxDeliver)| >= 2 <==>
              !IsDLQ(subject) && exists i, j :: 0 <= i < j < n && Leaves(attempts, i, maxDeliver)
                                                && !attempts[i].settles && Leaves(attempts, j, maxDeliver)
  {
    NoLetterIff(subject, attempts, n, maxDeliver);
    if i, j :| 0 <= i < j < n && Leaves(attempts, i, maxDeliver) && Leaves(attempts, j, maxDeliver) {
      assert Retried(attempts[i], i + 1, maxDeliver);
      if !IsDLQ(subject) {
        LettersBound(subject, attempts, n, maxDeliver, i);
      }
    } else if k :| 0 <= k < n && Leaves(attempts, k, maxDeliver) {
      if !IsDLQ(subject) {
        LettersBound(subject, attempts, n, maxDeliver, k);
      }
    }
  }

  /** A message can be acknowledged although it has a dead letter: it is so exactly when an earlier
      letter was written and its termination did not reach the broker. */
  lemma AckedWithLetterIff(subject: string, attempts: seq<Attempt>, k: nat, maxDeliver: nat)
    requires SettledAt(attempts, k, maxDeliver) && IsAck(attempts[k])
    ensures LettersOf(subject, attempts, k + 1, maxDeliver) != [] <==>
              !IsDLQ(subject) && exists i :: 0 <= i < k && Leaves(attempts, i, maxDeliver) && !attempts[i].settles
  {
    NoLetterIff(subject, attempts, k + 1, maxDeliver);
    if i :| 0 <= i < k + 1 && Leaves(attempts, i, maxDeliver) {
      assert i < k && Retried(attempts[i], i + 1, maxDeliver);
    }
  }
}
