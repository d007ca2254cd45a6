/** One row of the outbound queue and what a delivery attempt does to it (internal/queue/queue.go). Times are in
  * seconds. */
module DeliveryQueue {
  import opened Wrappers

  const HOUR := 3600

  const RETRY_DELAYS: seq<int> := [0, 300, 1800, 2 * HOUR, 8 * HOUR, 24 * HOUR, 48 * HOUR]
  const LAST_ATTEMPT := 6
  const MAX_DELIVERY_AGE := 5 * 24 * HOUR

  datatype Status = Pending | Delivering | Delivered | Failed | Bounced

  datatype Row = Row(
    messageId: Option<nat>, relayClient: Option<nat>, recipient: string,
    status: Status, attempts: nat, nextRetryAt: int, createdAt: int)
  {
    predicate Live() { status == Pending || status == Delivering }

    predicate Relayed() { relayClient.Some? }

    predicate Due(now: int) { Live() && nextRetryAt <= now }
  }

  /** What one attempt comes to; hard and soft failures are told apart by the error text. */
  datatype Outcome = NoMessage | NoBlob | NotBuffered | Success | SoftFailure | HardFailure

  /** The part of an address after its last `@`. */
  function RecipientDomain(recipient: string): string
    decreases |recipient|
  {
    if '@' !in recipient then ""
    else if '@' !in recipient[1..] && recipient[0] == '@' then recipient[1..]
    else RecipientDomain(recipient[1..])
  }

  /** The domain of `local@domain` is `domain`, whatever is in `local`; without an `@` there is none. */
  lemma {:induction false} DomainOf(local: string, domain: string)
    requires '@' !in domain
    ensures RecipientDomain(local + "@" + domain) == domain
    ensures RecipientDomain(domain) == ""
    decreases |local|
  {
    var all := local + "@" + domain;
    assert all[|local|] == '@';
    if local == "" {
      assert all[1..] == domain;
    } else {
      assert all[1..] == local[1..] + "@" + domain;
      assert all[1..][|local| - 1] == '@';
      DomainOf(local[1..], domain);
    }
  }

  // ---------------------------------------------------------------- one attempt

  datatype Answer = Taken | TryLater | Refused

  /** What an attempt meets: whether the sent message and the blob are found, whether signing and buffering work,
    * whether a smarthost is configured, and what the receiving side answers. */
  datatype Conditions = Conditions(
    messageFound: bool, blobRead: bool, signs: bool, buffers: bool, smarthost: bool, answer: Answer)

  datatype Hop = Mailbox | DirectMx | Smarthost

  /** The bytes handed on: by which hop, and whether with a signature of ours. */
  datatype Handoff = Handoff(hop: Hop, signed: bool)

  datatype Delivery = Delivery(outcome: Outcome, handoff: Option<Handoff>)

  function Answered(a: Answer): Outcome {
    match a
    case Taken => Success
    case TryLater => SoftFailure
    case Refused => HardFailure
  }

  function Delivers(domain: string, row: Row, c: Conditions): Delivery {
    if !row.Relayed() && !c.messageFound then Delivery(NoMessage, None)
    else if !c.blobRead then Delivery(NoBlob, None)
    else if RecipientDomain(row.recipient) == domain then Delivery(Answered(c.answer), Some(Handoff(Mailbox, false)))
    else if row.Relayed() then Delivery(Answered(c.answer), Some(Handoff(DirectMx, false)))
    else if !c.buffers then Delivery(NotBuffered, None)
    else Delivery(Answered(c.answer), Some(Handoff(if c.smarthost then Smarthost else DirectMx, c.signs)))
  }

  /** Only mail of our own is loaded from the messages table, and only its external deliveries are signed. */
  predicate SignsOnTheWay(domain: string, row: Row) {
    RecipientDomain(row.recipient) != domain && !row.Relayed()
  }

  predicate Possible(domain: string, row: Row, o: Outcome) {
    && (o == NoMessage ==> !row.Relayed())
    && (o == NotBuffered ==> SignsOnTheWay(domain, row))
  }

  /** The outcomes an attempt can have, and no others. */
  lemma PossibleOutcomes(domain: string, row: Row, o: Outcome)
    ensures Possible(domain, row, o) <==> exists c :: Delivers(domain, row, c).outcome == o
  {
    hide RecipientDomain;
    if Possible(domain, row, o) {
      var a := if o == HardFailure then Refused else if o == SoftFailure then TryLater else Taken;
      var c := Conditions(o != NoMessage, o != NoBlob, true, o != NotBuffered, false, a);
      assert Delivers(domain, row, c).outcome == o;
    }
  }

  lemma AttemptIsPossible(domain: string, row: Row, c: Conditions)
    ensures Possible(domain, row, Delivers(domain, row, c).outcome)
  {
    hide RecipientDomain;
  }

  /** Mail handed to another server carries our signature if and only if it is our own and signing worked, whichever
    * way it goes; nothing is handed on after an internal failure. */
  lemma SignedIff(domain: string, row: Row, c: Conditions)
    ensures var d := Delivers(domain, row, c);
            && (d.handoff.None? <==> d.outcome in {NoMessage, NoBlob, NotBuffered})
            && (d.handoff.Some? ==>
                  && (d.handoff.value.signed <==> SignsOnTheWay(domain, row) && c.signs)
                  && (d.handoff.value.hop == Mailbox <==> RecipientDomain(row.recipient) == domain)
                  && (d.handoff.value.hop == Smarthost <==> SignsOnTheWay(domain, row) && c.smarthost))
  {
    hide RecipientDomain;
  }

  predicate Exceeded(row: Row, now: int) {
    now - row.createdAt >= MAX_DELIVERY_AGE || row.attempts >= LAST_ATTEMPT
  }

  function Retried(row: Row, now: int): Row
    requires row.attempts < LAST_ATTEMPT
  {
    row.(status := Pending, attempts := row.attempts + 1, nextRetryAt := now + RETRY_DELAYS[row.attempts + 1])
  }

  function GivenUp(row: Row): Row {
    row.(status := if row.Relayed() then Failed else Bounced)
  }

  /** The row once the attempt has been marked. */
  function Finished(row: Row, o: Outcome, now: int): Row {
    match o
    case NoMessage | NoBlob | NotBuffered => row.(status := Failed)
    case Success => row.(status := Delivered)
    case HardFailure => GivenUp(row)
    case SoftFailure => if Exceeded(row, now) then GivenUp(row) else Retried(row, now)
  }

  /** Total delay before attempt `a` when every attempt starts on time. */
  function Schedule(a: nat): int
    requires a <= LAST_ATTEMPT
  {
    if a == 0 then 0 else Schedule(a - 1) + RETRY_DELAYS[a]
  }

  lemma ScheduleTotals()
    ensures Schedule(LAST_ATTEMPT) == 82 * HOUR + 35 * 60
    ensures Schedule(5) == 34 * HOUR + 35 * 60
    ensures forall a: nat :: a < LAST_ATTEMPT ==> Schedule(a) <= Schedule(5)
  {
    assert Schedule(1) == 300 && Schedule(2) == 2100 && Schedule(3) == 9300;
    assert Schedule(4) == 38100 && Schedule(5) == 124500;
  }

  // ---------------------------------------------------------------- the worker on the table

  ghost predicate Earliest(rows: map<nat, Row>, id: nat, now: int) {
    && id in rows && rows[id].Due(now)
    && forall j :: j in rows && rows[j].Due(now) ==> rows[id].nextRetryAt <= rows[j].nextRetryAt
  }

  lemma EarliestExists(rows: map<nat, Row>, now: int)
    requires exists id :: id in rows && rows[id].Due(now)
    ensures exists id :: Earliest(rows, id, now)
  {
    var id :| id in rows && rows[id].Due(now);
    EarliestFrom(rows, now, id, rows.Keys);
  }

  lemma {:induction false} EarliestFrom(rows: map<nat, Row>, now: int, best: nat, rest: set<nat>)
    requires best in rows && rows[best].Due(now) && rest <= rows.Keys
    requires forall j :: j in rows && j !in rest && rows[j].Due(now) ==> rows[best].nextRetryAt <= rows[j].nextRetryAt
    ensures exists id :: Earliest(rows, id, now)
    decreases rest
  {
    if rest == {} {
      assert Earliest(rows, best, now);
    } else {
      var j :| j in rest;
      var better := if rows[j].Due(now) && rows[j].nextRetryAt < rows[best].nextRetryAt then j else best;
      EarliestFrom(rows, now, better, rest - {j});
    }
  }

  datatype Attempt = Attempt(id: nat, outcome: Outcome)

  function DueSet(rows: map<nat, Row>, now: int): set<nat> {
    set id | id in rows && rows[id].Due(now)
  }

  /** Every attempt so far was on a row due at the start, and the row is now as the attempt left it. */
  ghost predicate AllMarked(domain: string, was: map<nat, Row>, rows: map<nat, Row>, done: seq<Attempt>, now: int) {
    forall i :: 0 <= i < |done| ==>
      && done[i].id in was && done[i].id in rows && was[done[i].id].Due(now)
      && Possible(domain, was[done[i].id], done[i].outcome)
      && rows[done[i].id] == Finished(was[done[i].id].(status := Delivering), done[i].outcome, now)
  }

  /** No row was attempted twice, and none before one that had been waiting longer. */
  ghost predicate InOrder(was: map<nat, Row>, done: seq<Attempt>) {
    forall i, j :: 0 <= i < j < |done| && done[i].id in was && done[j].id in was ==>
      done[i].id != done[j].id && was[done[i].id].nextRetryAt <= was[done[j].id].nextRetryAt
  }

  ghost predicate NotTried(done: seq<Attempt>, id: nat) {
    forall i :: 0 <= i < |done| ==> done[i].id != id
  }

  ghost predicate RestUntouched(was: map<nat, Row>, rows: map<nat, Row>, done: seq<Attempt>) {
    forall id :: id in was && id in rows && NotTried(done, id) ==> rows[id] == was[id]
  }

  /** What is still due was due from the start, and no earlier than anything attempted. */
  ghost predicate DueAwaits(was: map<nat, Row>, rows: map<nat, Row>, done: seq<Attempt>, now: int) {
    forall id :: id in rows && id in was && rows[id].Due(now) ==>
      && NotTried(done, id)
      && forall i :: 0 <= i < |done| && done[i].id in was ==> was[done[i].id].nextRetryAt <= was[id].nextRetryAt
  }

  ghost predicate Drained(domain: string, was: map<nat, Row>, rows: map<nat, Row>, done: seq<Attempt>, now: int) {
    && rows.Keys == was.Keys
    && AllMarked(domain, was, rows, done, now)
    && InOrder(was, done)
    && RestUntouched(was, rows, done)
    && DueAwaits(was, rows, done, now)
  }

  lemma DrainOneMore(domain: string, was: map<nat, Row>, rows: map<nat, Row>, done: seq<Attempt>, now: int, a: Attempt)
    requires Drained(domain, was, rows, done, now)
    requires Earliest(rows, a.id, now) && Possible(domain, rows[a.id], a.outcome)
    ensures var rows' := rows[a.id := Finished(rows[a.id].(status := Delivering), a.outcome, now)];
            && Drained(domain, was, rows', done + [a], now)
            && DueSet(rows', now) == DueSet(rows, now) - {a.id}
  {
    hide Finished, Possible, AllMarked, InOrder;
    var row := Finished(rows[a.id].(status := Delivering), a.outcome, now);
    FinishedIsNotDue(rows[a.id], a.outcome, now);
    DueAfterMark(rows, a.id, row, now);
    assert NotTried(done, a.id) && rows[a.id] == was[a.id];
    MarkedOneMore(domain, was, rows, done, now, a);
    OrderOneMore(was, done, a);
    hide RestUntouched, NotTried, DueSet;
    UntouchedOneMore(was, rows, done, a, row);
    AwaitsOneMore(was, rows, done, now, a, row);
  }

  lemma MarkedOneMore(domain: string, was: map<nat, Row>, rows: map<nat, Row>, done: seq<Attempt>, now: int, a: Attempt)
    requires AllMarked(domain, was, rows, done, now) && NotTried(done, a.id)
    requires a.id in rows && a.id in was && rows[a.id] == was[a.id] && was[a.id].Due(now)
    requires Possible(domain, was[a.id], a.outcome)
    ensures AllMarked(domain, was, rows[a.id := Finished(rows[a.id].(status := Delivering), a.outcome, now)],
      done + [a], now)
  {
    hide Finished, Possible;
  }

  lemma OrderOneMore(was: map<nat, Row>, done: seq<Attempt>, a: Attempt)
    requires InOrder(was, done) && NotTried(done, a.id) && a.id in was
    requires forall i :: 0 <= i < |done| && done[i].id in was ==> was[done[i].id].nextRetryAt <= was[a.id].nextRetryAt
    ensures InOrder(was, done + [a])
  {
  }

  lemma UntouchedOneMore(was: map<nat, Row>, rows: map<nat, Row>, done: seq<Attempt>, a: Attempt, row: Row)
    requires RestUntouched(was, rows, done)
    ensures RestUntouched(was, rows[a.id := row], done + [a])
  {
    NotTriedAppend(done, a);
    hide NotTried;
  }

  lemma AwaitsOneMore(was: map<nat, Row>, rows: map<nat, Row>, done: seq<Attempt>, now: int, a: Attempt, row: Row)
    requires DueAwaits(was, rows, done, now) && Earliest(rows, a.id, now) && a.id in was && !row.Due(now)
    requires was[a.id] == rows[a.id] && rows.Keys == was.Keys
    requires forall id :: id in rows && rows[id].Due(now) ==> rows[id] == was[id]
    ensures DueAwaits(was, rows[a.id := row], done + [a], now)
  {
    NotTriedAppend(done, a);
    hide NotTried;
  }

  lemma NotTriedAppend(done: seq<Attempt>, a: Attempt)
    ensures forall id :: NotTried(done + [a], id) <==> NotTried(done, id) && id != a.id
  {
    forall id ensures NotTried(done + [a], id) <==> NotTried(done, id) && id != a.id {
      assert (done + [a])[|done|] == a;
      assert forall i :: 0 <= i < |done| ==> (done + [a])[i] == done[i];
    }
  }

  lemma DueAfterMark(rows: map<nat, Row>, id: nat, row: Row, now: int)
    requires id in rows && rows[id].Due(now) && !row.Due(now)
    ensures DueSet(rows[id := row], now) == DueSet(rows, now) - {id}
  {}

  lemma DrainIsComplete(domain: string, was: map<nat, Row>, rows: map<nat, Row>, done: seq<Attempt>, now: int)
    requires Drained(domain, was, rows, done, now) && DueSet(rows, now) == {}
    ensures (set i | 0 <= i < |done| :: done[i].id) == DueSet(was, now)
  {
    hide Finished, Possible;
    forall id | id in DueSet(was, now) ensures !NotTried(done, id) {
      assert id !in DueSet(rows, now);
    }
  }

  /** With the clock standing still, a row that was just marked is no longer due. */
  lemma FinishedIsNotDue(row: Row, o: Outcome, now: int)
    ensures !Finished(row, o, now).Due(now) || !row.Live()
    ensures !Finished(row.(status := Delivering), o, now).Due(now)
  {}

  class Worker {
    const domain: string
    var rows: map<nat, Row>

    constructor (domain: string, rows: map<nat, Row>)
      ensures this.domain == domain && this.rows == rows
    {
      this.domain := domain;
      this.rows := rows;
    }

    method MarkDelivered(id: nat)
      requires id in rows
      modifies this`rows
      ensures rows == old(rows)[id := old(rows)[id].(status := Delivered)]
    {
      rows := rows[id := rows[id].(status := Delivered)];
    }

    method MarkRetry(id: nat, attempts: nat, delay: int, now: int)
      requires id in rows
      modifies this`rows
      ensures rows == old(rows)[id := old(rows)[id].(status := Pending, attempts := attempts,
        nextRetryAt := now + delay)]
    {
      rows := rows[id := rows[id].(status := Pending, attempts := attempts, nextRetryAt := now + delay)];
    }

    method MarkFailed(id: nat)
      requires id in rows
      modifies this`rows
      ensures rows == old(rows)[id := old(rows)[id].(status := Failed)]
    {
      rows := rows[id := rows[id].(status := Failed)];
    }

    method MarkBounced(id: nat)
      requires id in rows
      modifies this`rows
      ensures rows == old(rows)[id := old(rows)[id].(status := Bounced)]
    {
      rows := rows[id := rows[id].(status := Bounced)];
    }

    method MarkOutcome(id: nat, outcome: Outcome, now: int)
      requires id in rows
      modifies this`rows
      ensures rows == old(rows)[id := Finished(old(rows)[id], outcome, now)]
    {
      var row := rows[id];
      if outcome == NoMessage || outcome == NoBlob || outcome == NotBuffered {
        MarkFailed(id);
        return;
      }
      if outcome == Success {
        MarkDelivered(id);
        return;
      }
      var exceeded := now - row.createdAt >= MAX_DELIVERY_AGE || row.attempts >= |RETRY_DELAYS| - 1;
      if outcome == HardFailure || exceeded {
        if row.Relayed() {
          MarkFailed(id);
        } else {
          MarkBounced(id);
        }
        return;
      }
      MarkRetry(id, row.attempts + 1, RETRY_DELAYS[row.attempts + 1], now);
    }

    /** The attempt itself: the branches of the delivery, in the order of the source. */
    method AttemptRow(row: Row, c: Conditions) returns (d: Delivery)
      ensures d == Delivers(domain, row, c)
    {
      if !row.Relayed() && !c.messageFound {
        return Delivery(NoMessage, None);
      }
      if !c.blobRead {
        return Delivery(NoBlob, None);
      }
      if RecipientDomain(row.recipient) == domain {
        return Delivery(Answered(c.answer), Some(Handoff(Mailbox, false)));
      } else if row.Relayed() {
        return Delivery(Answered(c.answer), Some(Handoff(DirectMx, false)));
      }
      d := DeliverExternal(c);
    }

    /** A message that cannot be signed goes out unsigned. */
    method DeliverExternal(c: Conditions) returns (d: Delivery)
      ensures d == if !c.buffers then Delivery(NotBuffered, None)
                   else
                     Delivery(Answered(c.answer), Some(Handoff(if c.smarthost then Smarthost else DirectMx, c.signs)))
    {
      var signed := c.signs;
      if !c.buffers {
        return Delivery(NotBuffered, None);
      }
      if c.smarthost {
        return Delivery(Answered(c.answer), Some(Handoff(Smarthost, signed)));
      }
      return Delivery(Answered(c.answer), Some(Handoff(DirectMx, signed)));
    }

    /** Claims the due row with the earliest retry time, attempts it and marks it. A database error while claiming
      * leaves the table as it was.
      */
    method ProcessOne(now: int, c: Conditions) returns (processed: Option<Attempt>, err: bool)
      modifies this`rows
      ensures processed.None? ==> rows == old(rows) && (err || DueSet(rows, now) == {})
      ensures processed.Some? ==>
                var id, o := processed.value.id, processed.value.outcome;
                && !err && Earliest(old(rows), id, now) && o == Delivers(domain, old(rows)[id], c).outcome
                && rows == old(rows)[id := Finished(old(rows)[id].(status := Delivering), o, now)]
    {
      hide Finished, RecipientDomain;
      var broken: bool := *;
      if broken {
        return None, true;
      }
      if DueSet(rows, now) == {} {
        return None, false;
      }
      EarliestExists(rows, now) by {
        var some :| some in DueSet(rows, now);
      }
      var id :| id in rows && rows[id].Due(now)
        && forall j :: j in rows && rows[j].Due(now) ==> rows[id].nextRetryAt <= rows[j].nextRetryAt;
      assert Earliest(rows, id, now);
      var row := rows[id];
      rows := rows[id := row.(status := Delivering)];
      var d := AttemptRow(row, c);
      MarkOutcome(id, d.outcome, now);
      return Some(Attempt(id, d.outcome)), false;
    }

    /** Unless the database fails, draining processes every row that was due, once each, earliest first. */
    method DrainQueue(now: int) returns (done: seq<Attempt>, err: bool)
      modifies this`rows
      ensures Drained(domain, old(rows), rows, done, now)
      ensures !err ==> DueSet(rows, now) == {} && (set i | 0 <= i < |done| :: done[i].id) == DueSet(old(rows), now)
    {
      hide Finished, Delivers, Possible, AllMarked, InOrder, RestUntouched, DueAwaits;
      done := [];
      NothingDrainedYet(domain, rows, now);
      while true
        invariant Drained(domain, old(rows), rows, done, now)
        decreases |DueSet(rows, now)|
      {
        ghost var before := rows;
        var c: Conditions := *;
        var processed, broken := ProcessOne(now, c);
        if broken {
          return done, true;
        }
        if processed.None? {
          DrainIsComplete(domain, old(rows), rows, done, now);
          return done, false;
        }
        AttemptIsPossible(domain, before[processed.value.id], c);
        DrainOneMore(domain, old(rows), before, done, now, processed.value);
        assert processed.value.id in DueSet(before, now);
        done := done + [processed.value];
      }
    }
  }

  lemma NothingDrainedYet(domain: string, rows: map<nat, Row>, now: int)
    ensures Drained(domain, rows, rows, [], now)
  {}
}
