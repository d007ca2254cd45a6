/** Every run of the delivery worker: rows arrive, the worker claims, attempts and marks them, time passes,
  * the process may crash between any two of these, and deleting a message removes its rows.
  */
module QueueRuns {
  import opened Wrappers
  import opened DeliveryQueue

  datatype WorkerState = Idle | Claimed(id: nat) | Attempted(id: nat, outcome: Outcome) | Notifying(id: nat)

  datatype Kind = Sending | Marking | Bouncing | Crashing

  datatype Entry = Entry(kind: Kind, id: nat, signed: bool)

  /** The table and the worker, with a log of what has happened and each row's accumulated lateness. */
  datatype State = State(
    rows: map<nat, Row>, worker: WorkerState, clock: int, nextId: nat, late: map<nat, int>, log: seq<Entry>)

  datatype Label =
    | Tick(seconds: nat)
    | EnqueueSent(message: nat, to: string)
    | EnqueueRelayed(client: nat, to: string)
    | Claim(id: nat)
    | Try(delivery: Delivery)
    | Mark
    | Notify(stored: bool)
    | Crash
    | Purge(message: nat)

  /** Something an attempt on `row` can come to. */
  ghost predicate CanHappen(domain: string, row: Row, d: Delivery) {
    exists c :: Delivers(domain, row, c) == d
  }

  const EMPTY := State(map[], Idle, 0, 0, map[], [])

  ghost predicate Enabled(domain: string, s: State, l: Label) {
    match l
    case Claim(id) => s.worker.Idle? && Earliest(s.rows, id, s.clock)
    case Try(d) =>
      && s.worker.Claimed?
      && (if s.worker.id in s.rows then CanHappen(domain, s.rows[s.worker.id], d) else d == Delivery(NoMessage, None))
    case Mark => s.worker.Attempted?
    case Notify(stored) => s.worker.Notifying? && (stored ==> s.worker.id in s.rows)
    case Crash => !s.worker.Idle?
    case _ => true
  }

  function Enqueued(s: State, row: Row): State {
    s.(rows := s.rows[s.nextId := row], late := s.late[s.nextId := 0], nextId := s.nextId + 1)
  }

  function NewRow(message: Option<nat>, client: Option<nat>, to: string, now: int): Row {
    Row(message, client, to, Pending, 0, now, now)
  }

  function Lateness(s: State, id: nat): int {
    if id in s.late then s.late[id] else 0
  }

  function Marked(s: State, id: nat, o: Outcome): State
    requires id in s.rows
  {
    var row := Finished(s.rows[id], o, s.clock);
    s.(rows := s.rows[id := row],
       late := s.late[id := Lateness(s, id) + s.clock - s.rows[id].nextRetryAt],
       log := s.log + [Entry(Marking, id, false)],
       worker := if row.status == Bounced then Notifying(id) else Idle)
  }

  function Next(s: State, l: Label): State {
    match l
    case Tick(seconds) => s.(clock := s.clock + seconds)
    case EnqueueSent(message, to) => Enqueued(s, NewRow(Some(message), None, to, s.clock))
    case EnqueueRelayed(client, to) => Enqueued(s, NewRow(None, Some(client), to, s.clock))
    case Claim(id) =>
      if id in s.rows then s.(rows := s.rows[id := s.rows[id].(status := Delivering)], worker := Claimed(id)) else s
    case Try(d) =>
      if !s.worker.Claimed? then s
      else
        s.(worker := Attempted(s.worker.id, d.outcome),
           log := if d.outcome == Success then s.log + [Entry(Sending, s.worker.id, Signed(d))] else s.log)
    case Mark =>
      if !s.worker.Attempted? then s
      else if s.worker.id in s.rows then Marked(s, s.worker.id, s.worker.outcome)
      else s.(worker := Idle)
    case Notify(stored) =>
      if !s.worker.Notifying? then s
      else s.(worker := Idle, log := if stored then s.log + [Entry(Bouncing, s.worker.id, false)] else s.log)
    case Crash =>
      if s.worker.Idle? then s else s.(worker := Idle, log := s.log + [Entry(Crashing, s.worker.id, false)])
    case Purge(message) =>
      s.(rows := map id | id in s.rows && s.rows[id].messageId != Some(message) :: s.rows[id])
  }

  predicate Signed(d: Delivery) {
    d.handoff.Some? && d.handoff.value.signed
  }

  function Run(s: State, labels: seq<Label>): State
    decreases |labels|
  {
    if labels == [] then s else Run(Next(s, labels[0]), labels[1..])
  }

  ghost predicate Allowed(domain: string, s: State, labels: seq<Label>)
    decreases |labels|
  {
    labels == [] || (Enabled(domain, s, labels[0]) && Allowed(domain, Next(s, labels[0]), labels[1..]))
  }

  // ---------------------------------------------------------------- counting log entries

  function Count(log: seq<Entry>, kind: Kind, id: nat): nat
    decreases |log|
  {
    if log == [] then 0
    else
      Count(log[..|log| - 1], kind, id)
      + if log[|log| - 1].kind == kind && log[|log| - 1].id == id then 1 else 0
  }

  lemma CountAppend(log: seq<Entry>, e: Entry)
    ensures forall kind, id :: Count(log + [e], kind, id)
              == Count(log, kind, id) + if e.kind == kind && e.id == id then 1 else 0
  {
    assert (log + [e])[..|log|] == log;
  }

  // ---------------------------------------------------------------- the invariant

  function Delay(a: nat): int
    requires a <= LAST_ATTEMPT
  {
    RETRY_DELAYS[a]
  }

  /** Where a live row's next attempt can stand. */
  ghost predicate OnSchedule(row: Row, lateness: int) {
    && row.attempts <= LAST_ATTEMPT
    && 0 <= lateness
    && row.nextRetryAt == row.createdAt + Schedule(row.attempts) + lateness
    && (row.attempts > 0 ==> row.nextRetryAt < row.createdAt + MAX_DELIVERY_AGE + Delay(row.attempts))
  }

  ghost predicate RowOk(s: State, id: nat)
    requires id in s.rows
  {
    var row := s.rows[id];
    && id < s.nextId && row.attempts <= LAST_ATTEMPT && row.createdAt <= s.clock
    && (row.Live() ==> OnSchedule(row, Lateness(s, id)))
    && (row.Relayed() ==> row.messageId.None? && row.status != Bounced)
  }

  /** The row being worked on is the one that was due when it was claimed. */
  ghost predicate WorkerOk(domain: string, s: State) {
    var w := s.worker;
    && (!w.Idle? ==> w.id < s.nextId)
    && ((w.Claimed? || w.Attempted?) && w.id in s.rows ==>
          s.rows[w.id].status == Delivering && s.rows[w.id].nextRetryAt <= s.clock)
    && (w.Attempted? && w.id in s.rows ==> Possible(domain, s.rows[w.id], w.outcome))
    && (w.Notifying? && w.id in s.rows ==> s.rows[w.id].status == Bounced)
  }

  ghost predicate MarksOk(s: State, id: nat) {
    && Count(s.log, Marking, id) <= LAST_ATTEMPT + 1
    && (id in s.rows ==> Count(s.log, Marking, id) <= s.rows[id].attempts + 1)
    && (id in s.rows && s.rows[id].Live() ==> Count(s.log, Marking, id) == s.rows[id].attempts)
  }

  ghost predicate SendsOk(s: State, id: nat) {
    && Count(s.log, Sending, id) <= Count(s.log, Crashing, id) + 1
    && (id in s.rows && s.rows[id].Live() && s.worker != Attempted(id, Success) ==>
          Count(s.log, Sending, id) <= Count(s.log, Crashing, id))
    && (s.worker == Attempted(id, Success) ==> Count(s.log, Sending, id) > 0)
    && (id in s.rows && s.rows[id].status == Delivered ==> Count(s.log, Sending, id) > 0)
  }

  ghost predicate BouncesOk(s: State, id: nat) {
    && Count(s.log, Bouncing, id) <= 1
    && (id in s.rows && s.rows[id].status != Bounced ==> Count(s.log, Bouncing, id) == 0)
    && (s.worker == Notifying(id) ==> Count(s.log, Bouncing, id) == 0)
  }

  ghost predicate FreshOk(s: State, id: nat) {
    id >= s.nextId ==> forall kind :: Count(s.log, kind, id) == 0
  }

  ghost predicate SignedOk(domain: string, s: State) {
    forall e <- s.log :: e.kind == Sending && e.signed && e.id in s.rows ==> SignsOnTheWay(domain, s.rows[e.id])
  }

  ghost predicate LogOk(s: State, id: nat) {
    MarksOk(s, id) && SendsOk(s, id) && BouncesOk(s, id) && FreshOk(s, id)
  }

  ghost predicate Inv(domain: string, s: State) {
    && (forall id :: id in s.rows ==> RowOk(s, id))
    && WorkerOk(domain, s)
    && (forall id: nat :: LogOk(s, id))
    && SignedOk(domain, s)
  }

  // ---------------------------------------------------------------- marking keeps a row on schedule

  lemma MarkKeepsSchedule(row: Row, o: Outcome, now: int, lateness: int)
    requires row.Live() && OnSchedule(row, lateness) && row.nextRetryAt <= now && row.createdAt <= now
    requires row.Relayed() ==> row.messageId.None?
    ensures var row' := Finished(row, o, now);
            && row'.attempts <= LAST_ATTEMPT && row'.createdAt == row.createdAt
            && (row'.Live() ==>
                  && row'.attempts == row.attempts + 1
                  && OnSchedule(row', lateness + now - row.nextRetryAt))
            && (!row'.Live() ==> row'.attempts == row.attempts)
            && row'.Relayed() == row.Relayed()
            && (row.Relayed() ==> row'.messageId.None? && (row.status != Bounced ==> row'.status != Bounced))
            && (row'.status == Delivered <==> o == Success)
  {}

  lemma MarkKeepsRows(domain: string, s: State, j: nat)
    requires Inv(domain, s) && Enabled(domain, s, Mark) && s.worker.id in s.rows && j in s.rows
    ensures RowOk(Next(s, Mark), j)
  {
    hide Finished, OnSchedule, Schedule, Possible, SignsOnTheWay, LogOk, SignedOk;
    var s', id := Next(s, Mark), s.worker.id;
    assert RowOk(s, j) && RowOk(s, id);
    MarkKeepsSchedule(s.rows[id], s.worker.outcome, s.clock, Lateness(s, id));
    assert j == id ==> Lateness(s', j) == Lateness(s, id) + s.clock - s.rows[id].nextRetryAt;
    assert j != id ==> Lateness(s', j) == Lateness(s, j) && s'.rows[j] == s.rows[j];
  }

  /** What marking row `id` does to the parts of the state the log is compared with. */
  ghost predicate MarkedTo(s: State, s': State, id: nat, row: Row) {
    && id in s.rows && s.worker.Attempted? && s.worker.id == id
    && s'.rows == s.rows[id := row] && s'.log == s.log + [Entry(Marking, id, false)] && s'.nextId == s.nextId
    && s'.worker == (if row.status == Bounced then Notifying(id) else Idle)
  }

  lemma MarksAfterMark(s: State, s': State, id: nat, row: Row, j: nat)
    requires MarkedTo(s, s', id, row) && MarksOk(s, j) && s.rows[id].Live() && s.rows[id].attempts <= LAST_ATTEMPT
    requires row.attempts == s.rows[id].attempts + if row.Live() then 1 else 0
    ensures MarksOk(s', j)
  {
    CountAppend(s.log, Entry(Marking, id, false));
  }

  lemma SendsAfterMark(s: State, s': State, id: nat, row: Row, j: nat)
    requires MarkedTo(s, s', id, row) && SendsOk(s, j) && s.rows[id].Live()
    requires row.status == Delivered <==> s.worker.outcome == Success
    ensures SendsOk(s', j)
  {
    CountAppend(s.log, Entry(Marking, id, false));
  }

  lemma BouncesAfterMark(s: State, s': State, id: nat, row: Row, j: nat)
    requires MarkedTo(s, s', id, row) && BouncesOk(s, j) && s.rows[id].Live()
    ensures BouncesOk(s', j)
  {
    CountAppend(s.log, Entry(Marking, id, false));
  }

  lemma FreshAfterMark(s: State, s': State, id: nat, row: Row, j: nat)
    requires MarkedTo(s, s', id, row) && FreshOk(s, j) && id < s.nextId
    ensures FreshOk(s', j)
  {
    CountAppend(s.log, Entry(Marking, id, false));
  }

  lemma MarkKeepsLog(domain: string, s: State, j: nat)
    requires Inv(domain, s) && Enabled(domain, s, Mark) && s.worker.id in s.rows
    ensures LogOk(Next(s, Mark), j)
  {
    hide Finished, OnSchedule, Schedule, Possible, SignsOnTheWay, SignedOk, MarksOk, SendsOk, BouncesOk, FreshOk;
    var s', id := Next(s, Mark), s.worker.id;
    assert RowOk(s, id) && LogOk(s, j);
    MarkKeepsSchedule(s.rows[id], s.worker.outcome, s.clock, Lateness(s, id));
    var row := Finished(s.rows[id], s.worker.outcome, s.clock);
    assert MarkedTo(s, s', id, row);
    MarksAfterMark(s, s', id, row, j);
    SendsAfterMark(s, s', id, row, j);
    BouncesAfterMark(s, s', id, row, j);
    FreshAfterMark(s, s', id, row, j);
  }

  lemma MarkKeeps(domain: string, s: State)
    requires Inv(domain, s) && Enabled(domain, s, Mark)
    ensures Inv(domain, Next(s, Mark))
  {
    hide Finished, OnSchedule, Possible, SignsOnTheWay, LogOk;
    var s', id := Next(s, Mark), s.worker.id;
    if id in s.rows {
      FinishedKeepsIdentity(domain, s.rows[id], s.worker.outcome, s.clock);
      forall j | j in s'.rows ensures RowOk(s', j) {
        MarkKeepsRows(domain, s, j);
      }
      forall j: nat ensures LogOk(s', j) {
        MarkKeepsLog(domain, s, j);
      }
    } else {
      IdleAfterVanished(domain, s);
    }
  }

  /** Marking a row that was deleted meanwhile updates nothing. */
  lemma IdleAfterVanished(domain: string, s: State)
    requires Inv(domain, s) && Enabled(domain, s, Mark) && s.worker.id !in s.rows
    ensures Inv(domain, Next(s, Mark))
  {
    hide OnSchedule, Possible, SignsOnTheWay;
    var s' := Next(s, Mark);
    forall j | j in s'.rows ensures RowOk(s', j) {
      assert RowOk(s, j);
    }
    forall j: nat ensures LogOk(s', j) {
      assert LogOk(s, j);
    }
  }

  lemma FinishedKeepsIdentity(domain: string, row: Row, o: Outcome, now: int)
    ensures SignsOnTheWay(domain, Finished(row, o, now)) == SignsOnTheWay(domain, row)
  {
    assert Finished(row, o, now).recipient == row.recipient;
  }

  /** What the branches of the delivery say of any attempt. */
  lemma AttemptsArePossible(domain: string, row: Row, d: Delivery)
    requires CanHappen(domain, row, d)
    ensures Possible(domain, row, d.outcome) && (Signed(d) ==> SignsOnTheWay(domain, row))
  {
    hide Possible, SignsOnTheWay, Delivers;
    var c :| Delivers(domain, row, c) == d;
    AttemptIsPossible(domain, row, c);
    SignedIff(domain, row, c);
  }

  /** What an attempt on row `id` does to the parts of the state the log is compared with. */
  ghost predicate TriedTo(s: State, s': State, id: nat, d: Delivery) {
    && s.worker == Claimed(id) && s'.worker == Attempted(id, d.outcome) && s'.rows == s.rows && s'.nextId == s.nextId
    && s'.log == if d.outcome == Success then s.log + [Entry(Sending, id, Signed(d))] else s.log
  }

  lemma LogAfterTry(s: State, s': State, id: nat, d: Delivery, j: nat)
    requires TriedTo(s, s', id, d) && LogOk(s, j) && id < s.nextId
    requires if id in s.rows then s.rows[id].status == Delivering else d.outcome != Success
    ensures LogOk(s', j)
  {
    CountAppend(s.log, Entry(Sending, id, Signed(d)));
  }

  lemma TryKeeps(domain: string, s: State, d: Delivery)
    requires Inv(domain, s) && Enabled(domain, s, Try(d))
    ensures Inv(domain, Next(s, Try(d)))
  {
    hide OnSchedule, Possible, SignsOnTheWay, CanHappen, LogOk;
    var s', id := Next(s, Try(d)), s.worker.id;
    if id in s.rows {
      AttemptsArePossible(domain, s.rows[id], d);
    }
    forall j | j in s'.rows ensures RowOk(s', j) {
      assert RowOk(s, j);
    }
    forall j: nat ensures LogOk(s', j) {
      assert LogOk(s, j);
      LogAfterTry(s, s', id, d, j);
    }
  }

  lemma ClaimKeeps(domain: string, s: State, id: nat)
    requires Inv(domain, s) && Enabled(domain, s, Claim(id))
    ensures Inv(domain, Next(s, Claim(id)))
  {
    hide Possible, RecipientDomain, Schedule;
    var s' := Next(s, Claim(id));
    forall j | j in s'.rows ensures RowOk(s', j) {
      assert RowOk(s, j);
    }
    forall j: nat ensures LogOk(s', j) {
      assert LogOk(s, j);
    }
    assert s'.rows[id].recipient == s.rows[id].recipient;
  }

  lemma EnqueueKeeps(domain: string, s: State, l: Label)
    requires Inv(domain, s) && (l.EnqueueSent? || l.EnqueueRelayed?)
    ensures Inv(domain, Next(s, l))
  {
    hide Possible, SignsOnTheWay, SignedOk;
    var s' := Next(s, l);
    forall j | j in s'.rows ensures RowOk(s', j) {
      if j in s.rows {
        assert RowOk(s, j);
      }
    }
    forall j: nat ensures LogOk(s', j) {
      assert LogOk(s, j);
    }
    EnqueueKeepsSigned(domain, s, l);
  }

  /** Nothing was sent for a row that did not exist. */
  lemma EnqueueKeepsSigned(domain: string, s: State, l: Label)
    requires Inv(domain, s) && (l.EnqueueSent? || l.EnqueueRelayed?)
    ensures SignedOk(domain, Next(s, l))
  {
    hide Possible, SignsOnTheWay, RowOk;
    var s' := Next(s, l);
    forall e <- s'.log | e.kind == Sending && e.signed && e.id in s'.rows ensures SignsOnTheWay(domain, s'.rows[e.id]) {
      assert LogOk(s, e.id);
      EntryIsCounted(s.log, e);
    }
  }

  lemma {:induction false} EntryIsCounted(log: seq<Entry>, e: Entry)
    requires e in log
    ensures Count(log, e.kind, e.id) > 0
    decreases |log|
  {
    if log[|log| - 1] != e {
      EntryIsCounted(log[..|log| - 1], e);
    }
  }

  lemma TableStepKeeps(domain: string, s: State, l: Label)
    requires Inv(domain, s) && (l.Tick? || l.Purge?)
    ensures Inv(domain, Next(s, l))
  {
    hide Possible, SignsOnTheWay, Schedule;
    var s' := Next(s, l);
    forall j | j in s'.rows ensures RowOk(s', j) {
      assert RowOk(s, j);
    }
    forall j: nat ensures LogOk(s', j) {
      assert LogOk(s, j);
    }
  }

  lemma LogAfterWorkerStep(domain: string, s: State, l: Label, j: nat)
    requires WorkerOk(domain, s) && Enabled(domain, s, l) && (l.Notify? || l.Crash?) && LogOk(s, j)
    ensures LogOk(Next(s, l), j)
  {
    hide Possible, CanHappen;
    CountAppend(s.log, Entry(if l.Notify? then Bouncing else Crashing, s.worker.id, false));
  }

  lemma WorkerStepKeeps(domain: string, s: State, l: Label)
    requires Inv(domain, s) && Enabled(domain, s, l) && (l.Notify? || l.Crash?)
    ensures Inv(domain, Next(s, l))
  {
    hide Possible, SignsOnTheWay, OnSchedule, LogOk;
    var s' := Next(s, l);
    forall j | j in s'.rows ensures RowOk(s', j) {
      assert RowOk(s, j);
    }
    forall j: nat ensures LogOk(s', j) {
      assert LogOk(s, j);
      LogAfterWorkerStep(domain, s, l, j);
    }
  }

  lemma StepKeeps(domain: string, s: State, l: Label)
    requires Inv(domain, s) && Enabled(domain, s, l)
    ensures Inv(domain, Next(s, l))
  {
    hide Inv, Next;
    match l
    case Claim(id) => ClaimKeeps(domain, s, id);
    case Try(d) => TryKeeps(domain, s, d);
    case Mark => MarkKeeps(domain, s);
    case EnqueueSent(_, _) => EnqueueKeeps(domain, s, l);
    case EnqueueRelayed(_, _) => EnqueueKeeps(domain, s, l);
    case Tick(_) => TableStepKeeps(domain, s, l);
    case Purge(_) => TableStepKeeps(domain, s, l);
    case _ => WorkerStepKeeps(domain, s, l);
  }

  lemma {:induction false} RunKeeps(domain: string, s: State, labels: seq<Label>)
    requires Inv(domain, s) && Allowed(domain, s, labels)
    ensures Inv(domain, Run(s, labels))
    decreases |labels|
  {
    hide Inv, Enabled, Next;
    if labels != [] {
      StepKeeps(domain, s, labels[0]);
      RunKeeps(domain, Next(s, labels[0]), labels[1..]);
    }
  }

  lemma EmptyHolds(domain: string)
    ensures Inv(domain, EMPTY)
  {}

  ghost predicate Reachable(domain: string, s: State) {
    exists labels :: Allowed(domain, EMPTY, labels) && s == Run(EMPTY, labels)
  }

  lemma ReachableKeeps(domain: string, s: State)
    requires Reachable(domain, s)
    ensures Inv(domain, s)
  {
    hide Inv;
    var labels :| Allowed(domain, EMPTY, labels) && s == Run(EMPTY, labels);
    EmptyHolds(domain);
    RunKeeps(domain, EMPTY, labels);
  }

  // ---------------------------------------------------------------- termination measure

  function Weight(rows: map<nat, Row>, id: nat): int {
    if id in rows && rows[id].Live() then LAST_ATTEMPT + 1 - rows[id].attempts else 0
  }

  /** Attempts still possible for the rows numbered below `n`. */
  function Potential(rows: map<nat, Row>, n: nat): int {
    if n == 0 then 0 else Potential(rows, n - 1) + Weight(rows, n - 1)
  }

  lemma {:induction false} PotentialAfterChange(rows: map<nat, Row>, rows': map<nat, Row>, id: nat, n: nat)
    requires forall j: nat :: j != id ==> Weight(rows', j) == Weight(rows, j)
    ensures Potential(rows', n) == Potential(rows, n) + if id < n then Weight(rows', id) - Weight(rows, id) else 0
  {
    if n > 0 {
      PotentialAfterChange(rows, rows', id, n - 1);
    }
  }

  lemma {:induction false} PotentialMonotone(rows: map<nat, Row>, rows': map<nat, Row>, n: nat)
    requires forall j: nat :: Weight(rows', j) <= Weight(rows, j)
    ensures Potential(rows', n) <= Potential(rows, n)
  {
    if n > 0 {
      PotentialMonotone(rows, rows', n - 1);
    }
  }

  /** Completing an attempt strictly lowers the attempts left; only new mail raises them, by seven; nothing the worker
    * does adds a row.
    */
  lemma AttemptsRunOut(domain: string, s: State, l: Label)
    requires Inv(domain, s) && Enabled(domain, s, l)
    ensures var s' := Next(s, l);
            var before, after := Potential(s.rows, s.nextId), Potential(s'.rows, s'.nextId);
            && (l.Mark? && s.worker.id in s.rows ==> after < before)
            && (l.EnqueueSent? || l.EnqueueRelayed? ==> after == before + LAST_ATTEMPT + 1)
            && (!l.EnqueueSent? && !l.EnqueueRelayed? ==> after <= before && s'.rows.Keys <= s.rows.Keys)
  {
    hide OnSchedule, LogOk, Possible, SignsOnTheWay, Finished;
    var s' := Next(s, l);
    match l
    case Mark =>
      if s.worker.id in s.rows {
        var id := s.worker.id;
        assert RowOk(s, id);
        FinishedUsesAnAttempt(s.rows[id], s.worker.outcome, s.clock);
        PotentialAfterChange(s.rows, s'.rows, id, s.nextId);
      }
    case EnqueueSent(_, _) =>
      NextIdIsFree(s);
      PotentialAfterChange(s.rows, s'.rows, s.nextId, s.nextId);
    case EnqueueRelayed(_, _) =>
      NextIdIsFree(s);
      PotentialAfterChange(s.rows, s'.rows, s.nextId, s.nextId);
    case Claim(id) => PotentialAfterChange(s.rows, s'.rows, id, s.nextId);
    case _ => PotentialMonotone(s.rows, s'.rows, s.nextId);
  }

  lemma NextIdIsFree(s: State)
    requires forall id :: id in s.rows ==> RowOk(s, id)
    ensures s.nextId !in s.rows
  {}

  lemma FinishedUsesAnAttempt(row: Row, o: Outcome, now: int)
    requires row.Live() && row.attempts <= LAST_ATTEMPT
    ensures var row' := Finished(row, o, now);
            (row'.Live() ==> row'.attempts == row.attempts + 1 && row'.attempts <= LAST_ATTEMPT)
  {}

  // ---------------------------------------------------------------- main results

  /** No row is ever marked more than seven times, and a row's counter never leaves the delay table. */
  lemma SevenAttemptsAtMost(domain: string, s: State, id: nat)
    requires Reachable(domain, s)
    ensures Count(s.log, Marking, id) <= 7
    ensures id in s.rows ==> s.rows[id].attempts < |RETRY_DELAYS|
  {
    hide Reachable, OnSchedule;
    ReachableKeeps(domain, s);
    assert LogOk(s, id);
    assert id in s.rows ==> RowOk(s, id);
  }

  /** A row once delivered, failed or bounced never changes again as long as it exists, and never comes back. */
  lemma {:induction false} TerminalIsForever(domain: string, s: State, labels: seq<Label>, id: nat)
    requires Inv(domain, s) && Allowed(domain, s, labels)
    requires id < s.nextId && (id in s.rows ==> !s.rows[id].Live())
    ensures var s' := Run(s, labels);
            id in s'.rows ==> id in s.rows && s'.rows[id] == s.rows[id]
    decreases |labels|
  {
    hide Inv, Enabled, Next;
    if labels != [] {
      var s1 := Next(s, labels[0]);
      StepKeeps(domain, s, labels[0]);
      TerminalStays(domain, s, labels[0], id);
      TerminalIsForever(domain, s1, labels[1..], id);
    }
  }

  lemma TerminalStays(domain: string, s: State, l: Label, id: nat)
    requires Inv(domain, s) && Enabled(domain, s, l)
    requires id < s.nextId && (id in s.rows ==> !s.rows[id].Live())
    ensures var s1 := Next(s, l);
            && id < s1.nextId && (id in s1.rows ==> id in s.rows && s1.rows[id] == s.rows[id])
  {
    hide OnSchedule, LogOk, Possible, SignsOnTheWay, Finished;
  }

  /** Where the next attempt of a live row can stand, in every reachable state. */
  lemma RetryWindow(domain: string, s: State, id: nat)
    requires Reachable(domain, s) && id in s.rows && s.rows[id].Live()
    ensures var row := s.rows[id];
            && row.attempts <= LAST_ATTEMPT
            && row.createdAt + Schedule(row.attempts) <= row.nextRetryAt
            && (row.attempts == 0 ==> row.nextRetryAt == row.createdAt + Lateness(s, id))
            && (row.attempts > 0 ==> row.nextRetryAt < row.createdAt + MAX_DELIVERY_AGE + RETRY_DELAYS[row.attempts])
  {
    hide Reachable, LogOk;
    ReachableKeeps(domain, s);
    assert RowOk(s, id);
  }

  /** The outcome if there were no age limit. */
  function FinishedWithoutAge(row: Row, o: Outcome, now: int): Row {
    if o == SoftFailure && row.attempts < LAST_ATTEMPT then Retried(row, now) else Finished(row, o, now)
  }

  /** The age limit changes what happens to a row exactly when a retry was still due to it and the schedule so far
    * plus all the time lost waiting to be picked up reaches five days.
    */
  lemma AgeLimitDecidesIff(domain: string, s: State, id: nat, o: Outcome)
    requires Reachable(domain, s) && s.worker == Attempted(id, o) && id in s.rows
    ensures var row := s.rows[id];
            var lost := Lateness(s, id) + s.clock - row.nextRetryAt;
            Finished(row, o, s.clock) != FinishedWithoutAge(row, o, s.clock) <==>
              (o == SoftFailure && row.attempts < LAST_ATTEMPT && Schedule(row.attempts) + lost >= MAX_DELIVERY_AGE)
  {
    hide Reachable, LogOk;
    ReachableKeeps(domain, s);
    assert RowOk(s, id);
  }

  /** With less than 85h25m lost in all, five days minus the schedule of the sixth attempt, the age limit never
    * decides. */
  lemma AgeLimitNeverDecides(domain: string, s: State, id: nat, o: Outcome)
    requires Reachable(domain, s) && s.worker == Attempted(id, o) && id in s.rows
    requires Lateness(s, id) + s.clock - s.rows[id].nextRetryAt < 85 * HOUR + 25 * 60
    ensures Finished(s.rows[id], o, s.clock) == FinishedWithoutAge(s.rows[id], o, s.clock)
  {
    hide Reachable, Finished, FinishedWithoutAge, Schedule;
    AgeLimitDecidesIff(domain, s, id, o);
    ScheduleTotals();
  }

  /** What the log says about a row's fate: a delivered row was really sent; sends beyond the first each cost a crash;
    * at most one bounce message is ever stored, crash or no crash.
    */
  lemma DeliveryHistory(domain: string, s: State, id: nat)
    requires Reachable(domain, s)
    ensures id in s.rows && s.rows[id].status == Delivered ==> Count(s.log, Sending, id) >= 1
    ensures Count(s.log, Sending, id) <= 1 + Count(s.log, Crashing, id)
    ensures Count(s.log, Bouncing, id) <= 1
    ensures Count(s.log, Bouncing, id) == 1 && id in s.rows ==> s.rows[id].status == Bounced
  {
    hide Reachable;
    ReachableKeeps(domain, s);
    assert LogOk(s, id);
  }

  /** Relayed mail is never bounced and never signed. */
  lemma RelayedIsOpaque(domain: string, s: State, id: nat)
    requires Reachable(domain, s) && id in s.rows && s.rows[id].Relayed()
    ensures s.rows[id].status != Bounced && Count(s.log, Bouncing, id) == 0
    ensures forall e <- s.log :: e.id == id && e.kind == Sending ==> !e.signed
  {
    hide Reachable, OnSchedule;
    ReachableKeeps(domain, s);
    assert RowOk(s, id) && LogOk(s, id);
  }

  // ---------------------------------------------------------------- what one mark does, and when it is the last

  const FIVE_DAYS := 432_000

  /** A retry is left: fewer than six marks so far, and the row younger than five days. */
  ghost predicate RetryLeft(s: State, id: nat)
    requires id in s.rows
  {
    Count(s.log, Marking, id) < 6 && s.clock - s.rows[id].createdAt < FIVE_DAYS
  }

  /** In every reachable state, marking an attempt: the row stays live exactly after a soft failure with a retry left,
    * and is then due after the delay of that attempt; otherwise its status says how it ended, and nothing else about
    * the row changes. */
  lemma MarkIsExact(domain: string, s: State, id: nat, o: Outcome)
    requires Reachable(domain, s) && s.worker == Attempted(id, o) && id in s.rows
    ensures var row, t := s.rows[id], Next(s, Mark);
      && t.rows.Keys == s.rows.Keys && (forall j :: j in s.rows && j != id ==> t.rows[j] == s.rows[j])
      && var row' := t.rows[id];
         && row' == row.(status := row'.status, attempts := row'.attempts, nextRetryAt := row'.nextRetryAt)
         && (row'.Live() <==> o == SoftFailure && RetryLeft(s, id))
         && (row'.Live() ==>
               && row'.status == Pending && row'.attempts == row.attempts + 1 == Count(t.log, Marking, id)
               && row'.nextRetryAt == s.clock + RETRY_DELAYS[Count(t.log, Marking, id)])
         && (row'.status == Delivered <==> o == Success)
         && (row'.status == Failed <==>
               || o in {NoMessage, NoBlob, NotBuffered}
               || (row.Relayed() && (o == HardFailure || (o == SoftFailure && !RetryLeft(s, id)))))
         && (row'.status == Bounced <==>
               !row.Relayed() && (o == HardFailure || (o == SoftFailure && !RetryLeft(s, id))))
  {
    hide Reachable, OnSchedule, Possible;
    ReachableKeeps(domain, s);
    assert RowOk(s, id) && LogOk(s, id);
    CountAppend(s.log, Entry(Marking, id, false));
  }

  /** No step that concerns the row any more: it is never claimed, hence never attempted or marked. */
  ghost predicate LeftAlone(labels: seq<Label>, id: nat) {
    Claim(id) !in labels
  }

  lemma {:induction false} TerminalIsLeftAlone(domain: string, s: State, labels: seq<Label>, id: nat)
    requires Inv(domain, s) && Allowed(domain, s, labels)
    requires id < s.nextId && (id in s.rows ==> !s.rows[id].Live())
    requires !s.worker.Idle? ==> s.worker.Notifying? || s.worker.id != id
    ensures LeftAlone(labels, id)
    ensures var t := Run(s, labels); !t.worker.Idle? ==> t.worker.Notifying? || t.worker.id != id
    decreases |labels|
  {
    hide Inv, Possible, CanHappen, Finished;
    if labels != [] {
      StepKeeps(domain, s, labels[0]);
      TerminalStays(domain, s, labels[0], id);
      TerminalIsLeftAlone(domain, Next(s, labels[0]), labels[1..], id);
    }
  }

  /** A refusal for good is final: once marked, a sent row is bounced and a relayed one failed, whatever its age and
    * attempts, and in no continuation is the row claimed, attempted or marked again. */
  lemma RefusalIsFinal(domain: string, s: State, id: nat, labels: seq<Label>)
    requires Reachable(domain, s) && s.worker == Attempted(id, HardFailure) && id in s.rows
    requires Allowed(domain, Next(s, Mark), labels)
    ensures var t := Run(Next(s, Mark), labels);
      && LeftAlone(labels, id)
      && (id in t.rows ==> t.rows[id].status == if s.rows[id].Relayed() then Failed else Bounced)
      && Count(Next(s, Mark).log, Marking, id) == Count(s.log, Marking, id) + 1
  {
    hide Reachable, Allowed, LeftAlone, Run, Finished, Inv;
    MarkIsExact(domain, s, id, HardFailure);
    ReachableKeeps(domain, s);
    StepKeeps(domain, s, Mark);
    IdsAreOld(domain, s, id);
    TerminalIsForever(domain, Next(s, Mark), labels, id);
    TerminalIsLeftAlone(domain, Next(s, Mark), labels, id);
    CountAppend(s.log, Entry(Marking, id, false));
  }

  lemma IdsAreOld(domain: string, s: State, id: nat)
    requires Inv(domain, s) && id in s.rows
    ensures id < s.nextId
  {
    hide LogOk, OnSchedule;
    assert RowOk(s, id);
  }

  // ---------------------------------------------------------------- what is claimed

  /** Pending, or claimed and not finished, and its time has come. */
  predicate Waiting(rows: map<nat, Row>, id: nat, now: int) {
    id in rows && rows[id].status in {Pending, Delivering} && rows[id].nextRetryAt <= now
  }

  /** An idle worker claims a waiting row whose time came no later than that of any other, and none else; while rows
    * wait there is one to claim. */
  lemma ClaimIsExact(domain: string, s: State, id: nat)
    requires s.worker.Idle?
    ensures Enabled(domain, s, Claim(id)) <==>
            && Waiting(s.rows, id, s.clock)
            && forall j :: Waiting(s.rows, j, s.clock) ==> s.rows[id].nextRetryAt <= s.rows[j].nextRetryAt
    ensures Waiting(s.rows, id, s.clock) ==> exists c :: Enabled(domain, s, Claim(c))
  {
    assert forall j :: j in s.rows ==> (s.rows[j].Due(s.clock) <==> Waiting(s.rows, j, s.clock));
    if Waiting(s.rows, id, s.clock) {
      EarliestExists(s.rows, s.clock);
      var c :| Earliest(s.rows, c, s.clock);
      assert Enabled(domain, s, Claim(c));
    }
  }

  /** Claiming a row marks it in the table and gives it to the worker; trying it leaves the table alone, and what was
    * really sent is logged, with whether it was signed. */
  lemma AttemptIsRecorded(domain: string, s: State, id: nat, d: Delivery)
    requires Enabled(domain, s, Claim(id)) && Enabled(domain, Next(s, Claim(id)), Try(d))
    ensures var t, u := Next(s, Claim(id)), Next(Next(s, Claim(id)), Try(d));
      && t == s.(rows := s.rows[id := t.rows[id]], worker := Claimed(id))
      && t.rows[id] == s.rows[id].(status := Delivering)
      && u == t.(worker := Attempted(id, d.outcome), log := u.log)
      && (d.outcome == Success ==>
            u.log == t.log + [Entry(Sending, id, d.handoff.Some? && d.handoff.value.signed)])
      && (d.outcome != Success ==> u.log == t.log)
  {
    hide CanHappen;
  }

  /** A crash loses no row: one that was claimed or attempted and not yet marked waits again, and only a row already
    * delivered can be delivered twice because of it. */
  lemma CrashIsRecovered(domain: string, s: State)
    requires Reachable(domain, s) && !s.worker.Idle?
    ensures var t, id := Next(s, Crash), s.worker.id;
      && t.rows == s.rows && t.clock == s.clock && t.worker.Idle?
      && Count(t.log, Crashing, id) == Count(s.log, Crashing, id) + 1
      && (id in s.rows && (s.worker.Claimed? || s.worker.Attempted?) ==> Waiting(t.rows, id, t.clock))
  {
    hide Reachable, OnSchedule, LogOk, SignedOk, Possible;
    ReachableKeeps(domain, s);
    CountAppend(s.log, Entry(Crashing, s.worker.id, false));
  }

  /** A sent row that is given up is followed by its bounce message, the only one ever, unless storing it fails. */
  lemma BounceFollows(domain: string, s: State, id: nat, o: Outcome, stored: bool)
    requires Reachable(domain, s) && s.worker == Attempted(id, o) && id in s.rows
    requires Next(s, Mark).rows[id].status == Bounced
    ensures var t := Next(s, Mark);
      && Enabled(domain, t, Notify(stored))
      && Count(Next(t, Notify(stored)).log, Bouncing, id) == (if stored then 1 else 0)
      && Next(t, Notify(stored)).worker.Idle? && Next(t, Notify(stored)).rows == t.rows
  {
    hide Reachable, OnSchedule, SignedOk, Possible, Finished;
    ReachableKeeps(domain, s);
    CountAppend(s.log, Entry(Marking, id, false));
    var t := Next(s, Mark);
    CountAppend(t.log, Entry(Bouncing, id, false));
    assert LogOk(s, id);
    AttemptedIsLive(domain, s);
  }

  lemma AttemptedIsLive(domain: string, s: State)
    requires Inv(domain, s) && s.worker.Attempted? && s.worker.id in s.rows
    ensures s.rows[s.worker.id].status == Delivering
  {
    hide OnSchedule, LogOk, SignedOk, Possible;
  }
}
