/** One outbound_queue table, three views: the worker's rows (`QueueRuns`), the rows the hourly limit counts
  * (`RelayAdmission`), and the references to messages and blobs the mail store keeps (`MailStore`). */
module QueueTable {
  import opened Wrappers
  import opened DeliveryQueue
  import opened QueueRuns
  import RelayAdmission
  import MailRows
  import MailStore

  /** The columns of a row that the worker copies to the other side and never writes. */
  datatype Columns = Columns(mailFrom: string, blob: string)

  /** What the limit sees of the rows numbered below `n`: the relayed ones, in the order they came. */
  function Admitted(rows: map<nat, Row>, name: nat -> string, cols: nat -> Columns, n: nat)
    : seq<RelayAdmission.QueueRow>
  {
    if n == 0 then []
    else
      Admitted(rows, name, cols, n - 1)
      + if (n - 1) in rows && rows[n - 1].Relayed() then [AdmittedRow(rows[n - 1], name, cols(n - 1))] else []
  }

  function AdmittedRow(row: Row, name: nat -> string, c: Columns): RelayAdmission.QueueRow
    requires row.Relayed()
  {
    RelayAdmission.QueueRow(name(row.relayClient.value), c.mailFrom, c.blob, row.recipient, row.createdAt)
  }

  /** What the mail store sees: the message of a sent row, the blob of a relayed one. */
  function Stored(rows: map<nat, Row>, cols: nat -> Columns): map<nat, MailStore.QueueRow> {
    map id | id in rows :: StoredRow(rows[id], cols(id))
  }

  function StoredRow(row: Row, c: Columns): MailStore.QueueRow {
    MailStore.QueueRow(row.messageId, if row.Relayed() then Some(c.blob) else None)
  }

  /** Same owner, recipient and time of arrival. */
  predicate SameRow(a: Row, b: Row) {
    a.messageId == b.messageId && a.relayClient == b.relayClient && a.recipient == b.recipient
      && a.createdAt == b.createdAt
  }

  /** The relayed rows of two tables are the same, up to their progress. */
  ghost predicate SameRelayed(rows: map<nat, Row>, rows': map<nat, Row>, n: nat) {
    forall id :: 0 <= id < n ==>
      ((id in rows && rows[id].Relayed()) <==> (id in rows' && rows'[id].Relayed()))
      && (id in rows && rows[id].Relayed() && id in rows' ==> SameRow(rows[id], rows'[id]))
  }

  lemma {:induction false} SameAdmitted(
    rows: map<nat, Row>, rows': map<nat, Row>, name: nat -> string, cols: nat -> Columns, n: nat)
    requires SameRelayed(rows, rows', n)
    ensures Admitted(rows, name, cols, n) == Admitted(rows', name, cols, n)
  {
    if n > 0 {
      SameAdmitted(rows, rows', name, cols, n - 1);
    }
  }

  /** A mark writes the status, the attempts and the next retry, nothing else. */
  lemma FinishedIsSameRow(row: Row, o: Outcome, now: int)
    ensures SameRow(Finished(row, o, now), row)
  {}

  /** Nothing but a submission changes what the limit counts, and a submission adds its row at the end. */
  lemma StepAdmits(domain: string, s: State, l: Label, name: nat -> string, cols: nat -> Columns)
    requires Inv(domain, s) && Enabled(domain, s, l)
    ensures var s' := Next(s, l);
            Admitted(s'.rows, name, cols, s'.nextId) ==
            Admitted(s.rows, name, cols, s.nextId)
            + if l.EnqueueRelayed?
              then [AdmittedRow(NewRow(None, Some(l.client), l.to, s.clock), name, cols(s.nextId))] else []
  {
    hide Finished, OnSchedule, LogOk, SignedOk, CanHappen, WorkerOk, SameRow, AdmittedRow;
    var s' := Next(s, l);
    if l.Mark? && s.worker.Attempted? && s.worker.id in s.rows {
      FinishedIsSameRow(s.rows[s.worker.id], s.worker.outcome, s.clock);
    }
    StepKeepsRelayed(domain, s, l);
    SameAdmitted(s.rows, s'.rows, name, cols, s.nextId);
  }

  lemma StepKeepsRelayed(domain: string, s: State, l: Label)
    requires Inv(domain, s) && Enabled(domain, s, l)
    ensures SameRelayed(s.rows, Next(s, l).rows, s.nextId)
  {
    hide Finished, OnSchedule, LogOk, SignedOk, CanHappen;
    if l.Mark? && s.worker.Attempted? && s.worker.id in s.rows {
      FinishedIsSameRow(s.rows[s.worker.id], s.worker.outcome, s.clock);
    }
  }

  /** Nothing the worker does changes a reference to a message or blob; deleting a message removes its rows from the one
    * view as from the other. */
  lemma StepStores(domain: string, s: State, l: Label, cols: nat -> Columns)
    requires Inv(domain, s) && Enabled(domain, s, l) && !l.EnqueueSent? && !l.EnqueueRelayed?
    ensures var before, after := Stored(s.rows, cols), Stored(Next(s, l).rows, cols);
            if l.Purge? then after == map q | q in before && before[q].message != Some(l.message) :: before[q]
            else after == before
  {
    hide Finished, OnSchedule, LogOk, SignedOk, CanHappen;
    if l.Mark? && s.worker.id in s.rows {
      FinishedIsSameRow(s.rows[s.worker.id], s.worker.outcome, s.clock);
    }
  }

  /** However long the worker runs, whatever it delivers, retries or gives up and whatever mail is deleted: the next
    * submission is admitted or refused as if it had come at once. */
  lemma {:induction false} WorkerLeavesTheLimitAlone(
    domain: string, s: State, labels: seq<Label>, name: nat -> string, cols: nat -> Columns)
    requires Inv(domain, s) && Allowed(domain, s, labels)
    requires forall i :: 0 <= i < |labels| ==> !labels[i].EnqueueRelayed?
    ensures var s' := Run(s, labels);
            Admitted(s'.rows, name, cols, s'.nextId) == Admitted(s.rows, name, cols, s.nextId)
    decreases |labels|
  {
    hide Inv, Enabled, Next, Admitted;
    if labels != [] {
      StepKeeps(domain, s, labels[0]);
      StepAdmits(domain, s, labels[0], name, cols);
      WorkerLeavesTheLimitAlone(domain, Next(s, labels[0]), labels[1..], name, cols);
    }
  }

  function Enqueueing(client: nat, recipients: seq<string>): seq<Label> {
    seq(|recipients|, i requires 0 <= i < |recipients| => EnqueueRelayed(client, recipients[i]))
  }

  /** An accepted submission is one enqueueing per recipient at one moment. */
  lemma {:induction false} SubmissionIsEnqueueing(
    domain: string, s: State, client: nat, recipients: seq<string>, name: nat -> string, cols: nat -> Columns,
    c: Columns)
    requires Inv(domain, s) && forall id: nat :: s.nextId <= id < s.nextId + |recipients| ==> cols(id) == c
    ensures var s' := Run(s, Enqueueing(client, recipients));
            && Allowed(domain, s, Enqueueing(client, recipients))
            && Admitted(s'.rows, name, cols, s'.nextId) ==
               Admitted(s.rows, name, cols, s.nextId)
               + RelayAdmission.Batch(name(client), c.mailFrom, c.blob, recipients, s.clock)
    decreases |recipients|
  {
    hide Inv, Admitted;
    if recipients != [] {
      var l := EnqueueRelayed(client, recipients[0]);
      var s1 := Next(s, l);
      StepKeeps(domain, s, l);
      StepAdmits(domain, s, l, name, cols);
      SubmissionIsEnqueueing(domain, s1, client, recipients[1..], name, cols, c);
      assert Enqueueing(client, recipients)[1..] == Enqueueing(client, recipients[1..]);
      assert RelayAdmission.Batch(name(client), c.mailFrom, c.blob, recipients, s.clock) ==
             [AdmittedRow(NewRow(None, Some(client), recipients[0], s.clock), name, c)]
             + RelayAdmission.Batch(name(client), c.mailFrom, c.blob, recipients[1..], s.clock);
    } else {
      assert RelayAdmission.Batch(name(client), c.mailFrom, c.blob, recipients, s.clock) == [];
    }
  }

  function Sending(message: nat, recipients: seq<string>): seq<Label> {
    seq(|recipients|, i requires 0 <= i < |recipients| => EnqueueSent(message, recipients[i]))
  }

  /** The rows `from`, `from + 1`, … are new rows of the message, one for each recipient, in order. */
  ghost predicate AddsSent(
    rows: map<nat, Row>, after: map<nat, Row>, from: nat, message: nat, recipients: seq<string>, now: int)
  {
    && (forall id :: id in after <==> id in rows || from <= id < from + |recipients|)
    && (forall id :: id in rows ==> after[id] == rows[id])
    && (forall id :: id in after && from <= id < from + |recipients| ==>
          after[id] == Row(Some(message), None, recipients[id - from], Pending, 0, now, now))
  }

  lemma AddsOneSentFirst(
    rows: map<nat, Row>, after: map<nat, Row>, from: nat, message: nat, recipients: seq<string>, now: int)
    requires recipients != [] && forall id :: id in rows ==> id < from
    requires AddsSent(rows[from := NewRow(Some(message), None, recipients[0], now)], after, from + 1, message,
               recipients[1..], now)
    ensures AddsSent(rows, after, from, message, recipients, now)
  {
    assert forall i :: 0 < i < |recipients| ==> recipients[i] == recipients[1..][i - 1];
  }

  lemma RowsAreNumbered(domain: string, s: State)
    requires Inv(domain, s)
    ensures forall id :: id in s.rows ==> id < s.nextId
  {
    hide OnSchedule, LogOk, SignedOk, WorkerOk;
    forall id | id in s.rows ensures id < s.nextId {
      assert RowOk(s, id);
    }
  }

  lemma {:induction false} SendingAddsRows(domain: string, s: State, message: nat, recipients: seq<string>)
    requires Inv(domain, s)
    ensures var s' := Run(s, Sending(message, recipients));
            && Allowed(domain, s, Sending(message, recipients))
            && AddsSent(s.rows, s'.rows, s.nextId, message, recipients, s.clock)
            && s'.nextId == s.nextId + |recipients|
    decreases |recipients|
  {
    hide Inv;
    if recipients != [] {
      hide AddsSent;
      var l := EnqueueSent(message, recipients[0]);
      var s1 := Next(s, l);
      StepKeeps(domain, s, l);
      RowsAreNumbered(domain, s);
      SendingAddsRows(domain, s1, message, recipients[1..]);
      assert Sending(message, recipients)[1..] == Sending(message, recipients[1..]);
      AddsOneSentFirst(s.rows, Run(s1, Sending(message, recipients[1..])).rows, s.nextId, message, recipients, s.clock);
    }
  }

  /** A sent message is one enqueueing per recipient at one moment, each a row of its own that is due at once; if both
    * number rows alike, the mail store queues exactly these. */
  lemma SendingIsEnqueueing(
    domain: string, s: State, message: nat, recipients: seq<string>, cols: nat -> Columns, m: MailStore.State)
    requires Inv(domain, s)
    requires m.queue == Stored(s.rows, cols) && m.nextId == s.nextId
    ensures var s', m' := Run(s, Sending(message, recipients)), MailStore.QueuedFor(m, message, |recipients|);
            && Allowed(domain, s, Sending(message, recipients))
            && AddsSent(s.rows, s'.rows, s.nextId, message, recipients, s.clock)
            && m'.queue == Stored(s'.rows, cols) && m'.nextId == s'.nextId
  {
    hide Inv, Allowed, Run, MailStore.QueuedFor;
    SendingAddsRows(domain, s, message, recipients);
    RowsAreNumbered(domain, s);
    MailRows.QueueingIsExact(m, message, |recipients|);
  }
}
