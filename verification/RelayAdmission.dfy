/** The authenticated submission session and its hourly limit (internal/smtp/submission.go). Times are in seconds. */
module RelayAdmission {
  import opened Wrappers
  import opened GoText
  import Text

  const HOUR := 3600
  const MAX_RECIPIENTS := 100

  datatype RelayClient = RelayClient(id: string, ratePerHour: int)

  datatype QueueRow = QueueRow(client: string, mailFrom: string, blob: string, to: string, createdAt: int)

  datatype Reply = Accepted | AuthRequired | NoRecipients | TooManyRecipients | RateLimited | StorageError | QueueError

  /** What the environment decides during one DATA command. */
  datatype Conditions = Conditions(checkAt: int, insertAt: int, countWorks: bool, blobWorks: bool, insertWorks: bool)

  function CountSince(rows: seq<QueueRow>, client: string, since: int): nat {
    CountWithin(rows, client, since, None)
  }

  /** Rows of one client created from `low` on and, if given, up to `high`, both ends included. */
  function CountWithin(rows: seq<QueueRow>, client: string, low: int, high: Option<int>): nat
    decreases |rows|
  {
    if rows == [] then 0
    else
      var r := rows[|rows| - 1];
      CountWithin(rows[..|rows| - 1], client, low, high)
      + if r.client == client && low <= r.createdAt && (high.Some? ==> r.createdAt <= high.value) then 1 else 0
  }

  function OverLimit(rows: seq<QueueRow>, c: RelayClient, recipients: nat, cond: Conditions): bool {
    c.ratePerHour > 0 && cond.countWorks && CountSince(rows, c.id, cond.checkAt - HOUR) + recipients > c.ratePerHour
  }

  function Batch(client: string, mailFrom: string, blob: string, recipients: seq<string>, at: int): (b: seq<QueueRow>)
    ensures |b| == |recipients|
  {
    seq(|recipients|, i requires 0 <= i < |recipients| => QueueRow(client, mailFrom, blob, recipients[i], at))
  }

  /** The table, shared by all sessions. */
  class RelayStore {
    var rows: seq<QueueRow>

    constructor ()
      ensures rows == []
    {
      rows := [];
    }

    /** One statement per recipient, all or none of them taking effect. */
    method EnqueueRelayed(client: string, mailFrom: string, blob: string, recipients: seq<string>, at: int, works: bool)
      returns (ok: bool)
      modifies this
      ensures ok == works
      ensures rows == old(rows) + if works then Batch(client, mailFrom, blob, recipients, at) else []
    {
      if !works {
        return false;
      }
      var i := 0;
      var staged := rows;
      while i < |recipients|
        invariant 0 <= i <= |recipients|
        invariant staged == rows + Batch(client, mailFrom, blob, recipients, at)[..i]
      {
        staged := staged + [QueueRow(client, mailFrom, blob, recipients[i], at)];
        i := i + 1;
      }
      assert Batch(client, mailFrom, blob, recipients, at)[..i] == Batch(client, mailFrom, blob, recipients, at);
      rows := staged;
      return true;
    }
  }

  class SubmissionSession {
    const store: RelayStore
    var client: Option<RelayClient>
    var mailFrom: string
    var recipients: seq<string>

    ghost predicate Valid()
      reads this
    {
      |recipients| <= MAX_RECIPIENTS && (client.None? ==> recipients == [])
    }

    constructor (store: RelayStore)
      ensures this.store == store && Valid() && client == None && recipients == []
    {
      this.store := store;
      client, mailFrom, recipients := None, "", [];
    }

    /** A successful login; every failure leaves the session as it was. */
    method Authenticated(c: RelayClient)
      requires Valid()
      modifies this
      ensures Valid() && client == Some(c) && mailFrom == old(mailFrom) && recipients == old(recipients)
    {
      client := Some(c);
    }

    method Mail(sender: string) returns (reply: Reply)
      requires Valid()
      modifies this
      ensures Valid() && client == old(client) && recipients == old(recipients)
      ensures reply == if client.None? then AuthRequired else Accepted
      ensures mailFrom == if client.None? then old(mailFrom) else Text.Lower(TrimSpace(sender))
    {
      if client.None? {
        return AuthRequired;
      }
      mailFrom := Text.Lower(TrimSpace(sender));
      return Accepted;
    }

    method Rcpt(to: string) returns (reply: Reply)
      requires Valid()
      modifies this
      ensures Valid() && client == old(client) && mailFrom == old(mailFrom)
      ensures reply == if client.None? then AuthRequired
                       else if |old(recipients)| >= 100 then TooManyRecipients else Accepted
      ensures recipients == old(recipients) + if reply == Accepted then [Text.Lower(TrimSpace(to))] else []
    {
      if client.None? {
        return AuthRequired;
      }
      if |recipients| >= MAX_RECIPIENTS {
        return TooManyRecipients;
      }
      recipients := recipients + [Text.Lower(TrimSpace(to))];
      return Accepted;
    }

    method Data(blob: string, cond: Conditions) returns (reply: Reply)
      requires Valid()
      modifies store
      ensures reply == AuthRequired <==> client.None?
      ensures reply != Accepted ==> store.rows == old(store.rows)
      ensures client.Some? ==>
                (store.rows, reply) ==
                Submit(old(store.rows), Submission(client.value, mailFrom, blob, recipients, cond))
    {
      if client.None? {
        return AuthRequired;
      }
      if |recipients| == 0 {
        return NoRecipients;
      }
      var cap := client.value.ratePerHour;
      if cap > 0 {
        var n := CountSince(store.rows, client.value.id, cond.checkAt - HOUR);
        if cond.countWorks && n + |recipients| > cap {
          return RateLimited;
        }
      }
      if !cond.blobWorks {
        return StorageError;
      }
      var ok := store.EnqueueRelayed(client.value.id, mailFrom, blob, recipients, cond.insertAt, cond.insertWorks);
      if !ok {
        return QueueError;
      }
      return Accepted;
    }

    method Reset()
      requires Valid()
      modifies this
      ensures Valid() && client == old(client) && mailFrom == "" && recipients == []
    {
      mailFrom, recipients := "", [];
    }
  }

  // ---------------------------------------------------------------- runs of submissions

  datatype Submission = Submission(
    client: RelayClient, mailFrom: string, blob: string, recipients: seq<string>, cond: Conditions)

  function Submit(rows: seq<QueueRow>, s: Submission): (seq<QueueRow>, Reply) {
    if s.recipients == [] then (rows, NoRecipients)
    else if OverLimit(rows, s.client, |s.recipients|, s.cond) then (rows, RateLimited)
    else if !s.cond.blobWorks then (rows, StorageError)
    else if !s.cond.insertWorks then (rows, QueueError)
    else (rows + Batch(s.client.id, s.mailFrom, s.blob, s.recipients, s.cond.insertAt), Accepted)
  }

  /** The table after a list of submissions, each seeing the rows of all before it. */
  function After(subs: seq<Submission>): seq<QueueRow>
    decreases |subs|
  {
    if subs == [] then [] else Submit(After(subs[..|subs| - 1]), subs[|subs| - 1]).0
  }

  /** One client's submissions carry one positive limit, are counted successfully, and insert no earlier than they
    * count. */
  ghost predicate Regular(subs: seq<Submission>, client: string, cap: int) {
    && cap > 0
    && forall i :: 0 <= i < |subs| && subs[i].client.id == client ==>
         && subs[i].client.ratePerHour == cap
         && subs[i].cond.countWorks
         && subs[i].cond.checkAt <= subs[i].cond.insertAt
  }

  lemma {:induction false} CountBatch(
    rows: seq<QueueRow>, batch: seq<QueueRow>, client: string, low: int, high: Option<int>)
    ensures CountWithin(rows + batch, client, low, high)
         == CountWithin(rows, client, low, high) + CountWithin(batch, client, low, high)
    decreases |batch|
  {
    if batch == [] {
      assert rows + batch == rows;
    } else {
      assert (rows + batch)[..|rows + batch| - 1] == rows + batch[..|batch| - 1];
      CountBatch(rows, batch[..|batch| - 1], client, low, high);
    }
  }

  lemma {:induction false} CountOfBatch(
    client: string, mailFrom: string, blob: string, recipients: seq<string>, at: int,
    who: string, low: int, high: Option<int>)
    ensures CountWithin(Batch(client, mailFrom, blob, recipients, at), who, low, high)
         == if client == who && low <= at && (high.Some? ==> at <= high.value) then |recipients| else 0
    decreases |recipients|
  {
    var batch := Batch(client, mailFrom, blob, recipients, at);
    if recipients != [] {
      var fewer := recipients[..|recipients| - 1];
      assert batch[..|batch| - 1] == Batch(client, mailFrom, blob, fewer, at);
      CountOfBatch(client, mailFrom, blob, fewer, at, who, low, high);
    }
  }

  lemma {:induction false} WiderCountsMore(rows: seq<QueueRow>, client: string, low: int, high: int, since: int)
    requires since <= low
    ensures CountWithin(rows, client, low, Some(high)) <= CountSince(rows, client, since)
    decreases |rows|
  {
    if rows != [] {
      WiderCountsMore(rows[..|rows| - 1], client, low, high, since);
    }
  }

  /** Over the whole run every window of one hour, wherever it starts and with both ends included, holds at most the
    * client's limit: not only the windows that end at a check.
    */
  lemma {:induction false} EveryHourIsWithinTheLimit(subs: seq<Submission>, client: string, cap: int, low: int)
    requires Regular(subs, client, cap)
    ensures CountWithin(After(subs), client, low, Some(low + HOUR)) <= cap
    decreases |subs|
  {
    hide Batch;
    if subs != [] {
      var before, s := subs[..|subs| - 1], subs[|subs| - 1];
      var rows := After(before);
      EveryHourIsWithinTheLimit(before, client, cap, low);
      if Submit(rows, s).1 == Accepted {
        var batch := Batch(s.client.id, s.mailFrom, s.blob, s.recipients, s.cond.insertAt);
        CountBatch(rows, batch, client, low, Some(low + HOUR));
        CountOfBatch(s.client.id, s.mailFrom, s.blob, s.recipients, s.cond.insertAt, client, low, Some(low + HOUR));
        if s.client.id == client && s.cond.insertAt <= low + HOUR {
          WiderCountsMore(rows, client, low, low + HOUR, s.cond.checkAt - HOUR);
        }
      }
    }
  }

  /** Recipients of one client's accepted submissions of a run, from `since` on. */
  function AcceptedSince(subs: seq<Submission>, client: string, since: int): nat
    decreases |subs|
  {
    if subs == [] then 0
    else
      var before, s := subs[..|subs| - 1], subs[|subs| - 1];
      AcceptedSince(before, client, since)
      + if s.client.id == client && since <= s.cond.insertAt && Submit(After(before), s).1 == Accepted
        then |s.recipients| else 0
  }

  /** The rows counted are the recipients accepted. */
  lemma {:induction false} RowsAreTheAccepted(subs: seq<Submission>, client: string, since: int)
    ensures CountSince(After(subs), client, since) == AcceptedSince(subs, client, since)
    decreases |subs|
  {
    hide Batch, OverLimit;
    if subs != [] {
      var before, s := subs[..|subs| - 1], subs[|subs| - 1];
      RowsAreTheAccepted(before, client, since);
      var batch := Batch(s.client.id, s.mailFrom, s.blob, s.recipients, s.cond.insertAt);
      CountBatch(After(before), batch, client, since, None);
      CountOfBatch(s.client.id, s.mailFrom, s.blob, s.recipients, s.cond.insertAt, client, since, None);
    }
  }

  /** After any run a submission is refused for its number if and only if the client has a limit, the count works, and
    * the recipients accepted in the past hour together with its own exceed the limit. */
  lemma LimitIsExact(subs: seq<Submission>, s: Submission)
    requires s.recipients != []
    ensures Submit(After(subs), s).1 == RateLimited <==>
            && s.client.ratePerHour > 0 && s.cond.countWorks
            && AcceptedSince(subs, s.client.id, s.cond.checkAt - 3600) + |s.recipients| > s.client.ratePerHour
  {
    hide AcceptedSince, After, CountSince;
    RowsAreTheAccepted(subs, s.client.id, s.cond.checkAt - HOUR);
  }

  /** After any run a submission is accepted if and only if it has recipients, stays within the limit, and its text and
    * its rows can be written; then it adds one row per recipient, in order. Any other leaves the table as it was, and
    * the reply tells what was wrong first. */
  lemma SubmissionIsExact(subs: seq<Submission>, s: Submission)
    ensures var rows, over := After(subs), s.client.ratePerHour > 0 && s.cond.countWorks
              && AcceptedSince(subs, s.client.id, s.cond.checkAt - HOUR) + |s.recipients| > s.client.ratePerHour;
      var (after, reply) := Submit(rows, s);
      && (reply == Accepted <==> s.recipients != [] && !over && s.cond.blobWorks && s.cond.insertWorks)
      && (reply == NoRecipients <==> s.recipients == [])
      && (reply == StorageError <==> s.recipients != [] && !over && !s.cond.blobWorks)
      && (reply == QueueError <==> s.recipients != [] && !over && s.cond.blobWorks && !s.cond.insertWorks)
      && (reply != Accepted ==> after == rows)
      && (reply == Accepted ==>
            && |after| == |rows| + |s.recipients| && after[..|rows|] == rows
            && forall i :: 0 <= i < |s.recipients| ==>
                 after[|rows| + i] ==
                 QueueRow(s.client.id, s.mailFrom, s.blob, s.recipients[i], s.cond.insertAt))
  {
    hide AcceptedSince, After, CountSince;
    RowsAreTheAccepted(subs, s.client.id, s.cond.checkAt - HOUR);
  }
}
