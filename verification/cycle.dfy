/** One pass of `autoReply` (index.js), as a sequential abstraction: the
    vacation label is fetched or created, the first page of unread inbox
    messages is taken, and every listed thread whose snapshot is eligible is
    answered once and moved out of the inbox into the vacation label.

    The mailbox is an in-memory store: threads by id, and the messages sent so
    far.  The provider's own behaviour is modelled where the source relies on
    it: a sent reply joins its thread, and a relabel removes one label id and
    adds another. */
module Cycle {
  import Reply
  import Labels

  type ThreadId = string

  /** The system label `threads.modify` removes. */
  const Inbox: string := "INBOX"
  /** `maxResults` of the listing: at most this many candidates per pass. */
  const MaxResults: nat := 10
  /** The label every pass fetches or creates. */
  const VacationLabelName: string := "Vacation Email"

  datatype Thread = Thread(messages: seq<Reply.Message>, labelIds: set<string>)

  /** A `messages.send` request in a thread, answering one message: its raw
      body is `Raw` of it. */
  datatype Sent = Sent(threadId: ThreadId, inReplyTo: Reply.Message)

  datatype Mailbox = Mailbox(threads: map<ThreadId, Thread>, outbox: seq<Sent>)

  /** Everything a pass reads and changes: the label store and the mailbox. */
  datatype State = State(labels: seq<Labels.Label>, box: Mailbox)

  /** A thread is answered only when it holds a single message that arrived
      after the process started. */
  predicate Eligible(t: Thread, start: int) {
    |t.messages| == 1 && t.messages[0].internalDate > start
  }

  /** `removeLabelIds: ['INBOX'], addLabelIds: [labelId]`. */
  function Relabel(labelIds: set<string>, labelId: string): (r: set<string>)
    ensures labelId in r
    ensures labelId != Inbox ==> Inbox !in r
    ensures labelIds - {Inbox} <= r <= labelIds + {labelId}
  {
    (labelIds - {Inbox}) + {labelId}
  }

  /** The `raw` field of a send request: the base64url reply to the message
      it answers. */
  function Raw(s: Sent): string {
    Reply.GenerateEmailContent(s.inReplyTo).encodedMessage
  }

  /** The sent reply as it then appears in the thread: the headers of the
      generated message, stamped with the time the provider accepted it. */
  function SentMessage(t: Thread, sentAt: int): Reply.Message
    requires |t.messages| >= 1
  {
    var f := Reply.ScanHeaders(t.messages[0].headers);
    Reply.Message(sentAt, [Reply.Header("From", f.to), Reply.Header("To", f.from), Reply.Header("Subject", f.subject)])
  }

  /** A thread after it has been answered and relabelled. */
  function Replied(t: Thread, labelId: string, sentAt: int): (r: Thread)
    requires |t.messages| >= 1
    ensures |r.messages| == |t.messages| + 1 && t.messages <= r.messages
    ensures labelId in r.labelIds
  {
    Thread(t.messages + [SentMessage(t, sentAt)], Relabel(t.labelIds, labelId))
  }

  /** One listed candidate: the thread is fetched, and if it is eligible a
      reply is sent and the thread relabelled.  A thread the store does not
      hold is skipped. */
  function ProcessCandidate(box: Mailbox, id: ThreadId, start: int, labelId: string, sentAt: int): (r: Mailbox)
    ensures r.threads.Keys == box.threads.Keys
    ensures forall other | other in box.threads && other != id :: r.threads[other] == box.threads[other]
    ensures id in box.threads && Eligible(box.threads[id], start) ==>
      r.outbox == box.outbox + [Sent(id, box.threads[id].messages[0])] &&
      r.threads[id] == Replied(box.threads[id], labelId, sentAt)
    ensures !(id in box.threads && Eligible(box.threads[id], start)) ==> r == box
  {
    if id !in box.threads then box
    else
      var t := box.threads[id];
      if !Eligible(t, start) then box
      else
        Mailbox(box.threads[id := Replied(t, labelId, sentAt)], box.outbox + [Sent(id, t.messages[0])])
  }

  /** The candidates, handled one after another in listing order. */
  function RunCycle(box: Mailbox, ids: seq<ThreadId>, start: int, labelId: string, sentAt: int): (r: Mailbox)
    ensures box.outbox <= r.outbox
    ensures r.threads.Keys == box.threads.Keys
    decreases |ids|
  {
    if |ids| == 0 then box
    else RunCycle(ProcessCandidate(box, ids[0], start, labelId, sentAt), ids[1..], start, labelId, sentAt)
  }

  /** Reference for the messages a pass sends: the eligible candidates of the
      snapshot, in listing order, each with its reply. */
  function ExpectedSends(threads: map<ThreadId, Thread>, ids: seq<ThreadId>, start: int): seq<Sent>
    decreases |ids|
  {
    if |ids| == 0 then []
    else
      var id := ids[0];
      (if id in threads && Eligible(threads[id], start) then [Sent(id, threads[id].messages[0])] else [])
        + ExpectedSends(threads, ids[1..], start)
  }

  /** Reference for the threads after a pass: listed eligible threads are
      answered and relabelled, every other thread is as it was. */
  function ExpectedThreads(threads: map<ThreadId, Thread>, ids: seq<ThreadId>, start: int, labelId: string, sentAt: int): map<ThreadId, Thread>
  {
    map id | id in threads :: if id in ids && Eligible(threads[id], start) then Replied(threads[id], labelId, sentAt) else threads[id]
  }

  predicate Distinct(ids: seq<ThreadId>) {
    forall i, j :: 0 <= i < j < |ids| ==> ids[i] != ids[j]
  }

  /** The reference sends depend only on the listed threads. */
  lemma {:induction false} ExpectedSendsFrame(t1: map<ThreadId, Thread>, t2: map<ThreadId, Thread>, ids: seq<ThreadId>, start: int)
    requires forall id | id in ids :: (id in t1 <==> id in t2) && (id in t1 ==> t1[id] == t2[id])
    ensures ExpectedSends(t1, ids, start) == ExpectedSends(t2, ids, start)
    decreases |ids|
  {
    if |ids| > 0 {
      assert ids[0] in ids;
      ExpectedSendsFrame(t1, t2, ids[1..], start);
    }
  }

  /** A pass over distinct candidates sends exactly the reference messages. */
  lemma {:induction false} RunCycleSends(box: Mailbox, ids: seq<ThreadId>, start: int, labelId: string, sentAt: int)
    requires Distinct(ids)
    ensures RunCycle(box, ids, start, labelId, sentAt).outbox == box.outbox + ExpectedSends(box.threads, ids, start)
    decreases |ids|
  {
    if |ids| > 0 {
      var a := ids[0];
      var rest := ids[1..];
      var b1 := ProcessCandidate(box, a, start, labelId, sentAt);
      assert Distinct(rest);
      assert a !in rest;
      RunCycleSends(b1, rest, start, labelId, sentAt);
      ExpectedSendsFrame(b1.threads, box.threads, rest, start);
      var head := if a in box.threads && Eligible(box.threads[a], start) then [Sent(a, box.threads[a].messages[0])] else [];
      var tail := ExpectedSends(box.threads, rest, start);
      assert b1.outbox == box.outbox + head;
      assert ExpectedSends(box.threads, ids, start) == head + tail;
      AppendAssoc(box.outbox, head, tail);
    }
  }

  lemma AppendAssoc(a: seq<Sent>, b: seq<Sent>, c: seq<Sent>)
    ensures (a + b) + c == a + (b + c)
  {
  }

  /** A pass over distinct candidates leaves exactly the reference threads. */
  lemma {:induction false} RunCycleThreadsDistinct(box: Mailbox, ids: seq<ThreadId>, start: int, labelId: string, sentAt: int)
    requires Distinct(ids)
    ensures RunCycle(box, ids, start, labelId, sentAt).threads == ExpectedThreads(box.threads, ids, start, labelId, sentAt)
    decreases |ids|
  {
    if |ids| > 0 {
      var a := ids[0];
      var rest := ids[1..];
      var b1 := ProcessCandidate(box, a, start, labelId, sentAt);
      assert Distinct(rest);
      assert a !in rest;
      RunCycleThreadsDistinct(b1, rest, start, labelId, sentAt);
      ExpectedThreadsStep(box, ids, start, labelId, sentAt);
    }
  }

  /** Handling the first candidate, then the reference for the others, is the
      reference for all of them. */
  lemma ExpectedThreadsStep(box: Mailbox, ids: seq<ThreadId>, start: int, labelId: string, sentAt: int)
    requires |ids| > 0 && ids[0] !in ids[1..]
    ensures ExpectedThreads(ProcessCandidate(box, ids[0], start, labelId, sentAt).threads, ids[1..], start, labelId, sentAt)
         == ExpectedThreads(box.threads, ids, start, labelId, sentAt)
  {
    var a, rest := ids[0], ids[1..];
    var b1 := ProcessCandidate(box, a, start, labelId, sentAt);
    var e1 := ExpectedThreads(b1.threads, rest, start, labelId, sentAt);
    var e := ExpectedThreads(box.threads, ids, start, labelId, sentAt);
    forall id | id in box.threads
      ensures e1[id] == e[id]
    {
      if id != a {
        assert id in ids <==> id in rest;
      }
    }
  }

  /** `ids` without any occurrence of `a`. */
  function Without(ids: seq<ThreadId>, a: ThreadId): (r: seq<ThreadId>)
    ensures |r| <= |ids|
    ensures forall x :: x in r <==> x in ids && x != a
    decreases |ids|
  {
    if |ids| == 0 then []
    else if ids[0] == a then Without(ids[1..], a)
    else [ids[0]] + Without(ids[1..], a)
  }

  /** The first occurrence of each candidate, in listing order. */
  function Dedup(ids: seq<ThreadId>): (r: seq<ThreadId>)
    ensures Distinct(r)
    ensures |r| <= |ids|
    ensures forall x :: x in r <==> x in ids
    decreases |ids|
  {
    if |ids| == 0 then []
    else
      var rest := Dedup(Without(ids[1..], ids[0]));
      assert ids[0] !in rest;
      [ids[0]] + rest
  }

  /** A thread that a candidate step would leave alone. */
  predicate Settled(box: Mailbox, a: ThreadId, start: int) {
    a !in box.threads || !Eligible(box.threads[a], start)
  }

  /** Once a thread is settled, listing it again changes nothing. */
  lemma {:induction false} SkipSettled(box: Mailbox, a: ThreadId, ids: seq<ThreadId>, start: int, labelId: string, sentAt: int)
    requires Settled(box, a, start)
    ensures RunCycle(box, ids, start, labelId, sentAt) == RunCycle(box, Without(ids, a), start, labelId, sentAt)
    decreases |ids|
  {
    if |ids| > 0 {
      if ids[0] == a {
        SkipSettled(box, a, ids[1..], start, labelId, sentAt);
      } else {
        var b1 := ProcessCandidate(box, ids[0], start, labelId, sentAt);
        SkipSettled(b1, a, ids[1..], start, labelId, sentAt);
        var w := Without(ids, a);
        assert w[0] == ids[0] && w[1..] == Without(ids[1..], a);
      }
    }
  }

  /** A thread is settled once its candidate step has run: an answered thread
      holds two messages. */
  lemma SettledAfterProcess(box: Mailbox, a: ThreadId, start: int, labelId: string, sentAt: int)
    ensures Settled(ProcessCandidate(box, a, start, labelId, sentAt), a, start)
  {
  }

  /** A listing that repeats a thread behaves as the listing of first
      occurrences: no thread is answered twice in one pass. */
  lemma {:induction false} RunCycleDedup(box: Mailbox, ids: seq<ThreadId>, start: int, labelId: string, sentAt: int)
    ensures RunCycle(box, ids, start, labelId, sentAt) == RunCycle(box, Dedup(ids), start, labelId, sentAt)
    decreases |ids|
  {
    if |ids| > 0 {
      var a := ids[0];
      var b1 := ProcessCandidate(box, a, start, labelId, sentAt);
      SettledAfterProcess(box, a, start, labelId, sentAt);
      SkipSettled(b1, a, ids[1..], start, labelId, sentAt);
      RunCycleDedup(b1, Without(ids[1..], a), start, labelId, sentAt);
      var d := Dedup(ids);
      assert d[0] == a && d[1..] == Dedup(Without(ids[1..], a));
    }
  }

  /** A pass over any listing leaves exactly the reference threads: each
      listed eligible thread answered and relabelled once, however often it
      is listed, and every other thread as it was. */
  lemma RunCycleThreads(box: Mailbox, ids: seq<ThreadId>, start: int, labelId: string, sentAt: int)
    ensures RunCycle(box, ids, start, labelId, sentAt).threads == ExpectedThreads(box.threads, ids, start, labelId, sentAt)
  {
    RunCycleDedup(box, ids, start, labelId, sentAt);
    RunCycleThreadsDistinct(box, Dedup(ids), start, labelId, sentAt);
    ExpectedThreadsMembers(box.threads, Dedup(ids), ids, start, labelId, sentAt);
  }

  /** The sends of a pass over any listing: one per eligible listed thread,
      in order of first listing. */
  lemma RunCycleEffect(box: Mailbox, ids: seq<ThreadId>, start: int, labelId: string, sentAt: int)
    ensures var r := RunCycle(box, ids, start, labelId, sentAt);
      r.outbox == box.outbox + ExpectedSends(box.threads, Dedup(ids), start) &&
      r.threads == ExpectedThreads(box.threads, ids, start, labelId, sentAt)
  {
    RunCycleDedup(box, ids, start, labelId, sentAt);
    RunCycleSends(box, Dedup(ids), start, labelId, sentAt);
    RunCycleThreads(box, ids, start, labelId, sentAt);
  }

  /** The reference threads depend on which threads are listed, not on order or repetition. */
  lemma ExpectedThreadsMembers(threads: map<ThreadId, Thread>, ids1: seq<ThreadId>, ids2: seq<ThreadId>, start: int, labelId: string, sentAt: int)
    requires forall x :: x in ids1 <==> x in ids2
    ensures ExpectedThreads(threads, ids1, start, labelId, sentAt) == ExpectedThreads(threads, ids2, start, labelId, sentAt)
  {
  }

  /** The reference sends: one per distinct eligible candidate, so never more
      than there are candidates. */
  lemma {:induction false} ExpectedSendsBound(threads: map<ThreadId, Thread>, ids: seq<ThreadId>, start: int)
    ensures |ExpectedSends(threads, ids, start)| <= |ids|
    ensures forall i | 0 <= i < |ExpectedSends(threads, ids, start)| ::
      var s := ExpectedSends(threads, ids, start)[i];
      s.threadId in ids && s.threadId in threads && Eligible(threads[s.threadId], start) && s.inReplyTo == threads[s.threadId].messages[0]
    decreases |ids|
  {
    if |ids| > 0 {
      ExpectedSendsBound(threads, ids[1..], start);
    }
  }

  function Min(a: int, b: int): int {
    if a <= b then a else b
  }

  /** The first page of the listing: `messages.list` with `maxResults: 10`. */
  function FirstPage(listing: seq<ThreadId>): (page: seq<ThreadId>)
    ensures |page| <= MaxResults
    ensures |page| == Min(|listing|, MaxResults)
    ensures page <= listing
    ensures |listing| <= MaxResults ==> page == listing
  {
    listing[..Min(|listing|, MaxResults)]
  }

  /** `autoReply`: fetch or create the vacation label, then answer the first
      page of candidates.  `freshLabelId` is the id the provider would give a
      new label, `sentAt` the time it stamps on sent replies. */
  function AutoReply(s: State, listing: seq<ThreadId>, start: int, freshLabelId: string, sentAt: int): (r: State)
    ensures s.box.outbox <= r.box.outbox
    ensures s.labels <= r.labels
  {
    var res := Labels.CreateLabel(s.labels, VacationLabelName, freshLabelId);
    State(res.store, RunCycle(s.box, FirstPage(listing), start, res.found.id, sentAt))
  }

  /** A pass sends at most one message per page entry, each to an eligible
      thread of the snapshot and holding the reply to its first message;
      earlier sends are kept; every eligible thread on the page is answered
      and moved to the vacation label, and every other thread is untouched. */
  lemma AutoReplyEffect(s: State, listing: seq<ThreadId>, start: int, freshLabelId: string, sentAt: int)
    ensures var s' := AutoReply(s, listing, start, freshLabelId, sentAt);
      var lab := Labels.CreateLabel(s.labels, VacationLabelName, freshLabelId).found;
      var added := s'.box.outbox[|s.box.outbox|..];
      s.box.outbox <= s'.box.outbox &&
      added == ExpectedSends(s.box.threads, Dedup(FirstPage(listing)), start) &&
      |added| <= MaxResults &&
      (forall i | 0 <= i < |added| ::
        added[i].threadId in FirstPage(listing) &&
        added[i].threadId in s.box.threads && Eligible(s.box.threads[added[i].threadId], start) &&
        added[i].inReplyTo == s.box.threads[added[i].threadId].messages[0]) &&
      s'.box.threads.Keys == s.box.threads.Keys &&
      (forall id | id in s.box.threads ::
        s'.box.threads[id] ==
          if id in FirstPage(listing) && Eligible(s.box.threads[id], start)
          then Replied(s.box.threads[id], lab.id, sentAt)
          else s.box.threads[id])
  {
    var page := FirstPage(listing);
    var lab := Labels.CreateLabel(s.labels, VacationLabelName, freshLabelId).found;
    RunCycleEffect(s.box, page, start, lab.id, sentAt);
    ExpectedSendsBound(s.box.threads, Dedup(page), start);
  }

  /** Every pass answers under the same label: the second pass finds the label
      the first one fetched or created, and the label store stops growing. */
  lemma AutoReplyKeepsLabel(s: State, l1: seq<ThreadId>, l2: seq<ThreadId>, start: int, id1: string, id2: string, t1: int, t2: int)
    ensures var s1 := AutoReply(s, l1, start, id1, t1);
      var s2 := AutoReply(s1, l2, start, id2, t2);
      s2.labels == s1.labels &&
      Labels.CreateLabel(s1.labels, VacationLabelName, id2).found == Labels.CreateLabel(s.labels, VacationLabelName, id1).found
  {
    Labels.CreateLabelIdempotent(s.labels, VacationLabelName, id1, id2);
  }

  /** An answered thread is never answered again: a later pass over any
      listing sends nothing to a thread an earlier pass replied to.

      This rests on the modelled provider behaviour that a sent reply joins
      the thread it names, so the thread no longer holds a single message.
      The source sends neither an `In-Reply-To` nor a `References` header,
      which the provider's threading rules ask for; if the reply did not join
      the thread, this lemma would not hold.  The design relies instead on
      the removal of `INBOX`, which `AnsweredLeaveInbox` states. */
  lemma NoSecondReply(s: State, l1: seq<ThreadId>, l2: seq<ThreadId>, start: int, id1: string, id2: string, t1: int, t2: int)
    ensures var s1 := AutoReply(s, l1, start, id1, t1);
      var s2 := AutoReply(s1, l2, start, id2, t2);
      var first := s1.box.outbox[|s.box.outbox|..];
      var second := s2.box.outbox[|s1.box.outbox|..];
      forall i, j | 0 <= i < |first| && 0 <= j < |second| :: first[i].threadId != second[j].threadId
  {
    var s1 := AutoReply(s, l1, start, id1, t1);
    var s2 := AutoReply(s1, l2, start, id2, t2);
    AutoReplyEffect(s, l1, start, id1, t1);
    AutoReplyEffect(s1, l2, start, id2, t2);
    var first := s1.box.outbox[|s.box.outbox|..];
    var second := s2.box.outbox[|s1.box.outbox|..];
    forall i, j | 0 <= i < |first| && 0 <= j < |second|
      ensures first[i].threadId != second[j].threadId
    {
      var x := first[i].threadId;
      // x was answered by the first pass, so it holds two messages now
      assert |s1.box.threads[x].messages| == 2;
      assert !Eligible(s1.box.threads[x], start);
    }
  }

  /** Every thread a pass answered no longer carries `INBOX`, provided the
      vacation label is not `INBOX` itself; a later listing of unread inbox
      messages therefore never names it. */
  lemma AnsweredLeaveInbox(s: State, listing: seq<ThreadId>, start: int, freshLabelId: string, sentAt: int)
    requires Labels.CreateLabel(s.labels, VacationLabelName, freshLabelId).found.id != Inbox
    ensures var s' := AutoReply(s, listing, start, freshLabelId, sentAt);
      var added := s'.box.outbox[|s.box.outbox|..];
      forall i | 0 <= i < |added| ::
        added[i].threadId in s'.box.threads && Inbox !in s'.box.threads[added[i].threadId].labelIds
  {
    var s' := AutoReply(s, listing, start, freshLabelId, sentAt);
    var lab := Labels.CreateLabel(s.labels, VacationLabelName, freshLabelId).found;
    AutoReplyEffect(s, listing, start, freshLabelId, sentAt);
    var added := s'.box.outbox[|s.box.outbox|..];
    forall i | 0 <= i < |added|
      ensures added[i].threadId in s'.box.threads && Inbox !in s'.box.threads[added[i].threadId].labelIds
    {
      var x := added[i].threadId;
      assert s'.box.threads[x] == Replied(s.box.threads[x], lab.id, sentAt);
    }
  }
}
