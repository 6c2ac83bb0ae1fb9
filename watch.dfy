/** `doozerWatch`: the loop that waits for the next mutation, delivers it, and
    resumes the wait one revision after the event it delivered. The goroutine
    and channel are replaced by running the loop to the end of the replies the
    store gives it. */
module Watching {
  import opened Doozer

  /** One run of the watch loop: the events it delivered, the revision it
      passed to each `Wait` call, and the wait error that ended it, if any. */
  datatype WatchRun = WatchRun(events: seq<Event>, asked: seq<int>, failure: Option<string>)

  /** The loop run from revision `since` against `replies`, the answers to
      its successive `Wait` calls. */
  function Watch(since: int, replies: seq<WaitReply>): (r: WatchRun)
    ensures |r.asked| == |r.events| + (if r.failure.Some? then 1 else 0) <= |replies|
    decreases |replies|
  {
    if replies == [] then WatchRun([], [], None)
    else match replies[0]
      case WaitFailed(cause) => WatchRun([], [since], Some(cause))
      case Delivered(evt) =>
        var rest := Watch(evt.rev + 1, replies[1..]);
        WatchRun([evt] + rest.events, [since] + rest.asked, rest.failure)
  }

  /** The first wait starts at `since`, and after delivering an event at
      revision r the next wait starts at r + 1. */
  lemma {:induction false} WatchResumesAfterDelivered(since: int, replies: seq<WaitReply>)
    ensures var r := Watch(since, replies);
      && (|r.asked| > 0 ==> r.asked[0] == since)
      && (forall i :: 0 <= i < |r.events| && i + 1 < |r.asked| ==> r.asked[i + 1] == r.events[i].rev + 1)
    decreases |replies|
  {
    if replies != [] && replies[0].Delivered? {
      WatchResumesAfterDelivered(replies[0].event.rev + 1, replies[1..]);
    }
  }

  /** The events delivered are the store's answers in order, up to the first
      wait error; when there is one it ends the run, and without one every
      answer is delivered. */
  lemma {:induction false} WatchDeliversReplies(since: int, replies: seq<WaitReply>)
    ensures var r := Watch(since, replies);
      && (forall i :: 0 <= i < |r.events| ==> replies[i] == Delivered(r.events[i]))
      && (r.failure.Some? ==> replies[|r.events|] == WaitFailed(r.failure.value))
      && (r.failure.None? ==> |r.events| == |replies|)
    decreases |replies|
  {
    if replies != [] && replies[0].Delivered? {
      WatchDeliversReplies(replies[0].event.rev + 1, replies[1..]);
    }
  }

  /** Nothing the store answers after a wait error is ever delivered. */
  lemma {:induction false} WatchEndsAtFailure(since: int, replies: seq<WaitReply>, k: nat)
    requires k < |replies| && replies[k].WaitFailed?
    ensures Watch(since, replies) == Watch(since, replies[..k + 1])
    decreases k
  {
    if k > 0 && replies[0].Delivered? {
      WatchEndsAtFailure(replies[0].event.rev + 1, replies[1..], k - 1);
      assert replies[1..][..k] == replies[..k + 1][1..];
    }
  }

  /** When the store answers every `Wait(glob, since)` with an event at
      revision `since` or later, the delivered revisions start at `since` and
      strictly increase, so no event is delivered twice. */
  lemma WatchRevisionsIncrease(since: int, replies: seq<WaitReply>)
    requires var r := Watch(since, replies);
      forall i :: 0 <= i < |r.events| ==> r.events[i].rev >= r.asked[i]
    ensures var r := Watch(since, replies);
      && (forall i :: 0 <= i < |r.events| ==> r.events[i].rev >= since)
      && (forall i, j :: 0 <= i < j < |r.events| ==> r.events[i].rev < r.events[j].rev)
  {
    var r := Watch(since, replies);
    WatchResumesAfterDelivered(since, replies);
    forall j | 0 <= j < |r.events|
      ensures forall i :: 0 <= i <= j ==> r.events[i].rev + (j - i) <= r.events[j].rev
      ensures r.events[j].rev >= since + j
    {
      RevisionsGrow(r, since, j);
    }
  }

  lemma {:induction false} RevisionsGrow(r: WatchRun, since: int, j: nat)
    requires j < |r.events| && |r.asked| >= |r.events| && |r.asked| > 0 && r.asked[0] == since
    requires forall i :: 0 <= i < |r.events| ==> r.events[i].rev >= r.asked[i]
    requires forall i :: 0 <= i < |r.events| && i + 1 < |r.asked| ==> r.asked[i + 1] == r.events[i].rev + 1
    ensures forall i :: 0 <= i <= j ==> r.events[i].rev + (j - i) <= r.events[j].rev
    ensures r.events[j].rev >= since + j
  {
    if j > 0 {
      RevisionsGrow(r, since, j - 1);
      assert r.events[j].rev >= r.events[j - 1].rev + 1;
    }
  }

  /** `doozerWatch(c, glob, rev)`: wait from `rev`, deliver each event and
      resume from its revision plus one; on a wait error close the stream. */
  method DoozerWatch(rev: int, replies: seq<WaitReply>)
    returns (events: seq<Event>, asked: seq<int>, failure: Option<string>)
    ensures WatchRun(events, asked, failure) == Watch(rev, replies)
  {
    var since := rev;
    var k := 0;
    events, asked, failure := [], [], None;
    while k < |replies|
      invariant k <= |replies|
      invariant var rest := Watch(since, replies[k..]);
        Watch(rev, replies) == WatchRun(events + rest.events, asked + rest.asked, rest.failure)
    {
      assert replies[k..] == [replies[k]] + replies[k + 1..];
      asked := asked + [since];
      match replies[k] {
        case WaitFailed(cause) =>
          failure := Some(cause);
          return;
        case Delivered(evt) =>
          since := evt.rev + 1;
          events := events + [evt];
      }
      k := k + 1;
    }
  }
}
