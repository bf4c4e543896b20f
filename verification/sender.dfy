/**
 * The sender half of the link: the connection handshake and the two
 * sliding-window send loops (Go-Back-N and Selective-Repeat).
 *
 * Each send loop is a class whose fields are the loop's variables; `Step`
 * runs one iteration of the source's `while True`. What an iteration reads
 * from outside is passed in: the frame `get_from_receiver` returned, the
 * clock reading `now` (integer ticks), and the outcomes of the biased coin
 * (`admitCorrupt` for a newly admitted frame, `coin(k)` for a retransmission
 * of the frame at window position k). What it writes to the channel is
 * returned as `sent`, in order.
 */
module SenderEngine {
  import opened Frames

  /** How one loop iteration ended: keep looping, or which `break` it took. */
  datatype Exit = Continue | AllAcknowledged | ResendLimitReached

  // ---------------------------------------------------------------------
  // Connection handshake (Sender.wait_for_connection)
  // ---------------------------------------------------------------------

  /** One iteration's view of the world: the clock and what the poll returned. */
  datatype Poll = Poll(now: int, reply: Option<Frame>)

  /** The reply that ends the handshake: any frame carrying the connection code. */
  predicate IsConnectReply(p: Poll, code: int)
  {
    p.reply.Some? && p.reply.value.seqNum == code
  }

  /**
   * How many connection requests the loop sends over `polls`: one in each
   * iteration whose clock is more than `interval` past the previous attempt
   * (or the start).
   */
  function Attempts(lastTry: int, polls: seq<Poll>, interval: int): nat
    decreases |polls|
  {
    if polls == [] then 0
    else if polls[0].now - lastTry > interval then 1 + Attempts(polls[0].now, polls[1..], interval)
    else Attempts(lastTry, polls[1..], interval)
  }

  /** Attempts are at most one per iteration, and none while the clock stays within the interval. */
  lemma {:induction false} AttemptsBounds(lastTry: int, polls: seq<Poll>, interval: int)
    ensures Attempts(lastTry, polls, interval) <= |polls|
    ensures (forall k :: 0 <= k < |polls| ==> polls[k].now - lastTry <= interval)
            ==> Attempts(lastTry, polls, interval) == 0
    ensures |polls| > 0 && polls[0].now - lastTry > interval ==> Attempts(lastTry, polls, interval) >= 1
    decreases |polls|
  {
    if polls != [] {
      AttemptsBounds(polls[0].now, polls[1..], interval);
      AttemptsBounds(lastTry, polls[1..], interval);
      if forall k :: 0 <= k < |polls| ==> polls[k].now - lastTry <= interval {
        assert forall k :: 0 <= k < |polls[1..]| ==> polls[1..][k].now - lastTry <= interval by {
          forall k | 0 <= k < |polls[1..]| ensures polls[1..][k].now - lastTry <= interval {
            assert polls[1..][k] == polls[k + 1];
          }
        }
      }
    }
  }

  lemma AttemptsAppend(lastTry: int, polls: seq<Poll>, p: Poll, interval: int)
    ensures Attempts(lastTry, polls + [p], interval)
         == Attempts(lastTry, polls, interval)
            + (if p.now - LastTry(lastTry, polls, interval) > interval then 1 else 0)
    decreases |polls|
  {
    if polls != [] {
      assert (polls + [p])[1..] == polls[1..] + [p];
      if polls[0].now - lastTry > interval {
        AttemptsAppend(polls[0].now, polls[1..], p, interval);
      } else {
        AttemptsAppend(lastTry, polls[1..], p, interval);
      }
    }
  }

  /** The clock reading of the latest attempt over `polls`, or `lastTry` if none. */
  function LastTry(lastTry: int, polls: seq<Poll>, interval: int): int
    decreases |polls|
  {
    if polls == [] then lastTry
    else if polls[0].now - lastTry > interval then LastTry(polls[0].now, polls[1..], interval)
    else LastTry(lastTry, polls[1..], interval)
  }

  lemma LastTryAppend(lastTry: int, polls: seq<Poll>, p: Poll, interval: int)
    ensures LastTry(lastTry, polls + [p], interval)
         == (if p.now - LastTry(lastTry, polls, interval) > interval then p.now
             else LastTry(lastTry, polls, interval))
    decreases |polls|
  {
    if polls != [] {
      assert (polls + [p])[1..] == polls[1..] + [p];
      if polls[0].now - lastTry > interval {
        LastTryAppend(polls[0].now, polls[1..], p, interval);
      } else {
        LastTryAppend(lastTry, polls[1..], p, interval);
      }
    }
  }

  /**
   * `wait_for_connection` run over the polls `polls` (the source spins until
   * it connects; a finite list of polls that never brings the reply ends with
   * `connected` false). Returns the requests it sent and how many polls it used.
   */
  method WaitForConnection(code: int, interval: int, start: int, polls: seq<Poll>)
    returns (sent: seq<Frame>, used: nat, connected: bool)
    ensures used <= |polls|
    ensures connected <==> exists k :: 0 <= k < |polls| && IsConnectReply(polls[k], code)
    ensures connected ==> used >= 1 && IsConnectReply(polls[used - 1], code)
    ensures forall k :: 0 <= k < used - 1 ==> !IsConnectReply(polls[k], code)
    ensures !connected ==> used == |polls|
    ensures forall k :: 0 <= k < |sent| ==> sent[k] == ConnectFrame(code)
    ensures |sent| == Attempts(start, polls[..used], interval)
  {
    var lastTry := start;
    sent, used, connected := [], 0, false;
    while used < |polls|
      invariant used <= |polls|
      invariant forall k :: 0 <= k < used ==> !IsConnectReply(polls[k], code)
      invariant forall k :: 0 <= k < |sent| ==> sent[k] == ConnectFrame(code)
      invariant |sent| == Attempts(start, polls[..used], interval)
      invariant lastTry == LastTry(start, polls[..used], interval)
    {
      var p := polls[used];
      AttemptsAppend(start, polls[..used], p, interval);
      LastTryAppend(start, polls[..used], p, interval);
      assert polls[..used + 1] == polls[..used] + [p];
      if p.now - lastTry > interval {
        sent := sent + [ConnectFrame(code)];
        lastTry := p.now;
      }
      used := used + 1;
      if p.reply.Some? && p.reply.value.seqNum == code {
        connected := true;
        return;
      }
    }
  }

  // ---------------------------------------------------------------------
  // The in-flight list, shared by both disciplines
  // ---------------------------------------------------------------------

  /**
   * `frames[k]` is the frame of record `base + k`, for every slot k of the
   * window (stated slot by slot from the front; `WindowAt` gives the
   * pointwise reading).
   */
  ghost predicate WindowFrames(frames: seq<Frame>, records: seq<Payload>, base: int)
    decreases |frames|
  {
    frames == [] || (CarriesRecord(frames[0], records, base) && WindowFrames(frames[1..], records, base + 1))
  }

  /** Slot k of a well-formed window carries record base + k. */
  lemma {:induction false} WindowAt(frames: seq<Frame>, records: seq<Payload>, base: int, k: nat)
    requires WindowFrames(frames, records, base) && k < |frames|
    ensures CarriesRecord(frames[k], records, base + k)
    decreases k
  {
    if k > 0 {
      WindowAt(frames[1..], records, base + 1, k - 1);
    }
  }

  /** Releasing the d oldest frames keeps the window well-formed, based d further on. */
  lemma {:induction false} WindowDrop(frames: seq<Frame>, records: seq<Payload>, base: int, d: nat)
    requires WindowFrames(frames, records, base) && d <= |frames|
    ensures WindowFrames(frames[d..], records, base + d)
    decreases d
  {
    if d > 0 {
      WindowDrop(frames[1..], records, base + 1, d - 1);
      assert frames[1..][d - 1..] == frames[d..];
    }
  }

  /** Appending the frame of the next record extends the window by one slot. */
  lemma {:induction false} WindowAppend(frames: seq<Frame>, records: seq<Payload>, base: int, f: Frame)
    requires WindowFrames(frames, records, base)
    requires CarriesRecord(f, records, base + |frames|)
    ensures WindowFrames(frames + [f], records, base)
    decreases |frames|
  {
    if frames != [] {
      WindowAppend(frames[1..], records, base + 1, f);
      assert (frames + [f])[1..] == frames[1..] + [f];
    } else {
      assert ([f])[1..] == [];
    }
  }

  /** `b` is `a` with some corruption flags re-rolled: same length, same frames otherwise. */
  ghost predicate SameRecords(a: seq<Frame>, b: seq<Frame>)
  {
    |a| == |b| && forall k :: 0 <= k < |a| ==> Reroll(a[k], false) == Reroll(b[k], false)
  }

  /** Re-rolling corruption flags anywhere keeps the window well-formed. */
  lemma {:induction false} WindowSame(a: seq<Frame>, b: seq<Frame>, records: seq<Payload>, base: int)
    requires WindowFrames(a, records, base) && SameRecords(a, b)
    ensures WindowFrames(b, records, base)
    decreases |a|
  {
    if a != [] {
      assert Reroll(a[0], false) == Reroll(b[0], false);
      assert SameRecords(a[1..], b[1..]) by {
        forall k | 0 <= k < |a| - 1 ensures Reroll(a[1..][k], false) == Reroll(b[1..][k], false) {
          assert a[1..][k] == a[k + 1] && b[1..][k] == b[k + 1];
        }
      }
      WindowSame(a[1..], b[1..], records, base + 1);
    }
  }

  /**
   * The Go-Back-N resend: every in-flight frame, in order, each with a freshly
   * rolled corruption flag (`coin(k)` for slot k). The frames are updated in
   * the list and the same frames go on the channel.
   */
  method RerollAll(frames: seq<Frame>, coin: nat -> bool) returns (resent: seq<Frame>)
    ensures |resent| == |frames|
    ensures forall k :: 0 <= k < |frames| ==> resent[k] == Reroll(frames[k], coin(k))
    ensures SameRecords(frames, resent)
  {
    resent := [];
    var i := 0;
    while i < |frames|
      invariant 0 <= i <= |frames|
      invariant |resent| == i
      invariant forall k :: 0 <= k < i ==> resent[k] == Reroll(frames[k], coin(k))
    {
      resent := resent + [Reroll(frames[i], coin(i))];
      i := i + 1;
    }
  }

  /**
   * The cumulative slide: advance the window base one number at a time up to
   * `target`, dropping the oldest in-flight frame at each step.
   */
  method SlideTo(base: int, frames: seq<Frame>, target: int) returns (newBase: int, rest: seq<Frame>)
    requires base <= target <= base + |frames|
    ensures newBase == target
    ensures rest == frames[target - base..]
  {
    newBase, rest := base, frames;
    while newBase < target
      invariant base <= newBase <= target
      invariant rest == frames[newBase - base..]
    {
      newBase := newBase + 1;
      rest := rest[1..];
    }
  }

  /** The admission test at the top of both send loops. */
  predicate Admits(first: int, last: int, windowSize: nat, waiting: bool)
  {
    last < first + windowSize && !waiting
  }

  /**
   * The frame the admission step of either send loop puts on the channel, if
   * any: record `last`, numbered `last`, with the given corruption outcome.
   */
  function Admitted(records: seq<Payload>, first: int, last: int, windowSize: nat, waiting: bool, corrupt: bool)
    : (r: seq<Frame>)
    requires 0 <= last <= |records| && (last == |records| ==> waiting)
    ensures r != [] <==> Admits(first, last, windowSize, waiting)
    ensures |r| <= 1 && forall f :: f in r ==> CarriesRecord(f, records, last) && f.isCorrupted == corrupt
  {
    if Admits(first, last, windowSize, waiting) then [Frame(Some(records[last]), last, last == |records| - 1, corrupt)]
    else []
  }

  // ---------------------------------------------------------------------
  // Go-Back-N (Sender.send_go_back_n)
  // ---------------------------------------------------------------------

  class GoBackNSender {
    const records: seq<Payload>     // data_list
    const windowSize: nat           // WINDOW_SIZE
    const timeout: int              // TIMEOUT_GO_BACK_N_SENDER
    const maxLastSends: int         // MAX_LAST_PACKET_SENDING

    var first: int                  // seq_num_first: oldest unacknowledged number
    var last: int                   // seq_num_last: next number to assign
    var recordIdx: int              // cur_data_block_idx
    var waitingLastAck: bool        // is_waiting_last_ack
    var lastResends: int            // last_frame_resend_counter
    var sentFrames: seq<Frame>      // sent_frames: the frames in flight
    var lastAckTime: int            // time_since_last_ack: the single window timer

    /**
     * The window invariant: the in-flight list holds exactly the frames
     * numbered first .. last-1, frame k carrying record k; the window never
     * exceeds WINDOW_SIZE; the sender waits for the last ack exactly when
     * every record has been admitted.
     */
    ghost predicate Valid()
      reads this
    {
      && 0 <= first <= last <= first + windowSize
      && last <= |records|
      && recordIdx == last
      && (waitingLastAck <==> last == |records|)
      && |sentFrames| == last - first
      && WindowFrames(sentFrames, records, first)
      && lastResends >= 0
    }

    /** The state `send_go_back_n` sets up before its loop; its first admission reads `data_list[0]`, so it must be non-empty. */
    constructor (records: seq<Payload>, windowSize: nat, timeout: int, maxLastSends: int, now: int)
      requires |records| > 0
      ensures Valid()
      ensures this.records == records && this.windowSize == windowSize
      ensures this.timeout == timeout && this.maxLastSends == maxLastSends
      ensures first == 0 && last == 0 && sentFrames == [] && !waitingLastAck
      ensures lastResends == 0 && lastAckTime == now
    {
      this.records := records;
      this.windowSize := windowSize;
      this.timeout := timeout;
      this.maxLastSends := maxLastSends;
      first, last, recordIdx := 0, 0, 0;
      waitingLastAck := false;
      lastResends := 0;
      sentFrames := [];
      lastAckTime := now;
    }

    /** Admit at most one new frame: record `last`, numbered `last`, flagged last on the final record. */
    method Admit(corrupt: bool) returns (sent: seq<Frame>)
      requires Valid()
      modifies this
      ensures Valid()
      ensures old(Admits(first, last, windowSize, waitingLastAck)) ==>
        && sent == [Frame(Some(records[old(last)]), old(last), old(last) == |records| - 1, corrupt)]
        && sentFrames == old(sentFrames) + sent
        && last == old(last) + 1
        && first == old(first) && lastAckTime == old(lastAckTime) && lastResends == old(lastResends)
      ensures !old(Admits(first, last, windowSize, waitingLastAck)) ==> sent == [] && unchanged(this)
    {
      sent := [];
      if last < first + windowSize && !waitingLastAck {
        var frame := Frame(Some(records[recordIdx]), last, recordIdx == |records| - 1, corrupt);
        sent := [frame];
        recordIdx := recordIdx + 1;
        if recordIdx == |records| {
          waitingLastAck := true;
        }
        WindowAppend(sentFrames, records, first, frame);
        sentFrames := sentFrames + [frame];
        last := last + 1;
      }
    }

    /**
     * An intact cumulative ack `a` with first < a <= last slides the base to
     * exactly `a`, drops the a - first oldest frames and restarts the timer;
     * any other value changes nothing. The loop ends when the last record's
     * frame has left the window.
     */
    method TakeAck(ack: Frame, now: int) returns (exit: Exit)
      requires Valid() && !ack.isCorrupted
      modifies this
      ensures Valid()
      ensures old(first) < ack.seqNum <= old(last) ==>
        && first == ack.seqNum
        && sentFrames == old(sentFrames)[ack.seqNum - old(first)..]
        && lastAckTime == now
        && exit == (if waitingLastAck && sentFrames == [] then AllAcknowledged else Continue)
      ensures !(old(first) < ack.seqNum <= old(last)) ==> exit == Continue && unchanged(this)
      ensures last == old(last) && waitingLastAck == old(waitingLastAck) && lastResends == old(lastResends)
      ensures exit != ResendLimitReached
    {
      exit := Continue;
      if first < ack.seqNum <= last {
        var base, inFlight := SlideTo(first, sentFrames, ack.seqNum);
        WindowDrop(old(sentFrames), records, old(first), base - old(first));
        first, sentFrames, lastAckTime := base, inFlight, now;
        if waitingLastAck && |sentFrames| == 0 {
          exit := AllAcknowledged;
        }
      }
    }

    /**
     * The window timer. When more than `timeout` ticks have passed since the
     * last slide, every in-flight frame is resent in order with a freshly
     * rolled corruption flag; while only the last frame remains the resend is
     * counted, and reaching MAX_LAST_PACKET_SENDING ends the loop before the
     * timer is restarted.
     */
    method CheckTimeout(now: int, coin: nat -> bool) returns (sent: seq<Frame>, exit: Exit)
      requires Valid()
      modifies this
      ensures Valid()
      ensures !(now - old(lastAckTime) > timeout) ==> sent == [] && exit == Continue && unchanged(this)
      ensures now - old(lastAckTime) > timeout ==>
        && |sent| == |old(sentFrames)|
        && (forall k :: 0 <= k < |sent| ==> sent[k] == Reroll(old(sentFrames)[k], coin(k)))
        && sentFrames == sent
        && first == old(first) && last == old(last) && waitingLastAck == old(waitingLastAck)
        && lastResends == old(lastResends) + (if waitingLastAck && |sentFrames| == 1 then 1 else 0)
        && exit == (if lastResends == maxLastSends then ResendLimitReached else Continue)
        && lastAckTime == (if exit == Continue then now else old(lastAckTime))
      ensures exit != AllAcknowledged
    {
      sent, exit := [], Continue;
      if now - lastAckTime > timeout {
        sent := RerollAll(sentFrames, coin);
        WindowSame(sentFrames, sent, records, first);
        sentFrames := sent;
        if waitingLastAck && |sentFrames| == 1 {
          lastResends := lastResends + 1;
        }
        if lastResends == maxLastSends {
          exit := ResendLimitReached;
          return;
        }
        lastAckTime := now;
      }
    }

    /**
     * One iteration of `send_go_back_n`'s loop: admit, then either take an
     * intact ack or (no ack, or a corrupted one) check the window timer.
     */
    method Step(ack: Option<Frame>, now: int, admitCorrupt: bool, coin: nat -> bool)
      returns (sent: seq<Frame>, exit: Exit)
      requires Valid()
      modifies this
      ensures Valid()
      ensures last == old(last) + |old(Admitted(records, first, last, windowSize, waitingLastAck, admitCorrupt))|
      ensures Intact(ack) ==> sent == old(Admitted(records, first, last, windowSize, waitingLastAck, admitCorrupt)) && lastResends == old(lastResends)
      ensures Intact(ack) && old(first) < ack.value.seqNum <= last ==>
        && first == ack.value.seqNum
        && sentFrames == (old(sentFrames) + old(Admitted(records, first, last, windowSize, waitingLastAck, admitCorrupt)))[ack.value.seqNum - old(first)..]
        && lastAckTime == now
        && exit == (if waitingLastAck && sentFrames == [] then AllAcknowledged else Continue)
      ensures Intact(ack) && !(old(first) < ack.value.seqNum <= last) ==>
        && first == old(first) && sentFrames == old(sentFrames) + old(Admitted(records, first, last, windowSize, waitingLastAck, admitCorrupt))
        && lastAckTime == old(lastAckTime) && exit == Continue
      ensures !Intact(ack) && !(now - old(lastAckTime) > timeout) ==>
        && sent == old(Admitted(records, first, last, windowSize, waitingLastAck, admitCorrupt))
        && first == old(first) && sentFrames == old(sentFrames) + old(Admitted(records, first, last, windowSize, waitingLastAck, admitCorrupt))
        && lastAckTime == old(lastAckTime) && lastResends == old(lastResends) && exit == Continue
      ensures !Intact(ack) && now - old(lastAckTime) > timeout ==>
        var window := old(sentFrames) + old(Admitted(records, first, last, windowSize, waitingLastAck, admitCorrupt));
        && first == old(first)
        && sent == old(Admitted(records, first, last, windowSize, waitingLastAck, admitCorrupt)) + sentFrames
        && |sentFrames| == |window|
        && (forall k :: 0 <= k < |window| ==> sentFrames[k] == Reroll(window[k], coin(k)))
        && lastResends == old(lastResends) + (if waitingLastAck && |window| == 1 then 1 else 0)
        && exit == (if lastResends == maxLastSends then ResendLimitReached else Continue)
        && lastAckTime == (if exit == Continue then now else old(lastAckTime))
      ensures exit == AllAcknowledged ==> Intact(ack) && waitingLastAck && sentFrames == []
      ensures exit == ResendLimitReached ==> !Intact(ack) && lastResends == maxLastSends
    {
      sent := Admit(admitCorrupt);
      if ack.Some? && !ack.value.isCorrupted {
        exit := TakeAck(ack.value, now);
      } else {
        var resent;
        resent, exit := CheckTimeout(now, coin);
        sent := sent + resent;
      }
    }
  }

  // ---------------------------------------------------------------------
  // Selective-Repeat (Sender.send_sel_repeat)
  // ---------------------------------------------------------------------

  /** Has the per-frame timer `t` run out at clock `now`? */
  predicate Expired(t: int, now: int, timeout: int)
  {
    now - t > timeout
  }

  /** The retransmissions of a full timer scan over the first `n` window slots: each expired frame, re-rolled. */
  function Retransmitted(frames: seq<Frame>, timers: seq<int>, now: int, timeout: int, coin: nat -> bool, n: nat)
    : (r: seq<Frame>)
    requires n <= |frames| == |timers|
    ensures |r| <= n
  {
    if n == 0 then []
    else Retransmitted(frames, timers, now, timeout, coin, n - 1)
         + (if Expired(timers[n - 1], now, timeout) then [Reroll(frames[n - 1], coin(n - 1))] else [])
  }

  /** Some slot's timer has run out. */
  predicate AnyExpired(timers: seq<int>, now: int, timeout: int)
  {
    exists k :: 0 <= k < |timers| && Expired(timers[k], now, timeout)
  }

  /** Slot i holds the first expired timer. */
  predicate FirstExpired(timers: seq<int>, now: int, timeout: int, i: int)
  {
    && 0 <= i < |timers|
    && Expired(timers[i], now, timeout)
    && forall k :: 0 <= k < i ==> !Expired(timers[k], now, timeout)
  }

  /**
   * What one timer scan does to the in-flight list, the timers and the
   * last-frame counter, and what it puts on the channel. The counter goes up
   * by one when the scan finds an expired timer while the sender is `waiting`
   * for the last ack and only that frame is in flight. If the counter then equals `limit`, the scan stops
   * at the first expired slot: exactly that frame is resent and no timer is
   * restarted. Otherwise every expired frame is resent re-rolled, in slot
   * order, and its timer restarted at `now`; other slots are untouched.
   */
  ghost predicate ScanOutcome(frames: seq<Frame>, timers: seq<int>, now: int, timeout: int, coin: nat -> bool,
                              counter: int, waiting: bool, limit: int,
                              sent: seq<Frame>, newFrames: seq<Frame>, newTimers: seq<int>, newCounter: int)
    requires |frames| == |timers|
  {
    && SameRecords(frames, newFrames)
    && |newTimers| == |timers|
    && newCounter == counter + (if waiting && |frames| == 1 && AnyExpired(timers, now, timeout) then 1 else 0)
    && (if AnyExpired(timers, now, timeout) && newCounter == limit then
          exists i :: FirstExpired(timers, now, timeout, i)
            && sent == [Reroll(frames[i], coin(i))]
            && newFrames == frames[i := Reroll(frames[i], coin(i))]
            && newTimers == timers
        else
          && sent == Retransmitted(frames, timers, now, timeout, coin, |timers|)
          && (forall k :: 0 <= k < |frames| ==>
                newFrames[k] == (if Expired(timers[k], now, timeout) then Reroll(frames[k], coin(k)) else frames[k]))
          && (forall k :: 0 <= k < |timers| ==>
                newTimers[k] == (if Expired(timers[k], now, timeout) then now else timers[k])))
  }

  /** The scan stops at the first expired slot i, having touched nothing before it. */
  lemma ScanStops(frames: seq<Frame>, timers: seq<int>, now: int, timeout: int, coin: nat -> bool,
                  counter: int, waiting: bool, limit: int, i: int)
    requires |frames| == |timers|
    requires FirstExpired(timers, now, timeout, i)
    requires counter + (if waiting && |frames| == 1 then 1 else 0) == limit
    ensures ScanOutcome(frames, timers, now, timeout, coin, counter, waiting, limit,
                        [Reroll(frames[i], coin(i))], frames[i := Reroll(frames[i], coin(i))], timers, limit)
  {
    assert AnyExpired(timers, now, timeout);
    assert SameRecords(frames, frames[i := Reroll(frames[i], coin(i))]);
  }

  /** The scan ran over every slot without stopping. */
  lemma ScanCompletes(frames: seq<Frame>, timers: seq<int>, now: int, timeout: int, coin: nat -> bool,
                      counter: int, waiting: bool, limit: int,
                      sent: seq<Frame>, newFrames: seq<Frame>, newTimers: seq<int>, newCounter: int)
    requires |frames| == |timers| == |newFrames| == |newTimers|
    requires sent == Retransmitted(frames, timers, now, timeout, coin, |timers|)
    requires forall k :: 0 <= k < |timers| ==>
      && newFrames[k] == (if Expired(timers[k], now, timeout) then Reroll(frames[k], coin(k)) else frames[k])
      && newTimers[k] == (if Expired(timers[k], now, timeout) then now else timers[k])
    requires newCounter == counter + (if waiting && |frames| == 1 && AnyExpired(timers, now, timeout) then 1 else 0)
    requires AnyExpired(timers, now, timeout) ==> newCounter != limit
    ensures ScanOutcome(frames, timers, now, timeout, coin, counter, waiting, limit,
                        sent, newFrames, newTimers, newCounter)
  {
    assert SameRecords(frames, newFrames);
  }

  /**
   * The Selective-Repeat timer scan over the in-flight list and its timers:
   * `for i in range(len(timers))`, with the `break` taken when the counter
   * equals `limit` right after resending an expired frame.
   */
  method ScanTimerList(frames: seq<Frame>, timers: seq<int>, now: int, timeout: int, coin: nat -> bool,
                       counter: int, waiting: bool, limit: int)
    returns (sent: seq<Frame>, newFrames: seq<Frame>, newTimers: seq<int>, newCounter: int)
    requires |frames| == |timers|
    ensures ScanOutcome(frames, timers, now, timeout, coin, counter, waiting, limit,
                        sent, newFrames, newTimers, newCounter)
  {
    sent, newFrames, newTimers, newCounter := [], frames, timers, counter;
    var i := 0;
    ghost var seen := false;
    while i < |newTimers|
      invariant 0 <= i <= |newTimers| == |timers| == |newFrames|
      invariant sent == Retransmitted(frames, timers, now, timeout, coin, i)
      invariant forall k :: 0 <= k < i ==>
        && newFrames[k] == (if Expired(timers[k], now, timeout) then Reroll(frames[k], coin(k)) else frames[k])
        && newTimers[k] == (if Expired(timers[k], now, timeout) then now else timers[k])
      invariant forall k :: i <= k < |timers| ==> newFrames[k] == frames[k] && newTimers[k] == timers[k]
      invariant seen <==> exists k :: 0 <= k < i && Expired(timers[k], now, timeout)
      invariant newCounter == counter + (if waiting && |frames| == 1 && seen then 1 else 0)
      invariant seen ==> newCounter != limit
    {
      if now - newTimers[i] > timeout {
        var frame := Reroll(newFrames[i], coin(i));
        if !seen {
          assert FirstExpired(timers, now, timeout, i);
        }
        newFrames := newFrames[i := frame];
        sent := sent + [frame];
        if waiting && |newFrames| == 1 {
          newCounter := newCounter + 1;
        }
        if newCounter == limit {
          RetransmittedNone(frames, timers, now, timeout, coin, i);
          assert newFrames == frames[i := frame] && frame == Reroll(frames[i], coin(i));
          assert sent == [frame] && newTimers == timers;
          ScanStops(frames, timers, now, timeout, coin, counter, waiting, limit, i);
          return;
        }
        seen := true;
        newTimers := newTimers[i := now];
      }
      i := i + 1;
    }
    ScanCompletes(frames, timers, now, timeout, coin, counter, waiting, limit, sent, newFrames, newTimers, newCounter);
  }

  class SelectiveRepeatSender {
    const records: seq<Payload>     // data_list
    const windowSize: nat           // WINDOW_SIZE
    const timeout: int              // TIMEOUT_SEL_REPEAT_SENDER
    const maxLastSends: int         // MAX_LAST_PACKET_SENDING

    var first: int                  // seq_num_first
    var last: int                   // seq_num_last
    var recordIdx: int              // cur_data_block_idx
    var waitingLastAck: bool        // is_waiting_last_ack
    var lastResends: int            // last_frame_resend_counter
    var sentFrames: seq<Frame>      // sent_frames
    var timers: seq<int>            // timers: one start time per in-flight frame

    /** The Go-Back-N window invariant, plus one timer per in-flight frame. */
    ghost predicate Valid()
      reads this
    {
      && 0 <= first <= last <= first + windowSize
      && last <= |records|
      && recordIdx == last
      && (waitingLastAck <==> last == |records|)
      && |sentFrames| == last - first
      && |timers| == |sentFrames|
      && WindowFrames(sentFrames, records, first)
      && lastResends >= 0
    }

    /** The timers after the admission step: one started at `now` for an admitted frame. */
    function AdmittedTimers(now: int): (r: seq<int>)
      reads this
      requires Valid()
      ensures |r| == |timers| + |Admitted(records, first, last, windowSize, waitingLastAck, false)| && r[..|timers|] == timers
    {
      if Admits(first, last, windowSize, waitingLastAck) then timers + [now] else timers
    }

    /** The state `send_sel_repeat` sets up before its loop; its first admission reads `data_list[0]`, so it must be non-empty. */
    constructor (records: seq<Payload>, windowSize: nat, timeout: int, maxLastSends: int)
      requires |records| > 0
      ensures Valid()
      ensures this.records == records && this.windowSize == windowSize
      ensures this.timeout == timeout && this.maxLastSends == maxLastSends
      ensures first == 0 && last == 0 && sentFrames == [] && timers == [] && !waitingLastAck
      ensures lastResends == 0
    {
      this.records := records;
      this.windowSize := windowSize;
      this.timeout := timeout;
      this.maxLastSends := maxLastSends;
      first, last, recordIdx := 0, 0, 0;
      waitingLastAck := false;
      lastResends := 0;
      sentFrames, timers := [], [];
    }

    /** Admit at most one new frame and start its own timer at `now`. */
    method Admit(corrupt: bool, now: int) returns (sent: seq<Frame>)
      requires Valid()
      modifies this
      ensures Valid()
      ensures old(Admits(first, last, windowSize, waitingLastAck)) ==>
        && sent == [Frame(Some(records[old(last)]), old(last), old(last) == |records| - 1, corrupt)]
        && sentFrames == old(sentFrames) + sent
        && timers == old(timers) + [now]
        && last == old(last) + 1
        && first == old(first) && lastResends == old(lastResends)
      ensures !old(Admits(first, last, windowSize, waitingLastAck)) ==> sent == [] && unchanged(this)
    {
      sent := [];
      if last < first + windowSize && !waitingLastAck {
        var frame := Frame(Some(records[recordIdx]), last, recordIdx == |records| - 1, corrupt);
        sent := [frame];
        recordIdx := recordIdx + 1;
        if recordIdx == |records| {
          waitingLastAck := true;
        }
        WindowAppend(sentFrames, records, first, frame);
        sentFrames := sentFrames + [frame];
        timers := timers + [now];
        last := last + 1;
      }
    }

    /**
     * An intact ack whose value lies in (first, last] releases the OLDEST
     * in-flight frame and its timer, whatever that value is; other values
     * change nothing. The loop ends once the last record's frame is released.
     */
    method TakeAck(ack: Frame) returns (exit: Exit)
      requires Valid() && !ack.isCorrupted
      modifies this
      ensures Valid()
      ensures old(first) < ack.seqNum <= old(last) ==>
        && first == old(first) + 1
        && sentFrames == old(sentFrames)[1..]
        && timers == old(timers)[1..]
      ensures !(old(first) < ack.seqNum <= old(last)) ==> unchanged(this)
      ensures last == old(last) && waitingLastAck == old(waitingLastAck) && lastResends == old(lastResends)
      ensures exit == (if waitingLastAck && sentFrames == [] then AllAcknowledged else Continue)
    {
      exit := Continue;
      if first < ack.seqNum <= last {
        first := first + 1;
        sentFrames := sentFrames[1..];
        timers := timers[1..];
      }
      if waitingLastAck && |sentFrames| == 0 {
        exit := AllAcknowledged;
      }
    }

    /**
     * The timer scan (`ScanTimerList` over the window's lists and counter).
     * When the scan stops early, the frame it stopped at was resent but its
     * timer is not restarted, and later slots are not looked at.
     */
    method ScanTimers(now: int, coin: nat -> bool) returns (sent: seq<Frame>)
      requires Valid()
      modifies this
      ensures Valid()
      ensures first == old(first) && last == old(last) && waitingLastAck == old(waitingLastAck)
      ensures ScanOutcome(old(sentFrames), old(timers), now, timeout, coin,
                          old(lastResends), old(waitingLastAck), maxLastSends,
                          sent, sentFrames, timers, lastResends)
    {
      var frames, ts, counter;
      sent, frames, ts, counter := ScanTimerList(sentFrames, timers, now, timeout, coin, lastResends, waitingLastAck, maxLastSends);
      WindowSame(sentFrames, frames, records, first);
      sentFrames, timers, lastResends := frames, ts, counter;
    }

    /**
     * The part of an iteration after admission: take an intact ack (possibly
     * ending the loop), then scan the timers of what is still in flight.
     */
    method AckThenScan(ack: Option<Frame>, now: int, coin: nat -> bool) returns (resent: seq<Frame>, exit: Exit)
      requires Valid()
      modifies this
      ensures Valid()
      ensures last == old(last) && waitingLastAck == old(waitingLastAck)
      ensures var acked := Intact(ack) && old(first) < ack.value.seqNum <= old(last);
        var frames := if acked then old(sentFrames)[1..] else old(sentFrames);
        var ts := if acked then old(timers)[1..] else old(timers);
        && first == old(first) + (if acked then 1 else 0)
        && |frames| == |ts|
        && (if Intact(ack) && waitingLastAck && frames == [] then
              && exit == AllAcknowledged && resent == []
              && sentFrames == [] && timers == [] && lastResends == old(lastResends)
            else
              && exit == Continue
              && ScanOutcome(frames, ts, now, timeout, coin, old(lastResends), waitingLastAck, maxLastSends,
                             resent, sentFrames, timers, lastResends))
    {
      resent, exit := [], Continue;
      if ack.Some? && !ack.value.isCorrupted {
        exit := TakeAck(ack.value);
        if exit == AllAcknowledged {
          return;
        }
      }
      resent := ScanTimers(now, coin);
    }

    /**
     * One iteration of `send_sel_repeat`'s loop: admit, take an intact ack
     * (possibly ending the loop), then scan the timers. The scan's `break`
     * never ends this loop.
     */
    method Step(ack: Option<Frame>, now: int, admitCorrupt: bool, coin: nat -> bool)
      returns (sent: seq<Frame>, exit: Exit)
      requires Valid()
      modifies this
      ensures Valid()
      ensures last == old(last) + |old(Admitted(records, first, last, windowSize, waitingLastAck, admitCorrupt))|
      ensures var acked := Intact(ack) && old(first) < ack.value.seqNum <= last;
        var window := old(sentFrames) + old(Admitted(records, first, last, windowSize, waitingLastAck, admitCorrupt));
        var clocks := old(AdmittedTimers(now));
        var frames := if acked then window[1..] else window;
        var ts := if acked then clocks[1..] else clocks;
        && first == old(first) + (if acked then 1 else 0)
        && |sent| >= |old(Admitted(records, first, last, windowSize, waitingLastAck, admitCorrupt))|
        && sent[..|old(Admitted(records, first, last, windowSize, waitingLastAck, admitCorrupt))|] == old(Admitted(records, first, last, windowSize, waitingLastAck, admitCorrupt))
        && |frames| == |ts|
        && (if Intact(ack) && waitingLastAck && frames == [] then
              && exit == AllAcknowledged && sent == old(Admitted(records, first, last, windowSize, waitingLastAck, admitCorrupt))
              && sentFrames == [] && timers == [] && lastResends == old(lastResends)
            else
              && exit == Continue
              && ScanOutcome(frames, ts, now, timeout, coin, old(lastResends), waitingLastAck, maxLastSends,
                             sent[|old(Admitted(records, first, last, windowSize, waitingLastAck, admitCorrupt))|..], sentFrames, timers, lastResends))
      ensures exit != ResendLimitReached
      ensures exit == AllAcknowledged ==> Intact(ack) && waitingLastAck && sentFrames == []
    {
      sent := Admit(admitCorrupt, now);
      ghost var admitted := sent;
      assert admitted == old(Admitted(records, first, last, windowSize, waitingLastAck, admitCorrupt));
      assert sentFrames == old(sentFrames) + admitted && timers == old(AdmittedTimers(now));
      var resent;
      resent, exit := AckThenScan(ack, now, coin);
      sent := sent + resent;
      assert sent[|admitted|..] == resent;
    }
  }

  /** With no expired timer among the first n slots, the scan retransmits nothing. */
  lemma {:induction false} RetransmittedNone(frames: seq<Frame>, timers: seq<int>, now: int, timeout: int, coin: nat -> bool, n: nat)
    requires n <= |frames| == |timers|
    requires forall k :: 0 <= k < n ==> !Expired(timers[k], now, timeout)
    ensures Retransmitted(frames, timers, now, timeout, coin, n) == []
  {
    if n > 0 {
      RetransmittedNone(frames, timers, now, timeout, coin, n - 1);
    }
  }
}
