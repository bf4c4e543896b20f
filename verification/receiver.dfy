/**
 * The receiver half of the link: the connection handshake and the two
 * receive loops (Go-Back-N and Selective-Repeat), each followed by the
 * re-ack drain phase that runs once the last frame has been delivered.
 *
 * As on the sender side, each receive loop is a class whose fields are the
 * loop's variables (plus the receiver's two running totals), and `Step` runs
 * one iteration of `while True` on the frame `get_from_sender` returned and
 * the clock reading `now`. The acks it sends are returned in order; `done`
 * says whether the drain timeout ended the loop. The ghost field `delivered`
 * records the frames whose data went into `out_data_list`.
 */
module ReceiverEngine {
  import opened Frames

  // ---------------------------------------------------------------------
  // Connection handshake (Receiver.wait_for_connection)
  // ---------------------------------------------------------------------

  /** A polled frame that carries the connection code (corrupted or not). */
  predicate IsConnectRequest(polled: Option<Frame>, code: int)
  {
    polled.Some? && polled.value.seqNum == code
  }

  /**
   * `wait_for_connection` over the polls `inbox` (the source spins until a
   * request arrives; a finite inbox without one ends with `connected`
   * false). Everything before the first request is consumed and ignored;
   * that request gets exactly one reply, the uncorrupted connection frame.
   */
  method WaitForConnection(code: int, inbox: seq<Option<Frame>>)
    returns (replies: seq<Frame>, used: nat, connected: bool)
    ensures used <= |inbox|
    ensures connected <==> exists k :: 0 <= k < |inbox| && IsConnectRequest(inbox[k], code)
    ensures forall k :: 0 <= k < used - 1 ==> !IsConnectRequest(inbox[k], code)
    ensures connected ==> used >= 1 && IsConnectRequest(inbox[used - 1], code) && replies == [ConnectFrame(code)]
    ensures !connected ==> used == |inbox| && replies == []
  {
    replies, used, connected := [], 0, false;
    while used < |inbox|
      invariant used <= |inbox|
      invariant forall k :: 0 <= k < used ==> !IsConnectRequest(inbox[k], code)
      invariant replies == []
    {
      var req := inbox[used];
      used := used + 1;
      if req.None? {
        continue;
      }
      if req.value.seqNum == code {
        replies := [ConnectFrame(code)];
        connected := true;
        return;
      }
    }
  }

  // ---------------------------------------------------------------------
  // What both receive loops deliver
  // ---------------------------------------------------------------------

  /**
   * The delivery invariant: `out[k]` is the data of `delivered[k]`, an
   * intact frame numbered k, so the output holds exactly `expected` entries.
   */
  ghost predicate InOrder(delivered: seq<Frame>, out: seq<Option<Payload>>, expected: int)
  {
    && |delivered| == |out| == expected
    && forall k :: 0 <= k < |delivered| ==>
         delivered[k].seqNum == k && !delivered[k].isCorrupted && out[k] == delivered[k].data
  }

  /** Some delivered frame is the last one of the stream. */
  predicate SawLast(delivered: seq<Frame>)
  {
    exists k :: 0 <= k < |delivered| && delivered[k].isLast
  }

  lemma SawLastAppend(a: seq<Frame>, b: seq<Frame>)
    ensures SawLast(a + b) <==> SawLast(a) || SawLast(b)
  {
    if SawLast(a + b) {
      var k :| 0 <= k < |a + b| && (a + b)[k].isLast;
      if k >= |a| { assert b[k - |a|].isLast; }
    }
    if SawLast(a) {
      var k :| 0 <= k < |a| && a[k].isLast;
      assert (a + b)[k] == a[k];
    }
    if SawLast(b) {
      var k :| 0 <= k < |b| && b[k].isLast;
      assert (a + b)[|a| + k] == b[k];
    }
  }

  /** Appending frames numbered on from `expected` extends the delivery invariant. */
  lemma InOrderExtend(delivered: seq<Frame>, out: seq<Option<Payload>>, expected: int, more: seq<Frame>)
    requires InOrder(delivered, out, expected)
    requires forall k :: 0 <= k < |more| ==> more[k].seqNum == expected + k && !more[k].isCorrupted
    ensures InOrder(delivered + more, out + DataOf(more), expected + |more|)
  {
    var d, o := delivered + more, out + DataOf(more);
    forall k | 0 <= k < |d| ensures d[k].seqNum == k && !d[k].isCorrupted && o[k] == d[k].data {
      if k >= |delivered| {
        assert d[k] == more[k - |delivered|];
        assert o[k] == DataOf(more)[k - |delivered|];
      }
    }
  }

  // ---------------------------------------------------------------------
  // Go-Back-N (Receiver.receive_go_back_n)
  // ---------------------------------------------------------------------

  class GoBackNReceiver {
    const timeout: int                   // TIMEOUT_RECEIVER

    var expected: int                    // seq_num_expected
    var out: seq<Option<Payload>>        // out_data_list
    var isLastFrame: bool                // is_last_frame: the drain phase has begun
    var lastFrameTime: Option<int>       // time_since_last_frame
    var totalReceived: nat               // total_received_
    var totalSentAck: nat                // total_sent_ack_
    ghost var delivered: seq<Frame>

    /**
     * Delivery is in order; the drain phase starts exactly when the last
     * frame has been delivered, and its deadline is set then; every intact
     * frame received was answered by exactly one ack.
     */
    ghost predicate Valid()
      reads this
    {
      && InOrder(delivered, out, expected)
      && (isLastFrame <==> SawLast(delivered))
      && (lastFrameTime.Some? <==> isLastFrame)
      && totalSentAck == totalReceived
    }

    constructor (timeout: int)
      ensures Valid()
      ensures this.timeout == timeout
      ensures expected == 0 && out == [] && !isLastFrame && lastFrameTime == None
      ensures totalReceived == 0 && totalSentAck == 0
    {
      this.timeout := timeout;
      expected, out := 0, [];
      isLastFrame, lastFrameTime := false, None;
      totalReceived, totalSentAck := 0, 0;
      delivered := [];
    }

    /**
     * One iteration of `receive_go_back_n`'s loop. In the drain phase every
     * intact frame is answered with the current expected number and nothing
     * is delivered; the loop ends once more than TIMEOUT_RECEIVER ticks have
     * passed since the last frame was delivered. Before it, an absent or
     * corrupted frame is ignored; an intact one is delivered exactly when it
     * carries the expected number, and is answered with the (new) expected
     * number either way.
     */
    method Step(polled: Option<Frame>, now: int) returns (acks: seq<Frame>, done: bool)
      requires Valid()
      modifies this
      ensures Valid()
      ensures old(expected) <= expected <= old(expected) + 1
      ensures out[..old(expected)] == old(out)
      ensures done ==> old(isLastFrame) && now - old(lastFrameTime).value > timeout
      ensures old(isLastFrame) ==>
        && acks == (if Intact(polled) then [Ack(expected)] else [])
        && expected == old(expected) && out == old(out) && isLastFrame
        && lastFrameTime == old(lastFrameTime)
        && done == (now - lastFrameTime.value > timeout)
      ensures !old(isLastFrame) && !Intact(polled) ==>
        acks == [] && !done && unchanged(this)
      ensures !old(isLastFrame) && Intact(polled) ==>
        && acks == [Ack(expected)]
        && !done
        && (polled.value.seqNum == old(expected) <==> expected == old(expected) + 1)
        && (expected == old(expected) + 1 ==> out == old(out) + [polled.value.data])
        && (isLastFrame <==> expected == old(expected) + 1 && polled.value.isLast)
        && (isLastFrame ==> lastFrameTime == Some(now))
    {
      acks, done := [], false;
      if isLastFrame {
        if polled.Some? && !polled.value.isCorrupted {
          totalReceived := totalReceived + 1;
          acks := [Ack(expected)];
          totalSentAck := totalSentAck + 1;
        }
        if lastFrameTime.Some? {
          if now - lastFrameTime.value > timeout {
            done := true;
          }
        }
        return;
      }
      if polled.None? {
        return;
      }
      var frame := polled.value;
      if frame.isCorrupted {
        return;
      }
      totalReceived := totalReceived + 1;
      if frame.seqNum == expected {
        if frame.isLast {
          isLastFrame := true;
          if lastFrameTime.None? {
            lastFrameTime := Some(now);
          }
        }
        InOrderExtend(delivered, out, expected, [frame]);
        SawLastAppend(delivered, [frame]);
        delivered := delivered + [frame];
        expected := expected + 1;
        out := out + [frame.data];
      }
      acks := [Ack(expected)];
      totalSentAck := totalSentAck + 1;
    }
  }

  // ---------------------------------------------------------------------
  // Selective-Repeat (Receiver.receive_sel_repeat)
  // ---------------------------------------------------------------------

  /** The out-of-order buffer is strictly increasing by sequence number (so it holds no duplicates). */
  predicate Sorted(buffer: seq<Frame>)
  {
    forall i, j :: 0 <= i < j < |buffer| ==> buffer[i].seqNum < buffer[j].seqNum
  }

  /** Some buffered frame carries number n. */
  predicate Buffered(buffer: seq<Frame>, n: int)
  {
    exists k :: 0 <= k < |buffer| && buffer[k].seqNum == n
  }

  /**
   * Insert an out-of-order frame into the sorted buffer: scan to the first
   * entry whose number is not below the frame's, then insert there unless
   * that entry carries the same number (or append at the end). A number
   * already buffered leaves the buffer as it was, keeping the earlier copy.
   */
  method InsertOrdered(buffer: seq<Frame>, frame: Frame) returns (r: seq<Frame>)
    requires Sorted(buffer)
    ensures Sorted(r)
    ensures Buffered(buffer, frame.seqNum) ==> r == buffer
    ensures !Buffered(buffer, frame.seqNum) ==>
      exists i :: 0 <= i <= |buffer| && r == buffer[..i] + [frame] + buffer[i..]
  {
    r := buffer;
    if |buffer| != 0 {
      var idx := 0;
      while idx < |buffer| && frame.seqNum > buffer[idx].seqNum
        invariant 0 <= idx <= |buffer|
        invariant forall k :: 0 <= k < idx ==> buffer[k].seqNum < frame.seqNum
      {
        idx := idx + 1;
      }
      if idx < |buffer| && buffer[idx].seqNum != frame.seqNum {
        r := buffer[..idx] + [frame] + buffer[idx..];
        assert !Buffered(buffer, frame.seqNum);
        forall i, j | 0 <= i < j < |r| ensures r[i].seqNum < r[j].seqNum {
          if j > idx && i != idx {
            assert r[j] == buffer[j - 1];
            assert r[i] == buffer[if i < idx then i else i - 1];
          }
          if i == idx { assert r[j] == buffer[j - 1]; }
        }
      } else if idx == |buffer| {
        r := buffer + [frame];
        assert buffer[..idx] + [frame] + buffer[idx..] == r;
      } else {
        assert buffer[idx].seqNum == frame.seqNum;
      }
    } else {
      r := buffer + [frame];
      assert buffer[..0] + [frame] + buffer[0..] == r;
    }
  }

  /**
   * The cascade after an in-order delivery: while the buffer's head carries
   * the next expected number, hand it over and drop it. Returns the frames
   * delivered (a prefix of the buffer, numbered on from `next`) and the rest.
   */
  method Cascade(buffer: seq<Frame>, next: int) returns (taken: seq<Frame>, rest: seq<Frame>)
    requires Sorted(buffer)
    requires forall k :: 0 <= k < |buffer| ==> buffer[k].seqNum >= next
    ensures taken + rest == buffer
    ensures forall k :: 0 <= k < |taken| ==> taken[k].seqNum == next + k
    ensures Sorted(rest)
    ensures forall k :: 0 <= k < |rest| ==> rest[k].seqNum > next + |taken|
  {
    taken, rest := [], buffer;
    var prev := next - 1;
    while |rest| != 0
      invariant |taken| <= |buffer|
      invariant taken == buffer[..|taken|] && rest == buffer[|taken|..]
      invariant prev == next - 1 + |taken|
      invariant forall k :: 0 <= k < |taken| ==> taken[k].seqNum == next + k
      invariant |rest| != 0 ==> rest[0].seqNum > prev
    {
      if rest[0].seqNum == prev + 1 {
        assert |rest| > 1 ==> rest[1] == buffer[|taken| + 1] && rest[0] == buffer[|taken|];
        assert buffer[..|taken| + 1] == taken + [rest[0]];
        taken := taken + [rest[0]];
        rest := rest[1..];
        prev := prev + 1;
      } else {
        break;
      }
    }
    forall i, j | 0 <= i < j < |rest| ensures rest[i].seqNum < rest[j].seqNum {
      assert rest[i] == buffer[|taken| + i] && rest[j] == buffer[|taken| + j];
    }
    forall k | 0 <= k < |rest| ensures rest[k].seqNum > next + |taken| {
      assert rest[k] == buffer[|taken| + k];
    }
  }

  /** The buffer invariant: strictly sorted, intact frames, all numbered beyond `expected`. */
  ghost predicate BufferBeyond(buffer: seq<Frame>, expected: int)
  {
    Sorted(buffer) && forall k :: 0 <= k < |buffer| ==> buffer[k].seqNum > expected && !buffer[k].isCorrupted
  }

  /**
   * Delivering the expected frame and then the cascaded run `taken` keeps the
   * output in order and leaves the remaining buffer beyond the new expected
   * number; the last frame has been seen iff it was seen before or is among
   * the frames just delivered.
   */
  lemma DeliverRun(delivered: seq<Frame>, out: seq<Option<Payload>>, expected: int, buffer: seq<Frame>,
                   frame: Frame, taken: seq<Frame>, rest: seq<Frame>)
    requires InOrder(delivered, out, expected) && BufferBeyond(buffer, expected)
    requires frame.seqNum == expected && !frame.isCorrupted
    requires taken + rest == buffer
    requires forall k :: 0 <= k < |taken| ==> taken[k].seqNum == expected + 1 + k
    requires Sorted(rest) && forall k :: 0 <= k < |rest| ==> rest[k].seqNum > expected + 1 + |taken|
    ensures InOrder(delivered + ([frame] + taken), out + ([frame.data] + DataOf(taken)), expected + 1 + |taken|)
    ensures BufferBeyond(rest, expected + 1 + |taken|)
    ensures SawLast(delivered + ([frame] + taken)) <==> SawLast(delivered) || frame.isLast || SawLast(taken)
  {
    var more := [frame] + taken;
    forall k | 0 <= k < |more| ensures more[k].seqNum == expected + k && !more[k].isCorrupted {
      if k > 0 { assert more[k] == taken[k - 1] == buffer[k - 1]; }
    }
    InOrderExtend(delivered, out, expected, more);
    assert DataOf(more) == [frame.data] + DataOf(taken);
    forall k | 0 <= k < |rest| ensures !rest[k].isCorrupted {
      assert rest[k] == buffer[|taken| + k];
    }
    SawLastAppend(delivered, more);
    SawLastAppend([frame], taken);
    assert SawLast([frame]) == frame.isLast;
  }

  /** Buffering a frame beyond `expected` (or leaving the buffer as it is) keeps the buffer invariant. */
  lemma InsertBeyond(buffer: seq<Frame>, frame: Frame, r: seq<Frame>, expected: int)
    requires BufferBeyond(buffer, expected) && frame.seqNum > expected && !frame.isCorrupted
    requires Sorted(r)
    requires r == buffer || exists i :: 0 <= i <= |buffer| && r == buffer[..i] + [frame] + buffer[i..]
    ensures BufferBeyond(r, expected)
  {
    if r != buffer {
      var i :| 0 <= i <= |buffer| && r == buffer[..i] + [frame] + buffer[i..];
      forall k | 0 <= k < |r| ensures r[k].seqNum > expected && !r[k].isCorrupted {
        if k < i { assert r[k] == buffer[k]; }
        else if k > i { assert r[k] == buffer[k - 1]; }
      }
    }
  }

  class SelectiveRepeatReceiver {
    const timeout: int                   // TIMEOUT_RECEIVER

    var expected: int                    // seq_num_expected
    var out: seq<Option<Payload>>        // out_data_list
    var buffer: seq<Frame>               // received_frames
    var isLastFrame: bool                // is_last_frame
    var lastFrameTime: Option<int>       // time_since_last_frame
    var totalReceived: nat               // total_received_
    var totalSentAck: nat                // total_sent_ack_
    ghost var delivered: seq<Frame>

    /**
     * The Go-Back-N receiver's invariant, plus: the buffer is strictly
     * sorted, holds only intact frames, and every buffered number lies
     * beyond the expected one.
     */
    ghost predicate Valid()
      reads this
    {
      && InOrder(delivered, out, expected)
      && (isLastFrame <==> SawLast(delivered))
      && (lastFrameTime.Some? <==> isLastFrame)
      && totalSentAck == totalReceived
      && BufferBeyond(buffer, expected)
    }

    constructor (timeout: int)
      ensures Valid()
      ensures this.timeout == timeout
      ensures expected == 0 && out == [] && buffer == [] && !isLastFrame && lastFrameTime == None
      ensures totalReceived == 0 && totalSentAck == 0
    {
      this.timeout := timeout;
      expected, out, buffer := 0, [], [];
      isLastFrame, lastFrameTime := false, None;
      totalReceived, totalSentAck := 0, 0;
      delivered := [];
    }

    /**
     * The frame carrying the expected number: it is delivered and answered
     * with the new expected number; then the buffer's run of consecutive
     * successors is delivered after it, with no further acks. If the last
     * frame was among those delivered, the drain deadline starts at `now`.
     */
    method DeliverExpected(frame: Frame, now: int) returns (ack: Frame)
      requires Valid() && !frame.isCorrupted && !isLastFrame && frame.seqNum == expected
      modifies this
      ensures Valid()
      ensures totalReceived == old(totalReceived) + 1
      ensures ack == Ack(old(expected) + 1)
      ensures old(expected) < expected <= old(expected) + 1 + |old(buffer)|
      ensures old(buffer)[..expected - old(expected) - 1] + buffer == old(buffer)
      ensures out == old(out) + [frame.data] + DataOf(old(buffer)[..expected - old(expected) - 1])
      ensures isLastFrame <==> frame.isLast || SawLast(old(buffer)[..expected - old(expected) - 1])
      ensures isLastFrame ==> lastFrameTime == Some(now)
    {
      var taken, rest := Cascade(buffer, frame.seqNum + 1);
      DeliverRun(delivered, out, expected, buffer, frame, taken, rest);
      assert taken == buffer[..|taken|];
      ghost var delivered' := delivered + ([frame] + taken);
      var out', expected' := out + ([frame.data] + DataOf(taken)), expected + 1 + |taken|;
      var last := frame.isLast || SawLast(taken);
      assert InOrder(delivered', out', expected') && BufferBeyond(rest, expected');
      assert last <==> SawLast(delivered');
      assert buffer[..expected' - expected - 1] == taken;
      assert out' == out + [frame.data] + DataOf(taken);
      ack := Ack(expected + 1);
      totalReceived, totalSentAck := totalReceived + 1, totalSentAck + 1;
      delivered, out, expected, buffer := delivered', out', expected', rest;
      isLastFrame, lastFrameTime := last, if last then Some(now) else None;
    }

    /**
     * An intact frame before the drain phase. Below the window: answered with
     * the expected number, nothing else happens. At the expected number: see
     * `DeliverExpected`. Beyond: it is buffered (a number already buffered
     * leaves the buffer as it was) and answered with its own number plus one.
     */
    method Accept(frame: Frame, now: int) returns (ack: Frame)
      requires Valid() && !frame.isCorrupted && !isLastFrame
      modifies this
      ensures Valid()
      ensures totalReceived == old(totalReceived) + 1
      ensures frame.seqNum < old(expected) ==>
        && ack == Ack(old(expected))
        && expected == old(expected) && out == old(out) && buffer == old(buffer) && !isLastFrame
      ensures frame.seqNum == old(expected) ==>
        && ack == Ack(old(expected) + 1)
        && old(expected) < expected <= old(expected) + 1 + |old(buffer)|
        && old(buffer)[..expected - old(expected) - 1] + buffer == old(buffer)
        && out == old(out) + [frame.data] + DataOf(old(buffer)[..expected - old(expected) - 1])
        && (isLastFrame <==> frame.isLast || SawLast(old(buffer)[..expected - old(expected) - 1]))
        && (isLastFrame ==> lastFrameTime == Some(now))
      ensures frame.seqNum > old(expected) ==>
        && ack == Ack(frame.seqNum + 1)
        && expected == old(expected) && out == old(out) && !isLastFrame
        && (Buffered(old(buffer), frame.seqNum) ==> buffer == old(buffer))
        && (!Buffered(old(buffer), frame.seqNum) ==>
              exists i :: 0 <= i <= |old(buffer)| && buffer == old(buffer)[..i] + [frame] + old(buffer)[i..])
    {
      if frame.seqNum == expected {
        ack := DeliverExpected(frame, now);
        return;
      }
      totalReceived := totalReceived + 1;
      if frame.seqNum < expected {
        ack := Ack(expected);
        totalSentAck := totalSentAck + 1;
        return;
      }
      var r := InsertOrdered(buffer, frame);
      InsertBeyond(buffer, frame, r, expected);
      buffer := r;
      ack := Ack(frame.seqNum + 1);
      totalSentAck := totalSentAck + 1;
    }

    /**
     * One iteration of `receive_sel_repeat`'s loop: the drain phase as in
     * Go-Back-N; otherwise an absent or corrupted frame is ignored and an
     * intact one is handled by `Accept`.
     */
    method Step(polled: Option<Frame>, now: int) returns (acks: seq<Frame>, done: bool)
      requires Valid()
      modifies this
      ensures Valid()
      ensures old(expected) <= expected
      ensures out[..old(expected)] == old(out)
      ensures done ==> old(isLastFrame) && now - old(lastFrameTime).value > timeout
      ensures old(isLastFrame) ==>
        && acks == (if Intact(polled) then [Ack(expected)] else [])
        && expected == old(expected) && out == old(out) && buffer == old(buffer) && isLastFrame
        && lastFrameTime == old(lastFrameTime)
        && done == (now - lastFrameTime.value > timeout)
      ensures !old(isLastFrame) && !Intact(polled) ==>
        acks == [] && !done && unchanged(this)
      ensures !old(isLastFrame) && Intact(polled) ==> !done && totalReceived == old(totalReceived) + 1
      ensures !old(isLastFrame) && Intact(polled) && polled.value.seqNum < old(expected) ==>
        && acks == [Ack(old(expected))]
        && expected == old(expected) && out == old(out) && buffer == old(buffer) && !isLastFrame
      ensures !old(isLastFrame) && Intact(polled) && polled.value.seqNum == old(expected) ==>
        && acks == [Ack(old(expected) + 1)]
        && old(expected) < expected <= old(expected) + 1 + |old(buffer)|
        && old(buffer)[..expected - old(expected) - 1] + buffer == old(buffer)
        && out == old(out) + [polled.value.data] + DataOf(old(buffer)[..expected - old(expected) - 1])
        && (isLastFrame <==> polled.value.isLast || SawLast(old(buffer)[..expected - old(expected) - 1]))
        && (isLastFrame ==> lastFrameTime == Some(now))
      ensures !old(isLastFrame) && Intact(polled) && polled.value.seqNum > old(expected) ==>
        && acks == [Ack(polled.value.seqNum + 1)]
        && expected == old(expected) && out == old(out) && !isLastFrame
        && (Buffered(old(buffer), polled.value.seqNum) ==> buffer == old(buffer))
        && (!Buffered(old(buffer), polled.value.seqNum) ==>
              exists i :: 0 <= i <= |old(buffer)| && buffer == old(buffer)[..i] + [polled.value] + old(buffer)[i..])
    {
      acks, done := [], false;
      if isLastFrame {
        if polled.Some? && !polled.value.isCorrupted {
          totalReceived := totalReceived + 1;
          acks := [Ack(expected)];
          totalSentAck := totalSentAck + 1;
        }
        if lastFrameTime.Some? {
          if now - lastFrameTime.value > timeout {
            done := true;
          }
        }
        return;
      }
      if polled.None? {
        return;
      }
      if polled.value.isCorrupted {
        return;
      }
      var ack := Accept(polled.value, now);
      acks := [ack];
    }
  }

  /**
   * Frames 1, 0 and 2 (the last) reach a fresh Selective-Repeat receiver in
   * that order: frame 1 is buffered, frame 0 releases both, frame 2 ends
   * the stream and starts the drain phase.
   */
  method OutOfOrderScenario()
    returns (expected1: int, buffer1: seq<Frame>, out2: seq<Option<Payload>>, expected2: int, buffer2: seq<Frame>,
             out3: seq<Option<Payload>>, drain3: bool)
    ensures expected1 == 0 && buffer1 == [Frame(Some("B"), 1, false, false)]
    ensures out2 == [Some("A"), Some("B")] && expected2 == 2 && buffer2 == []
    ensures out3 == [Some("A"), Some("B"), Some("C")] && drain3
  {
    var r := BufferOutOfOrder();
    expected1, buffer1 := r.expected, r.buffer;
    ReleaseBuffered(r);
    out2, expected2, buffer2 := r.out, r.expected, r.buffer;
    DeliverLast(r);
    out3, drain3 := r.out, r.isLastFrame;
  }

  const FrameA := Frame(Some("A"), 0, false, false)
  const FrameB := Frame(Some("B"), 1, false, false)
  const FrameC := Frame(Some("C"), 2, true, false)

  /** Frame 1 reaches a fresh receiver first: it is buffered and nothing is delivered. */
  method BufferOutOfOrder() returns (r: SelectiveRepeatReceiver)
    ensures fresh(r) && r.Valid()
    ensures r.expected == 0 && r.buffer == [FrameB] && r.out == [] && !r.isLastFrame
  {
    r := new SelectiveRepeatReceiver(5);
    var acks, done := r.Step(Some(FrameB), 0);
    assert !Buffered([], 1);
  }

  /** Frame 0 then arrives: it is delivered and releases the buffered frame 1. */
  method ReleaseBuffered(r: SelectiveRepeatReceiver)
    requires r.Valid()
    requires r.expected == 0 && r.buffer == [FrameB] && r.out == [] && !r.isLastFrame
    modifies r
    ensures r.Valid()
    ensures r.expected == 2 && r.buffer == [] && r.out == [Some("A"), Some("B")] && !r.isLastFrame
  {
    var acks, done := r.Step(Some(FrameA), 1);
    assert r.buffer == [FrameB][r.expected - 1..];
    assert [FrameB][0..] == [FrameB] && [FrameB][0].seqNum == 1;
    assert !BufferBeyond([FrameB], 1);
    assert r.expected == 2;
    assert [FrameB][..1] == [FrameB] && DataOf([FrameB]) == [Some("B")];
    assert !SawLast([FrameB]);
  }

  /** Frame 2, the last, arrives in order: it is delivered and the drain phase begins. */
  method DeliverLast(r: SelectiveRepeatReceiver)
    requires r.Valid()
    requires r.expected == 2 && r.buffer == [] && r.out == [Some("A"), Some("B")] && !r.isLastFrame
    modifies r
    ensures r.out == [Some("A"), Some("B"), Some("C")] && r.isLastFrame
  {
    var acks, done := r.Step(Some(FrameC), 2);
    var none: seq<Frame> := [];
    assert none[..0] == none && DataOf(none) == [];
  }
}
