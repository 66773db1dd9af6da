/** The Selective Repeat sender, entity A (sr.c:39-137): admission control
    over a window of sequence numbers, packet construction, and reset.

    The C globals `A_buffer`, `A_ackeds`, `A_expiries`, `A_timer_is_active`,
    `A_nextseqnum` and `A_base` (sr.c:41-47) become the fields of one
    `Sender` object. The emulator's `window_full` drop counter becomes the
    field `windowFull`. The emulator calls `tolayer3` and `starttimer` are
    recorded in two ghost logs: `sent`, every packet handed to layer 3 in
    order, and `timerStarts`, how many times the tick timer was started. */
module SelectiveRepeat {
  import opened Packets

  /** `SEQSPACE` (sr.c:13): sequence numbers are taken modulo this. */
  const SeqSpace: int := 12

  /** `WINDOWSIZE` (sr.c:10): at most this many packets are unacknowledged. */
  const WindowSize: int := 6

  /** `RTT` (sr.c:9): the countdown a freshly sent packet gets, 16.0 ticks. */
  const Rtt: int := 16

  /** Expiry value of a slot whose countdown is not running (sr.c:131). */
  const Inactive: int := -1

  /** The number of sequence numbers from `from` up to, not including, `to`,
      counting modulo `SeqSpace`: the window occupancy computed at sr.c:54.
      The C expression is non-negative for indices in range, so C's
      truncating `%` and Dafny's Euclidean `%` agree on it. */
  function Distance(from: int, to: int): (r: int)
    requires 0 <= from < SeqSpace && 0 <= to < SeqSpace
    ensures 0 <= r < SeqSpace
    ensures (from + r) % SeqSpace == to
  {
    (to + SeqSpace - from) % SeqSpace
  }

  /** The slot of the `j`-th sequence number counted from `base`. */
  function Slot(base: int, j: int): int
  {
    (base + j) % SeqSpace
  }

  /** Distinct offsets below `SeqSpace` name distinct slots: a sequence
      number is never reused while fewer than `SeqSpace` are in flight. */
  lemma SlotsDistinct(base: int, i: int, j: int)
    requires 0 <= base < SeqSpace
    requires 0 <= i < SeqSpace && 0 <= j < SeqSpace && i != j
    ensures Slot(base, i) != Slot(base, j)
  {
  }

  /** Advancing `to` by one modulo `SeqSpace` grows the distance by one, as
      long as it does not wrap all the way round to `from`. */
  lemma DistanceStep(from: int, to: int)
    requires 0 <= from < SeqSpace && 0 <= to < SeqSpace
    requires Distance(from, to) < SeqSpace - 1
    ensures Distance(from, (to + 1) % SeqSpace) == Distance(from, to) + 1
  {
  }

  /** Slot `to` is not among the `Distance(from, to)` slots counted from
      `from`: the slot a new packet takes holds no packet in flight. */
  lemma NextSlotFree(from: int, to: int, j: int)
    requires 0 <= from < SeqSpace && 0 <= to < SeqSpace
    requires 0 <= j < Distance(from, to)
    ensures Slot(from, j) != to
  {
    SlotsDistinct(from, j, Distance(from, to));
  }

  /** `w` is what the log `s` ends with. */
  ghost predicate EndsWith(s: seq<Packet>, w: seq<Packet>)
  {
    |w| <= |s| && s[|s| - |w|..] == w
  }

  /** The packets in flight: those in the slots from `base` up to, not
      including, `nextseq`, oldest first. */
  ghost function WindowOf(base: int, nextseq: int, buf: seq<Packet>): (w: seq<Packet>)
    requires 0 <= base < SeqSpace && 0 <= nextseq < SeqSpace && |buf| == SeqSpace
    ensures |w| == Distance(base, nextseq)
  {
    var n := Distance(base, nextseq);
    seq(n, j requires 0 <= j < n => buf[Slot(base, j)])
  }

  /** Slot `k` holds a packet in flight: the packet carries sequence number
      `k`, no acknowledgement number and a matching checksum, and the slot is
      unacknowledged with a running countdown. */
  ghost predicate InFlight(k: int, buf: seq<Packet>, ack: seq<bool>, exp: seq<int>)
    requires 0 <= k < SeqSpace && |buf| == SeqSpace && |ack| == SeqSpace && |exp| == SeqSpace
  {
    && buf[k].seqnum == k
    && buf[k].acknum == NotInUse
    && Intact(buf[k])
    && !ack[k]
    && exp[k] == Rtt
  }

  /** The sender invariant over the values of the sender's globals: one slot
      per sequence number; indices in range; at most `WindowSize` packets in
      flight; the timer flag set whenever one is; every slot in the window in
      flight; and the window made of exactly the most recent packets sent,
      in the order they were sent. */
  ghost predicate SenderInvariant(base: int, nextseq: int, timerActive: bool,
                                  buf: seq<Packet>, ack: seq<bool>, exp: seq<int>,
                                  sent: seq<Packet>)
  {
    && |buf| == SeqSpace && |ack| == SeqSpace && |exp| == SeqSpace
    && 0 <= base < SeqSpace && 0 <= nextseq < SeqSpace
    && Distance(base, nextseq) <= WindowSize
    && (Distance(base, nextseq) > 0 ==> timerActive)
    && (forall j :: 0 <= j < Distance(base, nextseq) ==> InFlight(Slot(base, j), buf, ack, exp))
    && EndsWith(sent, WindowOf(base, nextseq, buf))
  }

  /** An empty window satisfies the invariant, whatever the slots hold. */
  lemma EmptyWindowInvariant(base: int, timerActive: bool,
                             buf: seq<Packet>, ack: seq<bool>, exp: seq<int>,
                             sent: seq<Packet>)
    requires 0 <= base < SeqSpace
    requires |buf| == SeqSpace && |ack| == SeqSpace && |exp| == SeqSpace
    ensures WindowOf(base, base, buf) == []
    ensures SenderInvariant(base, base, timerActive, buf, ack, exp, sent)
  {
  }

  /** Storing packet `p` in the free slot `nextseq` and advancing `nextseq`
      appends `p` to the window, which grows by exactly one. */
  lemma SendAppendsToWindow(base: int, nextseq: int, buf: seq<Packet>, p: Packet)
    requires 0 <= base < SeqSpace && 0 <= nextseq < SeqSpace && |buf| == SeqSpace
    requires Distance(base, nextseq) < SeqSpace - 1
    ensures Distance(base, (nextseq + 1) % SeqSpace) == Distance(base, nextseq) + 1
    ensures WindowOf(base, (nextseq + 1) % SeqSpace, buf[nextseq := p])
         == WindowOf(base, nextseq, buf) + [p]
  {
    DistanceStep(base, nextseq);
    forall j | 0 <= j < Distance(base, nextseq)
      ensures Slot(base, j) != nextseq
    {
      NextSlotFree(base, nextseq, j);
    }
  }

  /** After an accepted send every slot of the grown window is in flight:
      the old ones are untouched and the new one holds `p`. */
  lemma SendKeepsSlotsInFlight(base: int, nextseq: int,
                               buf: seq<Packet>, ack: seq<bool>, exp: seq<int>, p: Packet)
    requires 0 <= base < SeqSpace && 0 <= nextseq < SeqSpace
    requires |buf| == SeqSpace && |ack| == SeqSpace && |exp| == SeqSpace
    requires Distance(base, nextseq) < SeqSpace - 1
    requires forall j :: 0 <= j < Distance(base, nextseq) ==> InFlight(Slot(base, j), buf, ack, exp)
    requires p.seqnum == nextseq && p.acknum == NotInUse && Intact(p)
    ensures forall j :: 0 <= j < Distance(base, nextseq) + 1 ==>
      InFlight(Slot(base, j), buf[nextseq := p], ack[nextseq := false], exp[nextseq := Rtt])
  {
  }

  /** An accepted send keeps the invariant: storing packet `p` for
      `nextseq` in its slot, clearing the slot's acknowledged flag, starting
      its countdown, logging `p`, setting the timer flag and advancing
      `nextseq` keeps at most `WindowSize` packets in flight, all of them in
      flight, as the last packets sent. */
  lemma SendPreservesInvariant(base: int, nextseq: int, timerActive: bool,
                               buf: seq<Packet>, ack: seq<bool>, exp: seq<int>,
                               sent: seq<Packet>, p: Packet)
    requires SenderInvariant(base, nextseq, timerActive, buf, ack, exp, sent)
    requires Distance(base, nextseq) < WindowSize
    requires p.seqnum == nextseq && p.acknum == NotInUse && Intact(p)
    ensures SenderInvariant(base, (nextseq + 1) % SeqSpace, true,
                            buf[nextseq := p], ack[nextseq := false], exp[nextseq := Rtt],
                            sent + [p])
  {
    SendAppendsToWindow(base, nextseq, buf, p);
    SendKeepsSlotsInFlight(base, nextseq, buf, ack, exp, p);
    var w := WindowOf(base, nextseq, buf);
    var s' := sent + [p];
    assert s'[|s'| - (|w| + 1)..] == sent[|sent| - |w|..] + [p];
  }

  class Sender {
    /** `A_buffer`: the packet sent with each sequence number, kept for
        retransmission. */
    var buffer: array<Packet>
    /** `A_ackeds`: whether the packet in each slot has been acknowledged. */
    var acked: array<bool>
    /** `A_expiries`: remaining ticks of each slot's countdown, or `Inactive`. */
    var expiry: array<int>
    /** `A_timer_is_active`: whether the tick timer has been started. */
    var timerActive: bool
    /** `A_nextseqnum`: the sequence number the next packet will carry. */
    var nextseq: int
    /** `A_base`: the oldest unacknowledged sequence number. */
    var base: int
    /** `window_full`: messages dropped because the window was full. */
    var windowFull: nat

    /** Every packet passed to `tolayer3`, oldest first. */
    ghost var sent: seq<Packet>
    /** Number of calls to `starttimer`. */
    ghost var timerStarts: nat

    /** The three slot arrays have one entry per sequence number. */
    ghost predicate Shaped()
      reads this
    {
      buffer.Length == SeqSpace && acked.Length == SeqSpace && expiry.Length == SeqSpace
    }

    /** Number of packets in flight, `window_size` at sr.c:54. */
    function Occupancy(): (n: int)
      reads this
      requires 0 <= base < SeqSpace && 0 <= nextseq < SeqSpace
      ensures 0 <= n < SeqSpace
    {
      Distance(base, nextseq)
    }

    /** The packets in flight, from the one at `base` up to the newest. */
    ghost function Window(): (w: seq<Packet>)
      reads this, buffer
      requires 0 <= base < SeqSpace && 0 <= nextseq < SeqSpace
      requires buffer.Length == SeqSpace
      ensures |w| == Occupancy()
    {
      WindowOf(base, nextseq, buffer[..])
    }

    /** The sender invariant, `SenderInvariant`, of the current state. */
    ghost predicate Valid()
      reads this, buffer, acked, expiry
    {
      && Shaped()
      && SenderInvariant(base, nextseq, timerActive, buffer[..], acked[..], expiry[..], sent)
    }

    /** The sender as the program starts: the globals of sr.c:41-47 are
        statically zero-initialised and `window_full` starts at zero. */
    constructor ()
      ensures Valid()
      ensures fresh(buffer) && fresh(acked) && fresh(expiry)
      ensures forall i :: 0 <= i < SeqSpace ==>
        buffer[i] == ZeroPacket && !acked[i] && expiry[i] == 0
      ensures base == 0 && nextseq == 0 && !timerActive && windowFull == 0
      ensures sent == [] && timerStarts == 0
    {
      buffer := new Packet[SeqSpace](_ => ZeroPacket);
      acked := new bool[SeqSpace](_ => false);
      expiry := new int[SeqSpace](_ => 0);
      timerActive := false;
      nextseq := 0;
      base := 0;
      windowFull := 0;
      sent := [];
      timerStarts := 0;
      new;
      EmptyWindowInvariant(0, false, buffer[..], acked[..], expiry[..], sent);
    }

    /** `A_init` (sr.c:118-137): empty the window, mark the timer idle, and
        clear every slot's acknowledged flag and countdown. The buffered
        packets, the drop counter and the logs are left as they are. */
    method Init()
      requires Shaped()
      modifies this, acked, expiry
      ensures Valid()
      ensures buffer == old(buffer) && acked == old(acked) && expiry == old(expiry)
      ensures base == 0 && nextseq == 0 && !timerActive
      ensures Occupancy() == 0 && Window() == []
      ensures forall i :: 0 <= i < SeqSpace ==> !acked[i] && expiry[i] == Inactive
      ensures buffer[..] == old(buffer[..])
      ensures windowFull == old(windowFull)
      ensures sent == old(sent) && timerStarts == old(timerStarts)
    {
      base := 0;
      nextseq := 0;
      timerActive := false;
      for i := 0 to SeqSpace
        modifies acked, expiry
        invariant forall m :: 0 <= m < i ==> !acked[m] && expiry[m] == Inactive
      {
        acked[i] := false;
        expiry[i] := Inactive;
      }
      EmptyWindowInvariant(0, false, buffer[..], acked[..], expiry[..], sent);
    }

    /** `A_output` (sr.c:50-103): send `message` if the window has room.

        With `WindowSize` packets in flight the message is dropped and only
        the drop counter moves. Otherwise the packet with sequence number
        `nextseq`, no acknowledgement number, the message as payload and a
        matching checksum is stored in slot `nextseq`, marked unacknowledged,
        sent, given a countdown of `Rtt`; the tick timer is started if it is
        not already running; and `nextseq` advances modulo `SeqSpace`. */
    method Output(message: Message)
      requires Valid()
      modifies this, buffer, acked, expiry
      ensures Valid()
      ensures buffer == old(buffer) && acked == old(acked) && expiry == old(expiry)
      ensures base == old(base)
      // the window is full: the message is dropped
      ensures old(Occupancy()) >= WindowSize ==>
        && windowFull == old(windowFull) + 1
        && nextseq == old(nextseq)
        && timerActive == old(timerActive)
        && buffer[..] == old(buffer[..])
        && acked[..] == old(acked[..])
        && expiry[..] == old(expiry[..])
        && sent == old(sent)
        && timerStarts == old(timerStarts)
      // there is room: the packet takes slot `old(nextseq)`
      ensures old(Occupancy()) < WindowSize ==>
        var k := old(nextseq);
        && buffer[k].seqnum == k
        && buffer[k].acknum == NotInUse
        && buffer[k].payload == message.data
        && Intact(buffer[k])
        && buffer[..] == old(buffer[..])[k := buffer[k]]
        && acked[..] == old(acked[..])[k := false]
        && expiry[..] == old(expiry[..])[k := Rtt]
        && sent == old(sent) + [buffer[k]]
        && timerActive
        && timerStarts == old(timerStarts) + (if old(timerActive) then 0 else 1)
        && nextseq == (k + 1) % SeqSpace
        && windowFull == old(windowFull)
        && Occupancy() == old(Occupancy()) + 1
        && Window() == old(Window()) + [buffer[k]]
    {
      var windowSize := Distance(base, nextseq);
      if windowSize >= WindowSize {
        windowFull := windowFull + 1;
        return;
      }

      ghost var buf0, ack0, exp0, sent0 := buffer[..], acked[..], expiry[..], sent;
      ghost var active0 := timerActive;
      var k := nextseq;
      var p := BuildPacket(k, message);

      buffer[k] := p;
      acked[k] := false;
      sent := sent + [p];
      expiry[k] := Rtt;
      if !timerActive {
        timerStarts := timerStarts + 1;
        timerActive := true;
      }
      nextseq := (k + 1) % SeqSpace;

      assert buffer[..] == buf0[k := p];
      assert acked[..] == ack0[k := false];
      assert expiry[..] == exp0[k := Rtt];
      SendAppendsToWindow(base, k, buf0, p);
      SendPreservesInvariant(base, k, active0, buf0, ack0, exp0, sent0, p);
    }
  }

  /** Packet construction in `A_output` (sr.c:66-75): header fields, a
      byte-by-byte copy of the message into the payload, then the checksum. */
  method BuildPacket(seqnum: int, message: Message) returns (p: Packet)
    ensures p.seqnum == seqnum && p.acknum == NotInUse
    ensures p.payload == message.data
    ensures Intact(p)
  {
    var payload: Payload := seq(PayloadSize, _ => 0);
    for i := 0 to PayloadSize
      invariant payload[..i] == message.data[..i]
    {
      payload := payload[i := message.data[i]];
    }
    assert payload == payload[..PayloadSize];
    p := Packet(seqnum, NotInUse, 0, payload);
    var c := ComputeChecksum(p);
    p := p.(checksum := c);
  }

  /** A driver standing in for the emulator, which calls `A_init` once and
      then `A_output` once per message. From a fresh, initialised sender and
      with no acknowledgement in between, the first six messages are sent
      with sequence numbers 0 to 5, the seventh is dropped and counted, and
      the tick timer is started exactly once. */
  method SixSentSeventhDropped(m: seq<Message>) returns (s: Sender)
    requires |m| == 7
    ensures s.Valid()
    ensures |s.sent| == 6
    ensures forall j :: 0 <= j < 6 ==> s.sent[j].seqnum == j && s.sent[j].payload == m[j].data
    ensures s.windowFull == 1 && s.timerStarts == 1
    ensures s.base == 0 && s.nextseq == 6
  {
    s := new Sender();
    s.Init();
    for i := 0 to 6
      invariant s.Valid()
      invariant fresh(s.buffer) && fresh(s.acked) && fresh(s.expiry)
      invariant s.base == 0 && s.nextseq == i && s.timerActive == (i > 0)
      invariant s.Occupancy() == i
      invariant s.windowFull == 0 && s.timerStarts == (if i > 0 then 1 else 0)
      invariant |s.sent| == i
      invariant forall j :: 0 <= j < i ==> s.sent[j].seqnum == j && s.sent[j].payload == m[j].data
    {
      ghost var before := s.sent;
      s.Output(m[i]);
      assert s.sent == before + [s.buffer[i]];
    }
    s.Output(m[6]);
  }
}
