/** `event_loop`: wait on the IPv6 packet socket and the tun descriptor,
    move packets, and re-check the uplink prefix on a timer. The outcome of
    every external call of an iteration is an input (`Input`); a
    termination signal is the `signalled` input, whose only effect is to
    clear `running`. */
module EventLoop {
  import opened Words
  import opened Limits
  import opened TunRead

  const POLLIN: bv16 := 0x1

  /** Seconds between prefix re-checks (`INTERFACE_POLL_FREQUENCY`, clatd.h). */
  const INTERFACE_POLL_FREQUENCY: int := 30

  /** What `poll` returned: -1 with `errno`, or the `revents` of the packet
      socket (`revents6`) and of the tun descriptor (`revents4`). */
  datatype PollResult = PollFailed(errno: int) | PollReady(revents6: bv16, revents4: bv16)

  /** The outcome of the `read` `read_packet` makes on the tun descriptor. */
  datatype ReadResult = ReadResult(readlen: int, errno: int, buf: seq<u8>)

  /** `read` fills the `PACKETLEN`-byte buffer and returns at most its size. */
  predicate ValidRead(r: ReadResult) {
    |r.buf| == PACKETLEN && r.readlen <= |r.buf|
  }

  type TunReadResult = r: ReadResult | ValidRead(r) witness ReadResult(0, 0, seq(PACKETLEN, _ => 0))

  /** One iteration's inputs: the poll result, the tun read (consulted only
      if the tun descriptor is ready), the clock after the poll, what
      `ipv6_address_changed` would answer, and whether a termination signal
      arrived during the iteration. */
  datatype Input = Input(poll: PollResult, read4: TunReadResult, now: int, addressChanged: bool, signalled: bool)

  /** Work done by an iteration, in order. */
  datatype Work =
    | RingRead             // ring_read: IPv6 packets to the IPv4 side
    | ClearError           // recv(MSG_PEEK) to clear the packet socket's error
    | TunPacket(act: Action) // read_packet on the tun descriptor
    | PrefixCheck          // ipv6_address_changed

  /** The work an iteration did, `running` at its end, and whether it left
      the loop through the prefix-change `break`. */
  datatype Iteration = Iteration(work: seq<Work>, running: bool, brk: bool)

  /** The prefix check is due once more than `INTERFACE_POLL_FREQUENCY`
      seconds have passed since `lastPoll`; `lastPoll` is set once, when the
      loop starts. */
  predicate CheckDue(lastPoll: int, now: int) {
    lastPoll < now - INTERFACE_POLL_FREQUENCY
  }

  /** The tun descriptor was ready and `read` returned 0. */
  predicate ZeroRead(inp: Input) {
    inp.poll.PollReady? && inp.poll.revents4 != 0 && inp.read4.readlen == 0
  }

  predicate IsRead(w: Work) {
    w.RingRead? || w.TunPacket?
  }

  /** `revents & POLLIN`: data to read. */
  predicate Readable(revents: bv16) {
    revents & POLLIN != 0
  }

  /** `revents & ~POLLIN`: any other condition, taken to be an error. */
  predicate OtherEvent(revents: bv16) {
    revents & !POLLIN != 0
  }

  /** The packet-socket work for its `revents`: drain the ring when
      readable, then clear a pending error. */
  function SocketWork(revents6: bv16): (w: seq<Work>)
    ensures RingRead in w <==> Readable(revents6)
    ensures ClearError in w <==> OtherEvent(revents6)
    ensures forall x | x in w :: x == RingRead || x == ClearError
    ensures forall i, j | 0 <= i < j < |w| :: w[i] == RingRead && w[j] == ClearError
  {
    (if Readable(revents6) then [RingRead] else []) + (if OtherEvent(revents6) then [ClearError] else [])
  }

  /** The work the readiness flags call for, and `running` afterwards: a
      failed poll (EINTR included) does nothing; otherwise the packet
      socket is serviced, then `read_packet` runs if the tun descriptor
      reported anything at all. */
  function Service(running: bool, poll: PollResult, read4: TunReadResult): (res: (seq<Work>, bool))
    ensures res.1 <==> running && !(poll.PollReady? && poll.revents4 != 0 && read4.readlen == 0)
  {
    match poll
    case PollFailed(_) => ([], running)
    case PollReady(r6, r4) =>
      var sock := SocketWork(r6);
      if r4 != 0 then
        var act := ReadPacket(read4.readlen, read4.errno, read4.buf, true);
        (sock + [TunPacket(act)], RunningAfter(act, running))
      else
        (sock, running)
  }

  /** What servicing one poll result does: nothing at all after a failed
      poll; otherwise the ring is drained exactly when the packet socket is
      readable, its error cleared exactly when it reports anything else, and
      the tun frame read and classified exactly when the tun descriptor
      reports anything. */
  lemma ServiceWork(running: bool, poll: PollResult, read4: TunReadResult)
    ensures var (work, run) := Service(running, poll, read4);
            var act := ReadPacket(read4.readlen, read4.errno, read4.buf, true);
            && (poll.PollFailed? ==> work == [] && run == running)
            && (poll.PollReady? ==>
                  && (RingRead in work <==> Readable(poll.revents6))
                  && (ClearError in work <==> OtherEvent(poll.revents6))
                  && (TunPacket(act) in work <==> poll.revents4 != 0))
            && (forall w | w in work :: w.TunPacket? ==> w.act == act)
            && (forall i | 0 <= i < |work| && work[i].TunPacket? :: i == |work| - 1)
            && PrefixCheck !in work
  {
  }

  /** One pass through the loop body. */
  function Step(lastPoll: int, running: bool, inp: Input): (it: Iteration)
    ensures it.brk <==> CheckDue(lastPoll, inp.now) && inp.addressChanged
    ensures it.running <==> running && !inp.signalled && !ZeroRead(inp)
  {
    var (work, run) := Service(running, inp.poll, inp.read4);
    var due := CheckDue(lastPoll, inp.now);
    Iteration(work + (if due then [PrefixCheck] else []), run && !inp.signalled, due && inp.addressChanged)
  }

  /** The work of one pass: the prefix check runs exactly when it is due,
      and a failed poll (EINTR included) performs no reads. */
  lemma StepWork(lastPoll: int, running: bool, inp: Input)
    ensures PrefixCheck in Step(lastPoll, running, inp).work <==> CheckDue(lastPoll, inp.now)
    ensures inp.poll.PollFailed? ==> forall w | w in Step(lastPoll, running, inp).work :: !IsRead(w)
  {
    ServiceWork(running, inp.poll, inp.read4);
  }

  /** An iteration with these inputs ends the loop: a termination signal,
      a zero-length tun read, or a due prefix check that finds a change. */
  predicate Halts(lastPoll: int, inp: Input) {
    inp.signalled || ZeroRead(inp) || (CheckDue(lastPoll, inp.now) && inp.addressChanged)
  }

  datatype Exit = Stopped | PrefixChanged | InputsExhausted

  /** Iterations run, `running` at the end, how the loop ended, and all work
      done. `InputsExhausted` only means the inputs given ran out while the
      loop would go on. */
  datatype LoopResult = LoopResult(iterations: nat, running: bool, exit: Exit, work: seq<Work>)

  /** `while (running) { … }` over the given inputs. */
  function Loop(lastPoll: int, running: bool, inputs: seq<Input>): (r: LoopResult)
    ensures r.iterations <= |inputs|
    ensures r.running ==> running
    ensures r.exit == Stopped ==> !r.running
    ensures r.exit == InputsExhausted ==> r.running && r.iterations == |inputs|
    ensures !running ==> r.iterations == 0 && r.exit == Stopped
    decreases |inputs|
  {
    if !running then LoopResult(0, running, Stopped, [])
    else if |inputs| == 0 then LoopResult(0, running, InputsExhausted, [])
    else
      var it := Step(lastPoll, running, inputs[0]);
      if it.brk then LoopResult(1, it.running, PrefixChanged, it.work)
      else
        var rest := Loop(lastPoll, it.running, inputs[1..]);
        LoopResult(rest.iterations + 1, rest.running, rest.exit, it.work + rest.work)
  }

  /** The loop runs exactly up to the first iteration that halts: every
      earlier iteration kept `running` set and did not break, and the exit
      reason and final `running` are those of the halting iteration. The
      `break` itself never touches `running`. */
  lemma {:induction false} LoopStopsAtFirstHalt(lastPoll: int, inputs: seq<Input>)
    ensures var r := Loop(lastPoll, true, inputs);
            && (forall i | 0 <= i < r.iterations - 1 :: !Halts(lastPoll, inputs[i]))
            && (r.exit == InputsExhausted <==> forall i | 0 <= i < |inputs| :: !Halts(lastPoll, inputs[i]))
            && (r.exit != InputsExhausted ==>
                  && r.iterations >= 1
                  && Halts(lastPoll, inputs[r.iterations - 1])
                  && r.running == Step(lastPoll, true, inputs[r.iterations - 1]).running
                  && (r.exit == PrefixChanged <==> Step(lastPoll, true, inputs[r.iterations - 1]).brk))
    decreases |inputs|
  {
    if |inputs| > 0 {
      LoopUnfold(lastPoll, inputs, 0);
      assert inputs[0..] == inputs;
      var it := Step(lastPoll, true, inputs[0]);
      if !it.brk && it.running {
        var tail := inputs[1..];
        LoopStopsAtFirstHalt(lastPoll, tail);
        assert forall i | 1 <= i < |inputs| :: inputs[i] == tail[i - 1];
      }
    }
  }

  /** Whatever happens first, a zero-length tun read or a termination
      signal in an iteration the loop reaches makes that iteration its last
      and leaves `running` clear. */
  lemma LoopEndsAtStop(lastPoll: int, inputs: seq<Input>, k: nat)
    requires k < |inputs|
    requires forall i | 0 <= i < k :: !Halts(lastPoll, inputs[i])
    requires inputs[k].signalled || ZeroRead(inputs[k])
    ensures Loop(lastPoll, true, inputs).iterations == k + 1
    ensures !Loop(lastPoll, true, inputs).running
    ensures Loop(lastPoll, true, inputs).exit != InputsExhausted
  {
    LoopStopsAtFirstHalt(lastPoll, inputs);
    assert Halts(lastPoll, inputs[k]);
  }

  /** Leaving through the prefix-change `break` keeps `running` set unless
      the same iteration read a zero-length frame or was signalled. */
  lemma BreakKeepsRunning(lastPoll: int, inputs: seq<Input>)
    requires Loop(lastPoll, true, inputs).exit == PrefixChanged
    ensures var last := inputs[Loop(lastPoll, true, inputs).iterations - 1];
            Loop(lastPoll, true, inputs).running <==>
              !last.signalled && !ZeroRead(last)
  {
    LoopStopsAtFirstHalt(lastPoll, inputs);
  }

  /** `lastPoll` is never refreshed: with a clock that does not go back,
      once the check is due it runs in every later iteration. */
  lemma CheckStaysDue(lastPoll: int, running: bool, inputs: seq<Input>, i: nat, j: nat)
    requires i <= j < |inputs|
    requires forall m, n | 0 <= m <= n < |inputs| :: inputs[m].now <= inputs[n].now
    requires CheckDue(lastPoll, inputs[i].now)
    ensures PrefixCheck in Step(lastPoll, running, inputs[j]).work
  {
    assert inputs[i].now <= inputs[j].now;
    StepWork(lastPoll, running, inputs[j]);
  }

  /** One unrolling of `Loop` at position `i` of the inputs. */
  lemma LoopUnfold(lastPoll: int, inputs: seq<Input>, i: nat)
    requires i < |inputs|
    ensures var it := Step(lastPoll, true, inputs[i]);
            var rest := Loop(lastPoll, it.running, inputs[i + 1..]);
            Loop(lastPoll, true, inputs[i..]) ==
              if it.brk then LoopResult(1, it.running, PrefixChanged, it.work)
              else LoopResult(rest.iterations + 1, rest.running, rest.exit, it.work + rest.work)
  {
    assert inputs[i..][0] == inputs[i];
    assert inputs[i..][1..] == inputs[i + 1..];
  }

  /** `rest` continued after `n` iterations that did `work`. */
  function Resume(n: nat, work: seq<Work>, rest: LoopResult): LoopResult {
    LoopResult(n + rest.iterations, rest.running, rest.exit, work + rest.work)
  }

  /** One more iteration of a loop resumed after `n` iterations. */
  lemma ResumeStep(lastPoll: int, n: nat, work: seq<Work>, rest: seq<Input>)
    requires |rest| > 0
    ensures var it := Step(lastPoll, true, rest[0]);
            Resume(n, work, Loop(lastPoll, true, rest)) ==
              if it.brk then LoopResult(n + 1, it.running, PrefixChanged, work + it.work)
              else Resume(n + 1, work + it.work, Loop(lastPoll, it.running, rest[1..]))
  {
    var it := Step(lastPoll, true, rest[0]);
    var L := Loop(lastPoll, true, rest);
    LoopUnfold(lastPoll, rest, 0);
    assert rest[0..] == rest;
    if it.brk {
      assert L == LoopResult(1, it.running, PrefixChanged, it.work);
    } else {
      var r := Loop(lastPoll, it.running, rest[1..]);
      assert L == LoopResult(r.iterations + 1, r.running, r.exit, it.work + r.work);
      assert work + (it.work + r.work) == (work + it.work) + r.work;
    }
  }

  /** The loop as the source writes it: test `running`, run the body, leave
      on the prefix-change `break`. */
  method RunEventLoop(lastPoll: int, running: bool, inputs: seq<Input>) returns (r: LoopResult)
    ensures r == Loop(lastPoll, running, inputs)
  {
    var run, n, work, rest := running, 0, [], inputs;
    while run && |rest| > 0
      invariant Loop(lastPoll, running, inputs) == Resume(n, work, Loop(lastPoll, run, rest))
      decreases |rest|
    {
      var it := Step(lastPoll, true, rest[0]);
      ResumeStep(lastPoll, n, work, rest);
      if it.brk {
        return LoopResult(n + 1, it.running, PrefixChanged, work + it.work);
      }
      run, n, work, rest := it.running, n + 1, work + it.work, rest[1..];
    }
    r := LoopResult(n, run, if run then InputsExhausted else Stopped, work);
  }
}
