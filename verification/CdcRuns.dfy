/** Whole runs of the CDC bootloader: the main loop with its timeout, and writing and reading back an image. */
module CdcRuns {
  import opened Arithmetic
  import opened ByteMemory
  import opened Endpoints
  import opened AvrFlash
  import opened Packets
  import opened CdcDevice
  import opened CdcBootloader

  // ---- The pulsing LED, which is the bootloader's clock ----

  const PERIOD: nat := 130560 // 510 brightness steps of 256 iterations
  const TIMEOUT: nat := 10

  /** The brightness is a triangle wave of 510 steps: what it and its direction can be, and which step that is. */
  ghost predicate OnWave(brightness: byte, direction: int) {
    (direction == 1 && brightness < 255) || (direction == -1 && brightness > 0)
  }

  ghost function WaveStep(brightness: byte, direction: int): (w: nat)
    requires OnWave(brightness, direction)
    ensures w < 510
  {
    if direction == 1 then brightness else 510 - brightness
  }

  /** The iterations since the last pulse was complete. */
  ghost function Elapsed(pwm: byte, brightness: byte, direction: int): (t: nat)
    requires OnWave(brightness, direction)
    ensures t < PERIOD
  {
    256 * WaveStep(brightness, direction) + pwm
  }

  /** One iteration of the LED code. A pulse is complete after exactly 510 * 256 of them. */
  method Pulse(pwm: byte, brightness: byte, direction: int)
    returns (pwm': byte, brightness': byte, direction': int, complete: bool)
    requires OnWave(brightness, direction)
    ensures OnWave(brightness', direction')
    ensures complete <==> Elapsed(pwm, brightness, direction) == PERIOD - 1
    ensures Elapsed(pwm', brightness', direction') == if complete then 0 else Elapsed(pwm, brightness, direction) + 1
  {
    pwm', brightness', direction', complete := (pwm + 1) % 256, brightness, direction, false;
    if pwm' == 0 {
      brightness' := (brightness + direction) % 256;
    }
    if brightness' == 255 {
      direction' := -1;
    }
    if brightness' == 0 && direction' != 1 {
      direction' := 1;
      complete := true;
    }
  }

  /** The iteration in which the timeout falls due, when `q` pulses were complete at the last command. */
  function GivesUpAt(q: nat): nat { PERIOD * (q + TIMEOUT) }

  /** The iteration after which the bootloader gives up, when its last command came in iteration `m`
      (counted from one; zero when there was none). */
  function DueAt(m: nat): nat {
    if m == 0 then GivesUpAt(0) else GivesUpAt((m - 1) / PERIOD)
  }

  /** It gives up more than nine and at most ten periods after the last command. */
  lemma DueWindow(m: nat)
    requires m > 0
    ensures 9 * PERIOD < DueAt(m) - (m - 1) <= 10 * PERIOD
  {
    assert m - 1 == PERIOD * ((m - 1) / PERIOD) + (m - 1) % PERIOD;
  }

  // ---- Runs ----

  /** What the host does during one iteration of the main loop. */
  datatype Arrival = Quiet | Command(bytes: seq<byte>, packets: seq<seq<byte>>) {
    ghost predicate Valid() {
      Command? ==> Complete(bytes) && Flat(packets) == bytes && packets[|packets| - 1] != []
    }
  }

  ghost predicate Valid(arrivals: seq<Arrival>) {
    forall a :: a in arrivals ==> a.Command? ==> a.packets != [] && a.Valid()
  }

  ghost function LastCommand(arrivals: seq<Arrival>, n: nat): (m: nat)
    requires n <= |arrivals|
    ensures m <= n
  {
    if n == 0 then 0 else if arrivals[n - 1].Command? then n else LastCommand(arrivals, n - 1)
  }

  /** The commands among the first `n` arrivals. The packets they came in do not matter. */
  ghost function Commands(arrivals: seq<Arrival>, n: nat): (cmds: seq<command>)
    requires Valid(arrivals) && n <= |arrivals|
  {
    if n == 0 then []
    else Commands(arrivals, n - 1) + (if arrivals[n - 1].Command? then [arrivals[n - 1].bytes] else [])
  }

  predicate AppPresent(f: Flash) { !(f.Peek(0) == 0xFF && f.Peek(1) == 0xFF) }

  /** A command does the same whatever the timeout stands at, and it restarts the timeout. */
  lemma TimeoutIsIrrelevant(m: Machine, cmd: seq<byte>, c: Config)
    requires m.Valid() && c.Valid() && Complete(cmd)
    ensures Executed(m.(boottimeout := 0), cmd, c) == Executed(m, cmd, c)
    ensures Response(m.(boottimeout := 0), cmd, c) == Response(m, cmd, c)
    ensures Executed(m, cmd, c).boottimeout == 0
    ensures m.runBootloader ==> (Executed(m, cmd, c).runBootloader <==> cmd[0] != 0x45)
  {
  }

  lemma WholeCommand(packets: seq<seq<byte>>, bytes: seq<byte>)
    requires packets != [] && packets[|packets| - 1] != [] && Flat(packets) == bytes
    ensures Holds([], packets, [], bytes) && [] + packets == packets
  {
    assert packets + [] == packets;
    assert [] + Flat(packets) == Flat(packets);
    AnySplit([], packets, [], bytes);
  }

  lemma CommandFollows(m0: Machine, arrivals: seq<Arrival>, n: nat, m: Machine, c: Config, size: nat,
                       sent0: seq<seq<byte>>, sent: seq<seq<byte>>)
    requires m0.Valid() && c.Valid() && Valid(arrivals) && n < |arrivals| && arrivals[n].Command? && size > 0
    requires sent == sent0 + Answers(m0, Commands(arrivals, n), c, size)
    requires m.Valid() && m.runBootloader && Ran(m0, Commands(arrivals, n), c) == m.(boottimeout := 0)
    ensures var cmd := arrivals[n].bytes;
            && Complete(cmd) && Ran(m0, Commands(arrivals, n + 1), c) == Executed(m, cmd, c)
            && Executed(m, cmd, c).boottimeout == 0
            && (Executed(m, cmd, c).runBootloader <==> cmd[0] != 0x45)
            && sent0 + Answers(m0, Commands(arrivals, n + 1), c, size) == sent + Split(Response(m, cmd, c), size)
  {
    TimeoutIsIrrelevant(m, arrivals[n].bytes, c);
    OneMore(m0, Commands(arrivals, n), arrivals[n].bytes, c, size);
    Regroup(sent0, Answers(m0, Commands(arrivals, n), c, size), Split(Response(m, arrivals[n].bytes, c), size));
  }

  lemma QuietFollows(arrivals: seq<Arrival>, n: nat)
    requires Valid(arrivals) && n < |arrivals| && arrivals[n].Quiet?
    ensures Commands(arrivals, n + 1) == Commands(arrivals, n)
  {
  }

  lemma DueInPeriod(m: nat, q: nat)
    requires m > 0 && PERIOD * q <= m - 1 < PERIOD * (q + 1)
    ensures DueAt(m) == GivesUpAt(q)
  {
  }

  /** The device is as the commands among the first `n` arrivals leave it, but for the timeout's own variables. */
  ghost predicate Follows(b: Bootloader, m0: Machine, arrivals: seq<Arrival>, n: nat)
    requires m0.Valid() && Valid(arrivals) && n <= |arrivals|
    reads b
  {
    var m := Ran(m0, Commands(arrivals, n), b.c);
    b.Valid() && m == b.View().(boottimeout := 0, runBootloader := m.runBootloader)
        && (b.runBootloader ==> m.runBootloader)
  }

  ghost predicate Idle(ep: OutEndpoint, reply: InEndpoint)
    reads ep, reply
  {
    ep.Valid() && !ep.received && ep.queue == [] && reply.Valid() && reply.bank == []
  }

  /** One iteration's share of the command task: a command is carried out and answered in full, however the host
      split it into packets. */
  method TaskStep(b: Bootloader, ep: OutEndpoint, reply: InEndpoint, arrivals: seq<Arrival>, n: nat, ghost m0: Machine,
                  ghost sent0: seq<seq<byte>>)
    requires m0.Valid() && Valid(arrivals) && n < |arrivals| && Follows(b, m0, arrivals, n) && b.runBootloader
    requires Idle(ep, reply)
    requires Answered(reply, m0, arrivals, n, b.c, sent0)
    modifies b, ep, reply
    ensures Follows(b, m0, arrivals, n + 1)
    ensures Idle(ep, reply)
    ensures Answered(reply, m0, arrivals, n + 1, b.c, sent0)
    ensures arrivals[n].Quiet? ==> b.runBootloader && b.flash == old(b.flash) && b.boottimeout == old(b.boottimeout)
    ensures arrivals[n].Command? ==> b.boottimeout == 0 && (!b.runBootloader ==> IsExit(arrivals[n]))
  {
    if arrivals[n].Command? {
      var packets, bytes := arrivals[n].packets, arrivals[n].bytes;
      WholeCommand(packets, bytes);
      ep.HostSends(packets);
      CommandFollows(m0, arrivals, n, b.View(), b.c, reply.size, sent0, reply.sent);
      b.CdcTask(ep, reply, [], bytes);
    } else {
      QuietFollows(arrivals, n);
      b.CdcTask(ep, reply, [], []);
    }
  }

  /** After `n` iterations of the main loop `p` pulses are complete. */
  ghost predicate Clock(n: nat, p: nat, pwm: byte, brightness: byte, direction: int) {
    OnWave(brightness, direction) && n == PERIOD * p + Elapsed(pwm, brightness, direction)
  }

  lemma DueAfterCommand(n: nat, m: nat, p: nat, pwm: byte, brightness: byte, direction: int)
    requires Clock(n, p, pwm, brightness, direction) && m == n + 1
    ensures DueAt(m) == GivesUpAt(p)
  {
    DueInPeriod(m, p);
  }

  lemma ClockStarts()
    ensures Clock(0, 0, 0, 0, 1) && DueAt(0) == GivesUpAt(0)
  {
  }

  lemma NotYetDue(n: nat, p: nat, q: nat, pwm: byte, brightness: byte, direction: int)
    requires Clock(n, p, pwm, brightness, direction) && p - q < TIMEOUT
    ensures n < GivesUpAt(q)
  {
  }

  lemma ClockTicks(n: nat, p: nat, q: nat, pwm: byte, brightness: byte, direction: int, p': nat, pwm': byte,
                   brightness': byte, direction': int)
    requires Clock(n, p, pwm, brightness, direction) && OnWave(brightness', direction')
    requires p' == p || p' == p + 1
    requires p' > p <==> Elapsed(pwm, brightness, direction) == PERIOD - 1
    requires Elapsed(pwm', brightness', direction') == if p' > p then 0 else Elapsed(pwm, brightness, direction) + 1
    ensures Clock(n + 1, p', pwm', brightness', direction')
    ensures p' > p && p' == q + TIMEOUT ==> n + 1 == GivesUpAt(q)
  {
  }

  /** `q` pulses were complete when the last command came, and the timeout counts those since. */
  ghost predicate Waiting(b: Bootloader, p: nat, q: nat)
    reads b
  {
    AppPresent(b.flash) ==> p - q < TIMEOUT && b.boottimeout == p - q
  }

  /** The rest of an iteration: the LED, the timeout, and the decision to start the application. */
  method LedStep(b: Bootloader, pwm: byte, brightness: byte, direction: int, ghost n: nat, ghost p: nat, ghost q: nat)
    returns (pwm': byte, brightness': byte, direction': int, ghost p': nat)
    requires Clock(n, p, pwm, brightness, direction) && Waiting(b, p, q)
    modifies b`boottimeout, b`runBootloader
    ensures Clock(n + 1, p', pwm', brightness', direction')
    ensures b.View() == old(b.View()).(boottimeout := b.boottimeout, runBootloader := b.runBootloader)
    ensures b.runBootloader ==> old(b.runBootloader) && Waiting(b, p', q)
    ensures !b.runBootloader ==> !old(b.runBootloader) || (AppPresent(b.flash) && n + 1 == GivesUpAt(q))
  {
    var complete;
    pwm', brightness', direction', complete := Pulse(pwm, brightness, direction);
    p' := p;
    if complete {
      b.boottimeout := (b.boottimeout + 1) % 256;
      p' := p + 1;
    }
    ClockTicks(n, p, q, pwm, brightness, direction, p', pwm', brightness', direction');
    if b.boottimeout >= TIMEOUT {
      if AppPresent(b.flash) {
        b.runBootloader := false;
      }
    }
  }

  /** Every command so far has been answered. */
  ghost predicate Answered(reply: InEndpoint, m0: Machine, arrivals: seq<Arrival>, n: nat, c: Config,
                           sent0: seq<seq<byte>>)
    requires m0.Valid() && c.Valid() && Valid(arrivals) && n <= |arrivals|
    reads reply
  {
    reply.size > 0 && reply.sent == sent0 + Answers(m0, Commands(arrivals, n), c, reply.size)
  }

  lemma NothingYet(reply: InEndpoint, m0: Machine, arrivals: seq<Arrival>, c: Config)
    requires m0.Valid() && c.Valid() && Valid(arrivals) && reply.Valid()
    ensures Answered(reply, m0, arrivals, 0, c, reply.sent) && Ran(m0, Commands(arrivals, 0), c) == m0
  {
  }

  predicate IsExit(a: Arrival) { a.Command? && a.bytes != [] && a.bytes[0] == 0x45 }

  /** The two ways out of the main loop after iteration `n`. */
  ghost predicate Leaves(arrivals: seq<Arrival>, n: nat, app: bool, due: nat) {
    0 < n <= |arrivals| && (IsExit(arrivals[n - 1]) || (app && n == due))
  }

  /** Where the main loop stands after `n` iterations: `q` pulses were complete when the last command came. */
  ghost predicate Looping(b: Bootloader, ep: OutEndpoint, reply: InEndpoint, arrivals: seq<Arrival>, n: nat,
                          m0: Machine, sent0: seq<seq<byte>>, p: nat, q: nat)
    requires m0.Valid() && Valid(arrivals) && n <= |arrivals|
    reads b, ep, reply
  {
    && Follows(b, m0, arrivals, n) && Idle(ep, reply) && Answered(reply, m0, arrivals, n, b.c, sent0)
    && DueAt(LastCommand(arrivals, n)) == GivesUpAt(q)
    && (b.runBootloader ==> Waiting(b, p, q))
    && (!b.runBootloader ==> Leaves(arrivals, n, AppPresent(b.flash), GivesUpAt(q)))
  }

  /** One iteration of the main loop. */
  method Iterate(b: Bootloader, ep: OutEndpoint, reply: InEndpoint, arrivals: seq<Arrival>, n: nat, pwm: byte,
                 brightness: byte, direction: int, ghost m0: Machine, ghost sent0: seq<seq<byte>>, ghost p: nat,
                 ghost q: nat)
    returns (pwm': byte, brightness': byte, direction': int, ghost p': nat, ghost q': nat)
    requires m0.Valid() && Valid(arrivals) && n < |arrivals| && b.runBootloader
    requires Looping(b, ep, reply, arrivals, n, m0, sent0, p, q) && Clock(n, p, pwm, brightness, direction)
    modifies b, ep, reply
    ensures Looping(b, ep, reply, arrivals, n + 1, m0, sent0, p', q')
    ensures Clock(n + 1, p', pwm', brightness', direction')
  {
    hide Clock, GivesUpAt, DueAt, Ran, Commands, Answers;
    q' := q;
    TaskStep(b, ep, reply, arrivals, n, m0, sent0);
    if arrivals[n].Command? {
      q' := p;
      DueAfterCommand(n, n + 1, p, pwm, brightness, direction);
    }
    pwm', brightness', direction', p' := LedStep(b, pwm, brightness, direction, n, p, q');
  }

  /** The main loop, for as long as the arrivals last. It ends early on an exit command, or on the timeout when
      there is an application to start, and at no other time. */
  method MainLoop(b: Bootloader, ep: OutEndpoint, reply: InEndpoint, arrivals: seq<Arrival>) returns (n: nat)
    requires b.Valid() && b.boottimeout == 0 && b.runBootloader && Valid(arrivals) && Idle(ep, reply)
    modifies b, ep, reply
    ensures n <= |arrivals| && Follows(b, old(b.View()), arrivals, n)
    ensures Answered(reply, old(b.View()), arrivals, n, b.c, old(reply.sent))
    ensures var app := b.flash.Peek(0) != 0xFF || b.flash.Peek(1) != 0xFF;
            var due := DueAt(LastCommand(arrivals, n));
            && (b.runBootloader ==> n == |arrivals| && (app ==> n < due))
            && (!b.runBootloader ==> Leaves(arrivals, n, app, due))
  {
    hide Clock, GivesUpAt, DueAt;
    ghost var m0, sent0 := b.View(), reply.sent;
    NothingYet(reply, m0, arrivals, b.c);
    ClockStarts();
    var pwmcounter: byte, brightness: byte, pulsedirection := 0, 0, 1;
    ghost var p: nat, q: nat := 0, 0;
    n := 0;
    while b.runBootloader && n < |arrivals|
      invariant n <= |arrivals| && Looping(b, ep, reply, arrivals, n, m0, sent0, p, q)
      invariant Clock(n, p, pwmcounter, brightness, pulsedirection)
      decreases |arrivals| - n
    {
      pwmcounter, brightness, pulsedirection, p, q :=
        Iterate(b, ep, reply, arrivals, n, pwmcounter, brightness, pulsedirection, m0, sent0, p, q);
      n := n + 1;
    }
    if b.runBootloader && AppPresent(b.flash) {
      NotYetDue(n, p, q, pwmcounter, brightness, pulsedirection);
    }
  }
}
