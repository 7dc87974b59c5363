/** The session with its pseudo-terminal: client, daemon and child side by side, and the client's pump that shows what
    the child writes until the terminal hangs up. A read of the terminal's master waits while its slave has not been
    opened. */
module Terminal {
  import opened CText
  import opened Decimal
  import opened Daemon
  import opened Session
  import opened Protocol

  // ----- Moves -----

  /** `attached` tells whether the child got as far as opening the slave. */
  datatype Child = Unborn | Forked | Running | Exited(code: int, attached: bool)

  datatype Pump = Waiting | Pumping | Ended

  /** All three processes. `output` is what the child has written to the terminal, `shown` how much of it the pump has
      put on the client's output; `torn` says that the pump gave up after an error. */
  datatype Full = Full(s: Sys, child: Child, pump: Pump, output: string, shown: nat, torn: bool)

  const OPENING := Full(FRESH, Unborn, Waiting, "", 0, false)

  datatype Move =
    | Base(step: Step)
    | ChildOpens
    | ChildWrites(text: string)
    | ChildExits(code: int)
    | PumpCopies(n: nat)
    | PumpEnds
    | PumpBreaks

  /** The pump runs between the acknowledgement and the exit code. */
  predicate PumpRuns(f: Full) {
    f.s.client.CCode? && f.pump.Pumping?
  }

  /** A code is read after the pump, and sent for a child that has exited, or as -1. */
  predicate Possible(c: Client, f: Full, m: Move)
    requires c.Valid() && f.s.Bounded()
  {
    match m
    case Base(step) =>
      && Enabled(c, f.s, step)
      && (step.ClientRead? && f.s.client.CCode? ==> f.pump.Ended?)
      && (step.ServerReport? ==> step.code == -1 || (f.child.Exited? && f.child.code == step.code))
    case ChildOpens => f.child.Forked?
    case ChildWrites(_) => f.child.Running?
    case ChildExits(code) => (f.child.Forked? || f.child.Running?) && 0 <= code < 256
    case PumpCopies(n) => PumpRuns(f) && 1 <= n && f.shown + n <= |f.output|
    case PumpEnds => PumpRuns(f) && f.child.Exited? && f.child.attached && f.shown == |f.output|
    case PumpBreaks => PumpRuns(f)
  }

  function PumpAfter(c: Client, p: Pump, before: ClientPhase, after: ClientPhase): Pump {
    if before.CAck? && after.CCode? then (if c.stdout == Tty then Pumping else Ended) else p
  }

  function After(c: Client, cred: Cred, f: Full, m: Move): Full
    requires c.Valid() && f.s.Bounded() && Possible(c, f, m)
  {
    match m
    case Base(step) =>
      var s := Next(c, cred, f.s, step);
      f.(s := s, child := if step.ServerFork? && step.ok then Forked else f.child,
         pump := PumpAfter(c, f.pump, f.s.client, s.client))
    case ChildOpens => f.(child := Running)
    case ChildWrites(text) => f.(output := f.output + text)
    case ChildExits(code) => f.(child := Exited(code, f.child.Running?))
    case PumpCopies(n) => f.(shown := f.shown + n)
    case PumpEnds => f.(pump := Ended)
    case PumpBreaks => f.(pump := Ended, torn := true)
  }

  ghost predicate Runs(c: Client, cred: Cred, from: Full, moves: seq<Move>, to: Full)
    requires c.Valid()
    decreases |moves|
  {
    if moves == [] then from == to
    else
      from.s.Bounded() && Possible(c, from, moves[0]) && Runs(c, cred, After(c, cred, from, moves[0]), moves[1..], to)
  }

  // ----- Leaving out terminal and child gives a run of client and daemon -----

  function Bases(moves: seq<Move>): seq<Step> {
    if moves == [] then []
    else (if moves[0].Base? then [moves[0].step] else []) + Bases(moves[1..])
  }

  lemma {:induction false} Projects(c: Client, cred: Cred, from: Full, moves: seq<Move>, to: Full)
    requires c.Valid() && Runs(c, cred, from, moves, to)
    ensures Reaches(c, cred, from.s, Bases(moves), to.s)
    decreases |moves|
  {
    hide Enabled, Next, Sys.Bounded, Reaches;
    if moves == [] {
      ReachesItself(c, cred, to.s);
    } else {
      Projects(c, cred, After(c, cred, from, moves[0]), moves[1..], to);
      if moves[0].Base? {
        ReachesFrom(c, cred, from.s, moves[0].step, Bases(moves[1..]), to.s);
      } else {
        assert Bases(moves) == Bases(moves[1..]);
      }
    }
  }

  lemma ReachesItself(c: Client, cred: Cred, s: Sys)
    requires c.Valid()
    ensures Reaches(c, cred, s, [], s)
  {
  }

  lemma ReachesFrom(c: Client, cred: Cred, s: Sys, step: Step, steps: seq<Step>, to: Sys)
    requires c.Valid() && s.Bounded() && Enabled(c, s, step) && Reaches(c, cred, Next(c, cred, s, step), steps, to)
    ensures Reaches(c, cred, s, [step] + steps, to)
  {
    hide Enabled, Next, Sys.Bounded;
    assert ([step] + steps)[1..] == steps;
  }

  // ----- The invariant -----

  predicate PumpInv(c: Client, f: Full) {
    && f.shown <= |f.output|
    && (f.s.client.CWriting? || f.s.client.CAck? ==> f.pump.Waiting?)
    && (f.s.client.CCode? ==> !f.pump.Waiting?)
    && (f.s.client.CDone? ==> f.pump.Ended?)
    && (f.pump.Pumping? ==> c.stdout == Tty)
    && (c.stdout == Tty && f.pump.Ended? && !f.torn ==> f.child.Exited? && f.child.attached && f.shown == |f.output|)
  }

  predicate ChildInv(c: Client, f: Full) {
    && (f.s.server.phase.Reading() || f.s.server.phase.PAck? || f.s.server.phase.PFork? ==> f.child.Unborn?)
    && (f.s.server.phase.PWait? ==> !f.child.Unborn?)
    && (f.s.server.phase.PDone? ==> f.s.code == -1 || (f.child.Exited? && f.child.code == f.s.code))
    && (f.child.Running? || (f.child.Exited? && f.child.attached) || f.output == "")
    && (f.s.toClient != "" ==> WithinLimits(c))
  }

  predicate FullInv(c: Client, cred: Cred, f: Full)
    requires c.Valid()
  {
    Inv(c, cred, f.s) && PumpInv(c, f) && ChildInv(c, f)
  }

  lemma InvBounds(c: Client, cred: Cred, s: Sys)
    requires c.Valid() && Inv(c, cred, s)
    ensures s.Bounded() && (s.client.CWriting? ==> s.client.k < |Chunks(c)|)
    ensures s.client.CCode? ==> s.toClient != ""
    ensures s.client.CCode? ==> !s.server.phase.Reading() && !s.server.phase.PAck?
    ensures s.client.CAck? || s.client.CCode? ==> s.toServer == Flat(Chunks(c)[..|Chunks(c)|])
  {
    hide Chunks, Expected, OverAt, PutNative, Flat;
  }

  lemma BasePumpInv(c: Client, cred: Cred, f: Full, step: Step)
    requires c.Valid() && f.s.Bounded() && PumpInv(c, f) && ChildInv(c, f) && Possible(c, f, Base(step))
    ensures PumpInv(c, After(c, cred, f, Base(step)))
  {
    hide Chunks, GetNative, PutNative, Accept;
  }

  lemma BaseChildInv(c: Client, cred: Cred, f: Full, step: Step)
    requires c.Valid() && f.s.Bounded() && ChildInv(c, f) && Possible(c, f, Base(step))
    requires f.s.toClient == "" && Next(c, cred, f.s, step).toClient != "" ==> WithinLimits(c)
    ensures ChildInv(c, After(c, cred, f, Base(step)))
  {
    hide Chunks, GetNative, PutNative, Accept, WithinLimits;
    if step.ServerRead? { ReadPhases(c, cred, f.s, step); }
  }

  /** A read leads to another read, to the acknowledgement, or to failure. */
  lemma ReadPhases(c: Client, cred: Cred, s: Sys, step: Step)
    requires c.Valid() && s.Bounded() && Enabled(c, s, step) && step.ServerRead?
    ensures var p := Next(c, cred, s, step).server.phase; p.Reading() || p.PAck? || p.PFailed?
  {
    hide Chunks, GetNative, BytesOf;
  }

  /** Only a daemon that acknowledges writes. */
  lemma WritesWithin(c: Client, cred: Cred, s: Sys, step: Step)
    requires c.Valid() && Inv(c, cred, s) && Enabled(c, s, step) && s.Bounded()
    requires Next(c, cred, s, step).toClient != s.toClient
    ensures WithinLimits(c)
  {
    hide Inv, Chunks, WithinLimits, Received, GetNative, PutNative, Accept;
    assert Acknowledging(s);
    AcknowledgedWithin(c, cred, s);
  }

  lemma MoveInv(c: Client, cred: Cred, f: Full, m: Move)
    requires c.Valid() && FullInv(c, cred, f) && f.s.Bounded() && Possible(c, f, m)
    ensures FullInv(c, cred, After(c, cred, f, m))
  {
    hide Inv, Enabled, Next, WithinLimits;
    if m.Base? {
      hide PumpInv, ChildInv;
      StepInv(c, cred, f.s, m.step);
      BasePumpInv(c, cred, f, m.step);
      if f.s.toClient == "" && Next(c, cred, f.s, m.step).toClient != "" { WritesWithin(c, cred, f.s, m.step); }
      BaseChildInv(c, cred, f, m.step);
    }
  }

  lemma OpeningInv(c: Client, cred: Cred)
    requires c.Valid()
    ensures FullInv(c, cred, OPENING)
  {
    hide Inv, WithinLimits;
    FreshInv(c, cred);
  }

  lemma {:induction false} MovesInv(c: Client, cred: Cred, from: Full, moves: seq<Move>, to: Full)
    requires c.Valid() && FullInv(c, cred, from) && Runs(c, cred, from, moves, to)
    ensures FullInv(c, cred, to)
    decreases |moves|
  {
    hide FullInv, Possible, After;
    if moves != [] {
      MoveInv(c, cred, from, moves[0]);
      MovesInv(c, cred, After(c, cred, from, moves[0]), moves[1..], to);
    }
  }

  // ----- Safety -----

  /** In every run, a client that ends with a code ends with the child's, or -1; and on a terminal, unless the pump
      broke, only after the child has exited and all it wrote has been shown. */
  lemma TerminalSafety(c: Client, cred: Cred, moves: seq<Move>, f: Full)
    requires c.Valid() && Runs(c, cred, OPENING, moves, f)
    ensures f.s.client.CDone? ==>
              f.s.client.code == -1 || (f.child.Exited? && f.child.code == f.s.client.code)
    ensures f.s.client.CDone? && c.stdout == Tty && !f.torn ==>
              f.child.Exited? && f.child.attached && f.shown == |f.output|
    ensures Acknowledging(f.s) ==> Received(c, cred, f.s.server) && WithinLimits(c)
  {
    hide Runs, Inv, Reaches, WithinLimits, Received;
    OpeningInv(c, cred);
    MovesInv(c, cred, OPENING, moves, f);
    Projects(c, cred, OPENING, moves, f);
    SessionSafety(c, cred, Bases(moves), f.s);
  }

  /** All that the child writes in a run. */
  function Texts(moves: seq<Move>): string {
    if moves == [] then "" else (if moves[0].ChildWrites? then moves[0].text else "") + Texts(moves[1..])
  }

  lemma {:induction false} OutputWritten(c: Client, cred: Cred, from: Full, moves: seq<Move>, to: Full)
    requires c.Valid() && Runs(c, cred, from, moves, to)
    ensures to.output == from.output + Texts(moves)
    decreases |moves|
  {
    hide Enabled, Next, Sys.Bounded;
    if moves != [] {
      var mid := After(c, cred, from, moves[0]);
      OutputWritten(c, cred, mid, moves[1..], to);
      if moves[0].ChildWrites? { Regroup(from.output, moves[0].text, Texts(moves[1..])); }
    }
  }

  lemma {:induction false} ExitRecorded(c: Client, cred: Cred, from: Full, moves: seq<Move>, to: Full)
    requires c.Valid() && Runs(c, cred, from, moves, to)
    ensures to.child.Exited? ==> from.child == to.child || ChildExits(to.child.code) in moves
    ensures to.child.Running? || (to.child.Exited? && to.child.attached) ==>
              from.child.Running? || (from.child.Exited? && from.child.attached) || ChildOpens in moves
    decreases |moves|
  {
    hide Enabled, Next, Sys.Bounded;
    if moves != [] {
      ExitRecorded(c, cred, After(c, cred, from, moves[0]), moves[1..], to);
      assert forall m :: m in moves <==> m == moves[0] || m in moves[1..];
    }
  }

  /** In every run, a client that ends with a code other than -1 ends with the one the child exited with; on a terminal,
      unless the pump broke, it ends only after the child opened the terminal and exited, and all that the child wrote
      in the run was shown. */
  lemma TerminalMeaning(c: Client, cred: Cred, moves: seq<Move>, f: Full)
    requires c.Valid() && Runs(c, cred, OPENING, moves, f)
    ensures f.s.client.CDone? ==> f.s.client.code == -1 || ChildExits(f.s.client.code) in moves
    ensures f.s.client.CDone? && c.stdout == Tty && !f.torn ==>
              ChildOpens in moves && f.output == Texts(moves) && f.shown == |Texts(moves)|
  {
    hide Runs, Received, WithinLimits;
    TerminalSafety(c, cred, moves, f);
    ExitRecorded(c, cred, OPENING, moves, f);
    OutputWritten(c, cred, OPENING, moves, f);
    assert "" + Texts(moves) == Texts(moves);
  }

  // ----- Waiting -----

  /** Errors, and processes that end by themselves. */
  predicate Fails(m: Move) {
    match m
    case Base(ClientWrite(n)) => n == -1
    case Base(ClientRead(n)) => n == -1
    case Base(ServerRead(n, _)) => n == -1
    case Base(ClientDies) => true
    case Base(ServerDies) => true
    case PumpBreaks => true
    case _ => false
  }

  /** The pump waits for a terminal that nobody will open any more. */
  predicate Hung(f: Full) {
    && PumpRuns(f) && f.s.ServerClosed()
    && (f.child.Unborn? || (f.child.Exited? && !f.child.attached))
  }

  /** How a read of the client can return. */
  function ReadNow(s: Sys): int
    requires s.Bounded()
  {
    var n := |s.toClient| - s.clientRead;
    if n < 4 then n else 4
  }

  /** A move that is no failure, in a state that does not hang. */
  function GoOn(c: Client, f: Full): Move
    requires c.Valid() && f.s.Bounded() && (f.s.client.CWriting? ==> f.s.client.k < |Chunks(c)|)
  {
    if f.s.client.CWriting? then Base(ClientWrite(|Chunks(c)[f.s.client.k]|))
    else if f.s.server.phase.Reading() then Base(ServerRead(f.s.server.phase.Need(), true))
    else if f.s.server.phase.PAck? then Base(ServerAck(4))
    else if f.s.server.phase.PFork? then Base(ServerFork(true, 0))
    else if f.child.Forked? then ChildOpens
    else if f.child.Running? then ChildExits(0)
    else if f.s.server.phase.PWait? then Base(ServerReport(-1, 4))
    else if f.s.client.CAck? || f.pump.Ended? then Base(ClientRead(ReadNow(f.s)))
    else if f.shown < |f.output| then PumpCopies(|f.output| - f.shown)
    else PumpEnds
  }

  lemma GoesOn(c: Client, cred: Cred, f: Full)
    requires c.Valid() && FullInv(c, cred, f) && !f.s.ClientClosed() && !Hung(f)
    ensures f.s.Bounded() && (f.s.client.CWriting? ==> f.s.client.k < |Chunks(c)|)
    ensures Possible(c, f, GoOn(c, f)) && !Fails(GoOn(c, f))
  {
    hide Inv, Chunks, WithinLimits, Flat;
    InvBounds(c, cred, f.s);
    if !f.s.client.CWriting? && f.s.server.phase.Reading() {
      ReadIsReady(c, cred, f.s);
    }
  }

  /** Nothing moves a hung session but an error of the pump or the end of the client. */
  lemma HungWaits(c: Client, cred: Cred, f: Full, m: Move)
    requires c.Valid() && FullInv(c, cred, f) && f.s.Bounded() && Hung(f) && Possible(c, f, m)
    ensures m == PumpBreaks || m == Base(ClientDies)
  {
    hide Inv, Chunks, WithinLimits;
  }

  lemma BoundedInFull(c: Client, cred: Cred, f: Full)
    requires c.Valid() && FullInv(c, cred, f)
    ensures f.s.Bounded()
  {
    hide Inv, Chunks;
    InvBounds(c, cred, f.s);
  }

  /** In every run, as long as the client lives: nothing but a failure is possible exactly in the hung states. */
  lemma StuckIff(c: Client, cred: Cred, moves: seq<Move>, f: Full)
    requires c.Valid() && Runs(c, cred, OPENING, moves, f)
    ensures f.s.Bounded()
    ensures !f.s.ClientClosed() ==> ((forall m :: Possible(c, f, m) ==> Fails(m)) <==> Hung(f))
  {
    hide Runs, Inv, Possible, Hung, FullInv;
    OpeningInv(c, cred);
    MovesInv(c, cred, OPENING, moves, f);
    BoundedInFull(c, cred, f);
    if Hung(f) {
      forall m | Possible(c, f, m) ensures Fails(m) { HungWaits(c, cred, f, m); }
    } else if !f.s.ClientClosed() {
      GoesOn(c, cred, f);
    }
  }

  /** The pump has given up, or the client has failed: neither is ever undone. */
  predicate Broken(f: Full) {
    f.torn || f.s.client.CFailed?
  }

  lemma StaysBroken(c: Client, cred: Cred, f: Full, m: Move)
    requires c.Valid() && f.s.Bounded() && Possible(c, f, m) && Broken(f)
    ensures Broken(After(c, cred, f, m))
  {
    hide Chunks, GetNative, PutNative, Accept;
  }

  lemma {:induction false} BrokenForEver(c: Client, cred: Cred, from: Full, moves: seq<Move>, to: Full)
    requires c.Valid() && Broken(from) && Runs(c, cred, from, moves, to)
    ensures Broken(to)
    decreases |moves|
  {
    hide Possible, After, Sys.Bounded, Broken;
    if moves != [] {
      StaysBroken(c, cred, from, moves[0]);
      BrokenForEver(c, cred, After(c, cred, from, moves[0]), moves[1..], to);
    }
  }

  /** Whatever follows a hung state, the session stands still until the pump breaks or the client is killed; it never
      comes to the code by itself. */
  lemma HungForEver(c: Client, cred: Cred, moves: seq<Move>, f: Full, more: seq<Move>, g: Full)
    requires c.Valid() && Runs(c, cred, OPENING, moves, f) && Runs(c, cred, f, more, g)
    ensures Hung(f) ==> g == f || Broken(g)
  {
    hide FullInv, Hung;
    OpeningInv(c, cred);
    MovesInv(c, cred, OPENING, moves, f);
    if Hung(f) && more != [] {
      HungWaits(c, cred, f, more[0]);
      BrokenForEver(c, cred, After(c, cred, f, more[0]), more[1..], g);
    }
  }

  // ----- Some run hangs, exactly on a terminal -----

  /** A run that goes on behind another. */
  lemma {:induction false} RunsOn(c: Client, cred: Cred, from: Full, moves: seq<Move>, mid: Full, m: Move)
    requires c.Valid() && Runs(c, cred, from, moves, mid) && mid.s.Bounded() && Possible(c, mid, m)
    ensures Runs(c, cred, from, moves + [m], After(c, cred, mid, m))
    decreases |moves|
  {
    hide Possible, After, Sys.Bounded;
    if moves == [] {
      assert [] + [m] == [m] && [m][1..] == [];
    } else {
      RunsOn(c, cred, After(c, cred, from, moves[0]), moves[1..], mid, m);
      assert (moves + [m])[1..] == moves[1..] + [m];
    }
  }

  /** Within the limits, the daemon can be brought to its fork, with everything written and nothing acknowledged yet. */
  lemma {:induction false} CanFork(c: Client, cred: Cred, from: Full, before: seq<Move>)
    returns (moves: seq<Move>, f: Full)
    requires c.Valid() && WithinLimits(c) && Runs(c, cred, OPENING, before, from)
    requires Inv(c, cred, from.s) && Unfailed(from.s) && from.child.Unborn? && from.pump.Waiting?
    requires from.s.client.CWriting? || from.s.client.CAck?
    requires from.s.server.phase.Reading() || from.s.server.phase.PAck? || from.s.server.phase.PFork?
    ensures Runs(c, cred, OPENING, moves, f) && Inv(c, cred, f.s) && f.child.Unborn? && f.pump.Waiting?
    ensures f.s.client.CAck? && f.s.server.phase.PFork?
    decreases StepsLeft(c, from.s)
  {
    hide Inv, Chunks, WithinLimits, Unfailed, Next, Enabled, GoodStep, StepsLeft, Runs;
    StepsRemain(c, cred, from.s);
    if from.s.client.CAck? && from.s.server.phase.PFork? {
      moves, f := before, from;
    } else {
      GoodStepTaken(c, cred, from.s);
      StepCounts(c, cred, from.s, GoodStep(c, from.s));
      GoodStepKind(c, cred, from.s);
      var m := Base(GoodStep(c, from.s));
      RunsOn(c, cred, OPENING, before, from, m);
      moves, f := CanFork(c, cred, After(c, cred, from, m), before + [m]);
    }
  }

  /** Up to the fork, the good step writes, reads or acknowledges. */
  lemma GoodStepKind(c: Client, cred: Cred, s: Sys)
    requires c.Valid() && Inv(c, cred, s) && s.Bounded() && (s.client.CWriting? ==> s.client.k < |Chunks(c)|)
    requires s.client.CWriting? || s.client.CAck?
    requires s.server.phase.Reading() || s.server.phase.PAck? || (s.server.phase.PFork? && s.client.CWriting?)
    requires Enabled(c, s, GoodStep(c, s)) && Unfailed(Next(c, cred, s, GoodStep(c, s)))
    ensures var step, t := GoodStep(c, s), Next(c, cred, s, GoodStep(c, s));
            && !step.ClientRead? && !step.ServerFork? && !step.ServerReport?
            && (t.client.CWriting? || t.client.CAck?)
            && (t.server.phase.Reading() || t.server.phase.PAck? || t.server.phase.PFork?)
  {
    hide Inv, Chunks, GetNative, PutNative, Accept;
    if GoodStep(c, s).ServerRead? { ReadPhases(c, cred, s, GoodStep(c, s)); }
  }

  /** The fork fails, the client reads the acknowledgement and starts its pump. */
  lemma ForkFails(c: Client, cred: Cred, moves: seq<Move>, f: Full) returns (all: seq<Move>, hung: Full)
    requires c.Valid() && c.stdout == Tty && Runs(c, cred, OPENING, moves, f) && Inv(c, cred, f.s)
    requires f.child.Unborn? && f.pump.Waiting? && f.s.client.CAck? && f.s.server.phase.PFork?
    ensures Runs(c, cred, OPENING, all, hung) && Hung(hung)
  {
    hide Chunks, Expected, OverAt, Flat, PutNative, GetNative, Runs;
    var m1 := Base(ServerFork(false, 4));
    RunsOn(c, cred, OPENING, moves, f, m1);
    var g := After(c, cred, f, m1);
    var m2 := Base(ClientRead(4));
    assert g.s.Bounded() && Possible(c, g, m2);
    RunsOn(c, cred, OPENING, moves + [m1], g, m2);
    all, hung := moves + [m1] + [m2], After(c, cred, g, m2);
  }

  /** Some run gets the client to wait for ever if and only if its output is a terminal and the daemon takes what it
      sends. */
  lemma HangsIff(c: Client, cred: Cred)
    requires c.Valid()
    ensures (exists moves, f :: Runs(c, cred, OPENING, moves, f) && Hung(f)) <==> c.stdout == Tty && WithinLimits(c)
  {
    hide Runs, Inv, WithinLimits;
    OpeningInv(c, cred);
    forall moves, f | Runs(c, cred, OPENING, moves, f) && Hung(f)
      ensures c.stdout == Tty && WithinLimits(c)
    {
      MovesInv(c, cred, OPENING, moves, f);
      InvBounds(c, cred, f.s);
    }
    if c.stdout == Tty && WithinLimits(c) {
      RunsItself(c, cred, OPENING);
      var moves, f := CanFork(c, cred, OPENING, []);
      var all, hung := ForkFails(c, cred, moves, f);
      assert Runs(c, cred, OPENING, all, hung) && Hung(hung);
    }
  }

  lemma RunsItself(c: Client, cred: Cred, f: Full)
    requires c.Valid()
    ensures Runs(c, cred, f, [], f)
  {
  }

  // ----- How long runs are -----

  function Writes(moves: seq<Move>): nat {
    if moves == [] then 0 else (if moves[0].ChildWrites? then 1 else 0) + Writes(moves[1..])
  }

  function ChildLeft(ch: Child): nat {
    match ch
    case Unborn => 2
    case Forked => 2
    case Running => 1
    case Exited(_, _) => 0
  }

  /** What is left of a run apart from the child's writes and from showing them. */
  function MovesLeft(c: Client, f: Full): int {
    StepsLeft(c, f.s) + ChildLeft(f.child) + if f.pump.Ended? then 0 else 1
  }

  lemma MoveCounts(c: Client, cred: Cred, f: Full, m: Move)
    requires c.Valid() && FullInv(c, cred, f) && f.s.Bounded() && Possible(c, f, m)
    ensures var g := After(c, cred, f, m);
            if m.ChildWrites? then MovesLeft(c, g) == MovesLeft(c, f) && g.shown == f.shown
            else if m.PumpCopies? then MovesLeft(c, g) == MovesLeft(c, f) && g.shown > f.shown
            else MovesLeft(c, g) < MovesLeft(c, f) && g.shown == f.shown
    ensures MovesLeft(c, f) >= 0
  {
    hide Inv, Enabled, Next, WithinLimits, StepsLeft;
    StepsRemain(c, cred, f.s);
    if m.Base? {
      StepCounts(c, cred, f.s, m.step);
      if m.step.ServerFork? { ForksOnce(c, f, m.step); }
    }
  }

  lemma ForksOnce(c: Client, f: Full, step: Step)
    requires c.Valid() && f.s.Bounded() && ChildInv(c, f) && Enabled(c, f.s, step) && step.ServerFork?
    ensures f.child.Unborn?
  {
    hide WithinLimits, Chunks;
  }

  /** No run is longer than its session, the child's writes, and one move for each byte shown, and three more. */
  lemma {:induction false} RunLength(c: Client, cred: Cred, from: Full, moves: seq<Move>, to: Full)
    requires c.Valid() && FullInv(c, cred, from) && Runs(c, cred, from, moves, to)
    ensures |moves| <= MovesLeft(c, from) + Writes(moves) + (to.shown - from.shown) && from.shown <= to.shown
    decreases |moves|
  {
    hide FullInv, Possible, After, MovesLeft;
    if moves == [] {
      LeftIsNat(c, cred, from);
    } else {
      MoveInv(c, cred, from, moves[0]);
      MoveCounts(c, cred, from, moves[0]);
      RunLength(c, cred, After(c, cred, from, moves[0]), moves[1..], to);
    }
  }

  lemma LeftIsNat(c: Client, cred: Cred, f: Full)
    requires c.Valid() && FullInv(c, cred, f)
    ensures MovesLeft(c, f) >= 0
  {
    hide Inv, WithinLimits, StepsLeft;
    StepsRemain(c, cred, f.s);
  }

  lemma EveryTerminalRunEnds(c: Client, cred: Cred, moves: seq<Move>, f: Full)
    requires c.Valid() && Runs(c, cred, OPENING, moves, f)
    ensures |moves| <= 28 + 4 * |c.SentArgs()| + Writes(moves) + |f.output|
  {
    hide Runs, Inv, WithinLimits;
    OpeningInv(c, cred);
    MovesInv(c, cred, OPENING, moves, f);
    RunLength(c, cred, OPENING, moves, f);
  }
}
