/** Client and daemon side by side: every interleaving of their steps over the two streams, and what every run keeps. */
module Protocol {
  import opened CText
  import opened Decimal
  import opened Daemon
  import opened Session

  // ----- Steps -----

  datatype ClientPhase = CWriting(k: nat) | CAck | CCode | CDone(code: int) | CFailed

  /** A session in progress. A stream is all that was written to it and how much of that was read. `inputs` counts the
      daemon's complete reads. */
  datatype Sys = Sys(client: ClientPhase, server: Server, toServer: seq<Cell>, serverRead: nat, inputs: nat,
                     toClient: string, clientRead: nat, code: int)
  {
    predicate ClientClosed() {
      client.CDone? || client.CFailed?
    }

    predicate ServerClosed() {
      server.phase.PDone? || server.phase.PFailed?
    }

    predicate Bounded() {
      serverRead <= |toServer| && clientRead <= |toClient|
    }
  }

  const FRESH := Sys(CWriting(0), STARTED, [], 0, 0, "", 0, 0)

  /** A system call with the number of bytes it moves, -1 for an error; or a process ending by itself. */
  datatype Step =
    | ClientWrite(n: int)
    | ClientRead(n: int)
    | ClientDies
    | ServerRead(n: int, peerKnown: bool)
    | ServerAck(n: int)
    | ServerFork(ok: bool, n: int)
    | ServerReport(code: int, n: int)
    | ServerDies

  /** How a blocking read of `need` bytes may return: with some of what is there, at the end of the stream, or with an
      error. */
  predicate ReadReturns(n: int, need: nat, available: nat, closed: bool) {
    n == -1 || (need == 0 && n == 0) || (1 <= n <= need && n <= available) || (n == 0 && available == 0 && closed)
  }

  predicate Enabled(c: Client, s: Sys, step: Step)
    requires c.Valid() && s.Bounded()
  {
    match step
    case ClientWrite(n) => s.client.CWriting? && s.client.k < |Chunks(c)| && -1 <= n <= |Chunks(c)[s.client.k]|
    case ClientRead(n) =>
      (s.client.CAck? || s.client.CCode?) && ReadReturns(n, 4, |s.toClient| - s.clientRead, s.ServerClosed())
    case ClientDies => !s.ClientClosed()
    case ServerRead(n, _) =>
      s.server.phase.Reading()
      && ReadReturns(n, s.server.phase.Need(), |s.toServer| - s.serverRead, s.ClientClosed())
    case ServerAck(n) => s.server.phase.PAck? && -1 <= n <= 4
    case ServerFork(_, n) => s.server.phase.PFork? && -1 <= n <= 4
    case ServerReport(code, n) => s.server.phase.PWait? && -1 <= code < 256 && -1 <= n <= 4
    case ServerDies => !s.ServerClosed()
  }

  function Sent<T>(s: seq<T>, n: int): seq<T>
    requires n <= |s|
  {
    if n < 0 then [] else s[..n]
  }

  const ACK := PutNative(1)

  /** The last thing the daemon does: writing a code, however much of it goes out. */
  function Report(s: Sys, code: int, n: int): Sys
    requires IsInt32(code) && n <= 4
  {
    s.(server := s.server.(phase := PDone), toClient := s.toClient + Sent(PutNative(code), n), code := code)
  }

  function Next(c: Client, cred: Cred, s: Sys, step: Step): Sys
    requires c.Valid() && s.Bounded() && Enabled(c, s, step)
  {
    match step
    case ClientWrite(n) =>
      var chunk := Chunks(c)[s.client.k];
      s.(toServer := s.toServer + Sent(chunk, n),
         client := if n != |chunk| then CFailed else if s.client.k + 1 == |Chunks(c)| then CAck
                   else CWriting(s.client.k + 1))
    case ClientRead(n) =>
      if n != 4 then s.(client := CFailed)
      else
        var bytes := s.toClient[s.clientRead..s.clientRead + 4];
        s.(clientRead := s.clientRead + 4, client := if s.client.CAck? then CCode else CDone(GetNative(bytes)))
    case ClientDies => s.(client := CFailed)
    case ServerRead(n, peerKnown) =>
      if n != s.server.phase.Need() || (s.server.phase.PPpid? && !peerKnown)
      then s.(server := s.server.(phase := PFailed))
      else
        s.(server := Accept(s.server, s.toServer[s.serverRead..s.serverRead + n], cred),
           serverRead := s.serverRead + n, inputs := s.inputs + 1)
    case ServerAck(n) =>
      s.(toClient := s.toClient + Sent(ACK, n), server := s.server.(phase := if n == 4 then PFork else PFailed))
    case ServerFork(ok, n) =>
      if ok then s.(server := s.server.(phase := PWait)) else Report(s, -1, n)
    case ServerReport(code, n) => Report(s, code, n)
    case ServerDies => s.(server := s.server.(phase := PFailed))
  }

  /** Every run of the two processes. */
  ghost predicate Reaches(c: Client, cred: Cred, from: Sys, steps: seq<Step>, to: Sys)
    requires c.Valid()
    decreases |steps|
  {
    if steps == [] then from == to
    else from.Bounded() && Enabled(c, from, steps[0]) && Reaches(c, cred, Next(c, cred, from, steps[0]), steps[1..], to)
  }

  // ----- The stream as the concatenation of the writes -----

  function Flat(chunks: seq<seq<Cell>>): seq<Cell> {
    if chunks == [] then [] else Flat(chunks[..|chunks| - 1]) + chunks[|chunks| - 1]
  }

  lemma FlatStep(chunks: seq<seq<Cell>>, k: nat)
    requires k < |chunks|
    ensures Flat(chunks[..k + 1]) == Flat(chunks[..k]) + chunks[k]
  {
    assert chunks[..k + 1][..k] == chunks[..k];
  }

  lemma {:induction false} FlatPrefix(chunks: seq<seq<Cell>>, k: nat, m: nat)
    requires k <= m <= |chunks|
    ensures Flat(chunks[..k]) <= Flat(chunks[..m])
  {
    if k < m {
      FlatPrefix(chunks, k, m - 1);
      FlatStep(chunks, m - 1);
    }
  }

  /** What lies behind the first `k` writes is write `k`. */
  lemma FlatAt(chunks: seq<seq<Cell>>, k: nat, out: seq<Cell>, from: nat)
    requires k < |chunks| && from == |Flat(chunks[..k])| && out <= Flat(chunks[..|chunks|])
    requires from + |chunks[k]| <= |out|
    ensures out[from..from + |chunks[k]|] == chunks[k]
    ensures |Flat(chunks[..k + 1])| == from + |chunks[k]|
  {
    FlatStep(chunks, k);
    FlatPrefix(chunks, k + 1, |chunks|);
    var all := Flat(chunks[..|chunks|]);
    var upTo := Flat(chunks[..k + 1]);
    assert all[..|upTo|] == upTo;
    assert out[from..from + |chunks[k]|] == all[from..from + |chunks[k]|] == upTo[from..];
  }

  // ----- The invariant -----

  predicate ClientInv(c: Client, s: Sys)
    requires c.Valid()
  {
    var all := Flat(Chunks(c)[..|Chunks(c)|]);
    && s.toServer <= all
    && (match s.client
        case CWriting(k) => k < |Chunks(c)| && s.toServer == Flat(Chunks(c)[..k]) && s.clientRead == 0
        case CAck => s.toServer == all && s.clientRead == 0
        case CCode => s.toServer == all && s.clientRead == 4
        case CDone(r) => s.toServer == all && s.clientRead == 8 && r == s.code
        case CFailed => true)
  }

  predicate ServerInv(c: Client, cred: Cred, s: Sys)
    requires c.Valid()
  {
    var n := Reads(c);
    var d := s.server;
    && s.serverRead <= |s.toServer| && s.inputs <= n
    && (!d.phase.PFailed? ==>
          && s.serverRead == |Flat(Chunks(c)[..s.inputs])|
          && (forall j :: 0 <= j < s.inputs ==> !OverAt(c, j))
          && (if d.phase.Reading() then s.inputs < n && d == Expected(c, cred, s.inputs)
              else s.inputs == n && d == Expected(c, cred, n).(phase := d.phase)))
  }

  predicate AnswerInv(s: Sys) {
    && IsInt32(s.code) && s.clientRead <= |s.toClient|
    && (match s.server.phase
        case PFailed => s.toClient <= ACK
        case PDone => ACK <= s.toClient <= ACK + PutNative(s.code)
        case PFork => s.toClient == ACK
        case PWait => s.toClient == ACK
        case _ => s.toClient == "")
  }

  predicate Inv(c: Client, cred: Cred, s: Sys)
    requires c.Valid()
  {
    ClientInv(c, s) && ServerInv(c, cred, s) && AnswerInv(s)
  }

  lemma ExpectedAtFirst(c: Client, cred: Cred)
    requires c.Valid()
    ensures Expected(c, cred, 0) == STARTED
  {
    assert TakenArgs(c)[..0] == [];
  }

  lemma FreshInv(c: Client, cred: Cred)
    requires c.Valid()
    ensures Inv(c, cred, FRESH)
  {
    hide Chunks, Expected, OverAt, PutNative, GetNative;
    ExpectedAtFirst(c, cred);
    assert Chunks(c)[..0] == [];
  }

  lemma ClientWriteInv(c: Client, cred: Cred, s: Sys, n: int)
    requires c.Valid() && Inv(c, cred, s) && Enabled(c, s, ClientWrite(n))
    ensures Inv(c, cred, Next(c, cred, s, ClientWrite(n)))
  {
    hide Chunks, Expected, OverAt, PutNative, Flat;
    var chunks := Chunks(c);
    var k := s.client.k;
    FlatStep(chunks, k);
    FlatPrefix(chunks, k + 1, |chunks|);
    assert Sent(chunks[k], n) <= chunks[k];
    if n == |chunks[k]| {
      assert Sent(chunks[k], n) == chunks[k];
    }
  }

  lemma ClientReadInv(c: Client, cred: Cred, s: Sys, n: int)
    requires c.Valid() && Inv(c, cred, s) && Enabled(c, s, ClientRead(n))
    ensures Inv(c, cred, Next(c, cred, s, ClientRead(n)))
  {
    hide Chunks, Expected, OverAt, PutNative, GetNative, Flat;
    if n == 4 && s.client.CCode? {
      assert s.toClient == ACK + PutNative(s.code);
      assert s.toClient[4..8] == PutNative(s.code);
      NativeInverts(s.code);
    }
  }

  lemma ReadingIff(c: Client, cred: Cred, j: nat)
    requires c.Valid() && j <= Reads(c)
    ensures Expected(c, cred, j).phase.Reading() <==> j < Reads(c)
    ensures j == Reads(c) ==> Expected(c, cred, j).phase == PAck
  {
    hide Accept, Expected;
    if j < Reads(c) {
      AcceptsNext(c, cred, j);
    } else {
      ExpectedArgs(c, cred, |TakenArgs(c)|);
    }
  }

  lemma ServerReadInv(c: Client, cred: Cred, s: Sys, n: int, peerKnown: bool)
    requires c.Valid() && Inv(c, cred, s) && Enabled(c, s, ServerRead(n, peerKnown))
    ensures Inv(c, cred, Next(c, cred, s, ServerRead(n, peerKnown)))
  {
    hide Chunks, Expected, OverAt, PutNative, Flat, Accept;
    var j := s.inputs;
    AcceptsNext(c, cred, j);
    if n == s.server.phase.Need() {
      FlatAt(Chunks(c), j, s.toServer, s.serverRead);
      ReadingIff(c, cred, j + 1);
    }
  }

  lemma ServerAckInv(c: Client, cred: Cred, s: Sys, step: Step)
    requires c.Valid() && Inv(c, cred, s) && Enabled(c, s, step)
    requires step.ServerAck? || step.ServerDies? || step.ClientDies?
    ensures Inv(c, cred, Next(c, cred, s, step))
  {
    hide Chunks, Expected, OverAt, PutNative, Flat;
  }

  lemma ServerWriteInv(c: Client, cred: Cred, s: Sys, step: Step)
    requires c.Valid() && Inv(c, cred, s) && Enabled(c, s, step)
    requires step.ServerFork? || step.ServerReport?
    ensures Inv(c, cred, Next(c, cred, s, step))
  {
    hide Chunks, Expected, OverAt, PutNative, Flat;
  }

  lemma StepInv(c: Client, cred: Cred, s: Sys, step: Step)
    requires c.Valid() && Inv(c, cred, s) && Enabled(c, s, step)
    ensures Inv(c, cred, Next(c, cred, s, step))
  {
    hide *;
    match step
    case ClientWrite(n) => ClientWriteInv(c, cred, s, n);
    case ClientRead(n) => ClientReadInv(c, cred, s, n);
    case ServerRead(n, peerKnown) => ServerReadInv(c, cred, s, n, peerKnown);
    case ServerFork(_, _) => ServerWriteInv(c, cred, s, step);
    case ServerReport(_, _) => ServerWriteInv(c, cred, s, step);
    case _ => ServerAckInv(c, cred, s, step);
  }

  lemma {:induction false} RunInv(c: Client, cred: Cred, from: Sys, steps: seq<Step>, to: Sys)
    requires c.Valid() && Inv(c, cred, from) && Reaches(c, cred, from, steps, to)
    ensures Inv(c, cred, to)
    decreases |steps|
  {
    hide Inv, Next, Enabled;
    if steps != [] {
      StepInv(c, cred, from, steps[0]);
      RunInv(c, cred, Next(c, cred, from, steps[0]), steps[1..], to);
    }
  }

  // ----- Safety over every run -----

  /** The daemon has read everything and not failed. */
  predicate Acknowledging(s: Sys) {
    !s.server.phase.Reading() && !s.server.phase.PFailed?
  }

  /** The daemon holds what was sent, under the identity it can trust. */
  predicate Received(c: Client, cred: Cred, d: Server) {
    && d.pts == c.pts && d.mount == c.mount
    && d.infd == FdOf(c.stdin) && d.outfd == FdOf(c.stdout) && d.errfd == FdOf(c.stderr)
    && d.args == TakenArgs(c) && d.argc == |d.args|
    && (d.fromUid, d.fromPid, d.pid)
       == (if cred.uid != 0 then (cred.uid, cred.pid, cred.pid) else (c.uid, c.ppid, c.pid))
  }

  lemma ExpectedAll(c: Client, cred: Cred)
    requires c.Valid()
    ensures WithinLimits(c) ==> Received(c, cred, Expected(c, cred, Reads(c)))
  {
    hide Chunks, TakenArgs, Client.Valid;
    ExpectedArgs(c, cred, |TakenArgs(c)|);
  }

  lemma NeverOver(c: Client)
    requires c.Valid()
    ensures (forall j :: 0 <= j < Reads(c) ==> !OverAt(c, j)) <==> WithinLimits(c)
  {
    hide Chunks, TakenArgs, Client.Valid, Client.Announced, WithinLimits, OverAt, Reads;
    if forall j :: 0 <= j < Reads(c) ==> !OverAt(c, j) {
      NotOverMeansWithin(c);
    }
    if WithinLimits(c) {
      forall j | 0 <= j < Reads(c) ensures !OverAt(c, j) { WithinMeansNotOver(c, j); }
    }
  }

  lemma NotOverMeansWithin(c: Client)
    requires forall j :: 0 <= j < Reads(c) ==> !OverAt(c, j)
    ensures WithinLimits(c)
  {
    hide TakenArgs, Client.Announced;
    var args := TakenArgs(c);
    assert !OverAt(c, 1) && !OverAt(c, 9);
    forall i | 0 <= i < |args| ensures |args[i]| <= PATH_MAX {
      assert !OverAt(c, 10 + 2 * i);
    }
  }

  lemma WithinMeansNotOver(c: Client, j: nat)
    requires WithinLimits(c) && j < Reads(c)
    ensures !OverAt(c, j)
  {
    hide TakenArgs, Client.Announced;
  }

  /** The client's writes, read one by one by daemon_accept: it acknowledges exactly when no limit is exceeded, knowing
      exactly what was sent. */
  lemma WritesInvert(c: Client, cred: Cred)
    requires c.Valid()
    ensures var d := Served(STARTED, Chunks(c), cred, true);
            && (d.phase == PAck <==> WithinLimits(c))
            && (d.phase == PAck ==> Received(c, cred, d))
  {
    hide Chunks, Served, OverAt, WithinLimits;
    assert Chunks(c)[0..] == Chunks(c);
    ExpectedAtFirst(c, cred);
    ServedFrom(c, cred, 0);
    ExpectedAll(c, cred);
    NeverOver(c);
  }

  lemma AcknowledgedWithin(c: Client, cred: Cred, s: Sys)
    requires c.Valid() && Inv(c, cred, s) && Acknowledging(s)
    ensures Received(c, cred, s.server) && WithinLimits(c)
  {
    hide Chunks, Expected, OverAt, PutNative, Flat, WithinLimits;
    ExpectedAll(c, cred);
    NeverOver(c);
  }

  /** In every run: a daemon that got past its reads has exactly what the client sent, all of it within the limits; a
      client that ends with a code ends with the one the daemon wrote. */
  lemma SessionSafety(c: Client, cred: Cred, steps: seq<Step>, s: Sys)
    requires c.Valid() && Reaches(c, cred, FRESH, steps, s)
    ensures Acknowledging(s) ==> Received(c, cred, s.server) && WithinLimits(c)
    ensures s.client.CDone? ==> s.server.phase.PDone? && s.client.code == s.code
  {
    hide Reaches, Chunks, Expected, OverAt, PutNative, Flat, WithinLimits, Received;
    FreshInv(c, cred);
    RunInv(c, cred, FRESH, steps, s);
    if Acknowledging(s) { AcknowledgedWithin(c, cred, s); }
  }

  // ----- Where the code comes from -----

  /** The step in which the daemon wrote this code: the child's, or -1 after a failed fork. */
  predicate Wrote(step: Step, code: int) {
    match step
    case ServerReport(r, _) => r == code
    case ServerFork(ok, _) => !ok && code == -1
    case _ => false
  }

  ghost predicate WrittenIn(steps: seq<Step>, code: int) {
    exists k: nat :: k < |steps| && Wrote(steps[k], code)
  }

  lemma StepWrites(c: Client, cred: Cred, s: Sys, step: Step)
    requires c.Valid() && s.Bounded() && Enabled(c, s, step)
    ensures var t := Next(c, cred, s, step);
            && (Wrote(step, t.code) || t.code == s.code)
            && (t.server.phase.PDone? && !s.server.phase.PDone? ==> Wrote(step, t.code))
            && (s.server.phase.PDone? ==> t.code == s.code && t.server.phase.PDone?)
  {
    hide Chunks, GetNative, PutNative;
    if step.ServerRead? { ReadKeepsCode(c, cred, s, step); }
  }

  lemma ReadKeepsCode(c: Client, cred: Cred, s: Sys, step: Step)
    requires c.Valid() && s.Bounded() && Enabled(c, s, step) && step.ServerRead?
    ensures var t := Next(c, cred, s, step); t.code == s.code && !t.server.phase.PDone?
  {
    hide Chunks, GetNative, BytesOf;
  }

  lemma {:induction false} DoneWrote(c: Client, cred: Cred, from: Sys, steps: seq<Step>, to: Sys)
    requires c.Valid() && Reaches(c, cred, from, steps, to)
    ensures from.server.phase.PDone? ==> to.server.phase.PDone? && to.code == from.code
    ensures !from.server.phase.PDone? && to.server.phase.PDone? ==> WrittenIn(steps, to.code)
    decreases |steps|
  {
    hide Enabled, Next, Sys.Bounded, Wrote;
    if steps != [] {
      StepWrites(c, cred, from, steps[0]);
      var mid := Next(c, cred, from, steps[0]);
      DoneWrote(c, cred, mid, steps[1..], to);
      if !from.server.phase.PDone? && to.server.phase.PDone? {
        if mid.server.phase.PDone? {
          assert Wrote(steps[0], to.code);
        } else {
          var k: nat :| k < |steps[1..]| && Wrote(steps[1..][k], to.code);
          assert Wrote(steps[k + 1], to.code);
        }
      }
    }
  }

  /** In every run, a client that ends with a code ends with one that the daemon wrote in a step of the run; and the
      arguments that the daemon holds are the client's, without element 1 under the mount flag. */
  lemma SessionMeaning(c: Client, cred: Cred, steps: seq<Step>, s: Sys)
    requires c.Valid() && Reaches(c, cred, FRESH, steps, s)
    ensures s.client.CDone? ==> WrittenIn(steps, s.client.code)
    ensures Acknowledging(s) && !c.mount ==> s.server.args == c.argv
    ensures Acknowledging(s) && c.mount && |c.argv| >= 2 ==>
              && |s.server.args| == |c.argv| - 1 && s.server.args[0] == c.argv[0]
              && forall i :: 2 <= i < |c.argv| ==> s.server.args[i - 1] == c.argv[i]
  {
    hide Reaches, WithinLimits, WrittenIn, Client.SentArgs, TakenArgs;
    SessionSafety(c, cred, steps, s);
    DoneWrote(c, cred, FRESH, steps, s);
    SentElements(c);
    TakenIsSentIff(c);
  }

  /** What the daemon takes is what was sent, unless the mount flag comes with a single argument. */
  lemma TakenIsSentIff(c: Client)
    ensures TakenArgs(c) == c.SentArgs() <==> !(c.mount && |c.argv| == 1)
  {
  }

  // ----- Liveness -----

  predicate ClientWaits(s: Sys)
    requires s.Bounded()
  {
    (s.client.CAck? || s.client.CCode?) && s.clientRead == |s.toClient| && !s.ServerClosed()
  }

  predicate ServerWaits(s: Sys)
    requires s.Bounded()
  {
    s.server.phase.Reading() && s.server.phase.Need() > 0 && s.serverRead == |s.toServer| && !s.ClientClosed()
  }

  /** When the client has written everything, the whole of the daemon's next read is there. */
  lemma ReadIsReady(c: Client, cred: Cred, s: Sys)
    requires c.Valid() && Inv(c, cred, s) && s.server.phase.Reading()
    requires s.toServer == Flat(Chunks(c)[..|Chunks(c)|])
    ensures |s.toServer| >= s.serverRead + s.server.phase.Need()
  {
    hide Chunks, Expected, OverAt, PutNative, Flat, Accept;
    AcceptsNext(c, cred, s.inputs);
    FlatStep(Chunks(c), s.inputs);
    FlatPrefix(Chunks(c), s.inputs + 1, |Chunks(c)|);
  }

  /** No run gets to where each side waits for the other. */
  lemma NoDeadlock(c: Client, cred: Cred, steps: seq<Step>, s: Sys)
    requires c.Valid() && Reaches(c, cred, FRESH, steps, s)
    ensures s.Bounded() && !(ClientWaits(s) && ServerWaits(s))
  {
    hide Reaches, Chunks, Expected, OverAt, PutNative, Flat;
    FreshInv(c, cred);
    RunInv(c, cred, FRESH, steps, s);
    if ClientWaits(s) && ServerWaits(s) {
      ReadIsReady(c, cred, s);
    }
  }

  function ClientLeft(c: Client, p: ClientPhase): int {
    match p
    case CWriting(k) => 12 + 2 * |c.SentArgs()| - k
    case CAck => 2
    case CCode => 1
    case _ => 0
  }

  function ServerLeft(c: Client, p: Phase, inputs: nat): int {
    match p
    case PAck => 3
    case PFork => 2
    case PWait => 1
    case PDone => 0
    case PFailed => 0
    case _ => 13 + 2 * |c.SentArgs()| - inputs
  }

  /** At most this many steps are left. */
  function StepsLeft(c: Client, s: Sys): int {
    ClientLeft(c, s.client) + ServerLeft(c, s.server.phase, s.inputs)
  }

  lemma ReadCounts(c: Client, cred: Cred, s: Sys, step: Step)
    requires c.Valid() && Inv(c, cred, s) && Enabled(c, s, step) && step.ServerRead?
    ensures StepsLeft(c, Next(c, cred, s, step)) < StepsLeft(c, s)
  {
    hide Chunks, Expected, OverAt, Flat, Accept, ClientInv;
    StepInv(c, cred, s, step);
  }

  lemma OtherCounts(c: Client, cred: Cred, s: Sys, step: Step)
    requires c.Valid() && Inv(c, cred, s) && Enabled(c, s, step) && !step.ServerRead?
    ensures StepsLeft(c, Next(c, cred, s, step)) < StepsLeft(c, s)
  {
    hide Chunks, Expected, OverAt, Flat, PutNative, GetNative;
    StepInv(c, cred, s, step);
  }

  lemma StepCounts(c: Client, cred: Cred, s: Sys, step: Step)
    requires c.Valid() && Inv(c, cred, s) && Enabled(c, s, step)
    ensures Inv(c, cred, Next(c, cred, s, step))
    ensures StepsLeft(c, Next(c, cred, s, step)) < StepsLeft(c, s)
  {
    hide Inv, Next, Enabled, StepsLeft;
    StepInv(c, cred, s, step);
    if step.ServerRead? { ReadCounts(c, cred, s, step); } else { OtherCounts(c, cred, s, step); }
  }

  lemma StepsRemain(c: Client, cred: Cred, s: Sys)
    requires c.Valid() && Inv(c, cred, s)
    ensures StepsLeft(c, s) >= 0
  {
    hide Chunks, Expected, OverAt, PutNative, Flat;
  }

  lemma {:induction false} RunCounts(c: Client, cred: Cred, from: Sys, steps: seq<Step>, to: Sys)
    requires c.Valid() && Inv(c, cred, from) && Reaches(c, cred, from, steps, to)
    ensures |steps| <= StepsLeft(c, from)
    decreases |steps|
  {
    hide Chunks, Expected, OverAt, PutNative, GetNative, Flat, Next, Enabled, StepsLeft;
    StepsRemain(c, cred, from);
    if steps != [] {
      StepCounts(c, cred, from, steps[0]);
      RunCounts(c, cred, Next(c, cred, from, steps[0]), steps[1..], to);
    }
  }

  /** Every session ends: no run is longer than this. */
  lemma EveryRunEnds(c: Client, cred: Cred, steps: seq<Step>, s: Sys)
    requires c.Valid() && Reaches(c, cred, FRESH, steps, s)
    ensures |steps| <= 25 + 4 * |c.SentArgs()|
  {
    hide Reaches, Expected, Flat;
    FreshInv(c, cred);
    RunCounts(c, cred, FRESH, steps, s);
  }

  /** Nothing has gone wrong so far. */
  predicate Unfailed(s: Sys) {
    && !s.client.CFailed? && !s.server.phase.PFailed?
    && (s.server.phase.PDone? ==> |s.toClient| == 8)
  }

  /** The next step of a session in which every call succeeds. */
  function GoodStep(c: Client, s: Sys): Step
    requires c.Valid() && (s.client.CWriting? ==> s.client.k < |Chunks(c)|)
  {
    if s.client.CWriting? then ClientWrite(|Chunks(c)[s.client.k]|)
    else match s.server.phase
         case PAck => ServerAck(4)
         case PFork => ServerFork(true, 0)
         case PWait => ServerReport(0, 4)
         case PDone => ClientRead(4)
         case _ => ServerRead(s.server.phase.Need(), true)
  }

  lemma GoodRead(c: Client, cred: Cred, s: Sys)
    requires c.Valid() && WithinLimits(c) && Inv(c, cred, s) && Unfailed(s)
    requires s.server.phase.Reading() && s.toServer == Flat(Chunks(c)[..|Chunks(c)|])
    ensures var step := ServerRead(s.server.phase.Need(), true);
            Enabled(c, s, step) && Unfailed(Next(c, cred, s, step))
  {
    hide Chunks, Expected, OverAt, PutNative, Flat, Accept, WithinLimits;
    ReadIsReady(c, cred, s);
    NeverOver(c);
    AcceptsNext(c, cred, s.inputs);
    FlatAt(Chunks(c), s.inputs, s.toServer, s.serverRead);
    ReadingIff(c, cred, s.inputs + 1);
  }

  lemma GoodStepTaken(c: Client, cred: Cred, s: Sys)
    requires c.Valid() && WithinLimits(c) && Inv(c, cred, s) && Unfailed(s) && !s.client.CDone?
    ensures s.Bounded() && (s.client.CWriting? ==> s.client.k < |Chunks(c)|)
    ensures Enabled(c, s, GoodStep(c, s)) && Unfailed(Next(c, cred, s, GoodStep(c, s)))
  {
    hide Chunks, Expected, OverAt, PutNative, GetNative, Flat, Accept, WithinLimits;
    if !s.client.CWriting? && s.server.phase.Reading() {
      GoodRead(c, cred, s);
    }
  }

  /** Within the limits, whatever has happened short of a failure, the session can still be finished. */
  lemma {:induction false} CanFinish(c: Client, cred: Cred, s: Sys) returns (steps: seq<Step>, to: Sys)
    requires c.Valid() && WithinLimits(c) && Inv(c, cred, s) && Unfailed(s)
    ensures Reaches(c, cred, s, steps, to) && to.client.CDone?
    decreases StepsLeft(c, s)
  {
    hide Inv, Chunks, WithinLimits, Unfailed, Next, Enabled, GoodStep, StepsLeft;
    StepsRemain(c, cred, s);
    if s.client.CDone? {
      steps, to := [], s;
    } else {
      GoodStepTaken(c, cred, s);
      StepCounts(c, cred, s, GoodStep(c, s));
      steps, to := CanFinish(c, cred, Next(c, cred, s, GoodStep(c, s)));
      steps := [GoodStep(c, s)] + steps;
    }
  }

  /** Beyond the limits no session finishes; within them every unfailed one can. */
  lemma FinishesIff(c: Client, cred: Cred)
    requires c.Valid()
    ensures WithinLimits(c) <==> exists steps, s :: Reaches(c, cred, FRESH, steps, s) && s.client.CDone?
  {
    hide Inv, Chunks, WithinLimits, Next, Enabled, Reaches;
    if WithinLimits(c) {
      FreshInv(c, cred);
      var steps, s := CanFinish(c, cred, FRESH);
      assert Reaches(c, cred, FRESH, steps, s) && s.client.CDone?;
    }
    forall steps, s | Reaches(c, cred, FRESH, steps, s) && s.client.CDone? ensures WithinLimits(c) {
      SessionSafety(c, cred, steps, s);
    }
  }

  // ----- The mount flag without an element 1 -----

  /** For every client: an acknowledging daemon always holds the arguments sent, if and only if the mount flag does not
      come with a single argument or some limit is exceeded, and then no daemon acknowledges. */
  lemma ArgsArriveIff(c: Client, cred: Cred)
    requires c.Valid()
    ensures (forall steps, s :: Reaches(c, cred, FRESH, steps, s) && Acknowledging(s) ==> s.server.args == c.SentArgs())
            <==> !(c.mount && |c.argv| == 1) || !WithinLimits(c)
  {
    hide Inv, Chunks, WithinLimits, Next, Enabled, Reaches, TakenArgs, Client.SentArgs;
    TakenIsSentIff(c);
    forall steps, s | Reaches(c, cred, FRESH, steps, s) && Acknowledging(s)
      ensures s.server.args == TakenArgs(c) && WithinLimits(c)
    {
      SessionSafety(c, cred, steps, s);
    }
    if WithinLimits(c) {
      FreshInv(c, cred);
      var steps, s := CanFinish(c, cred, FRESH);
      SessionSafety(c, cred, steps, s);
      assert Acknowledging(s);
    }
  }

  /** With the mount flag and no argument at all, -1 is announced and no session finishes. */
  lemma NothingToSkip(c: Client, cred: Cred, steps: seq<Step>, s: Sys)
    requires c.Valid() && c.mount && c.argv == [] && Reaches(c, cred, FRESH, steps, s)
    ensures !Acknowledging(s) && !s.client.CDone?
  {
    hide Reaches, Client.Valid;
    SessionSafety(c, cred, steps, s);
  }
}
