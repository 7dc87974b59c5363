/** The daemon's reads as a machine, the code that refines it, and what it knows after each of the client's writes. */
module Session {
  import opened CText
  import opened Decimal
  import opened Daemon

  // ----- The daemon: daemon_accept, one phase for each read and what follows -----

  datatype Phase =
    | PPid | PPtsLen | PPts(len: nat) | PUid | PPpid | PMount | PIn | POut | PErr | PArgc | PArgLen | PArg(len: nat)
    | PAck | PFork | PWait | PDone | PFailed
  {
    predicate Reading() {
      !(PAck? || PFork? || PWait? || PDone? || PFailed?)
    }

    /** The size of the read. */
    function Need(): nat {
      match this
      case PPts(n) => n
      case PArg(n) => n
      case PIn => 1
      case POut => 1
      case PErr => 1
      case _ => 4
    }
  }

  /** SO_PEERCRED. */
  datatype Cred = Cred(uid: int, pid: int)

  datatype Server = Server(phase: Phase, pid: int, pts: string, fromUid: int, fromPid: int, mount: bool,
                           infd: Option<int>, outfd: Option<int>, errfd: Option<int>, argc: int, args: seq<string>)

  const STARTED := Server(PPid, 0, "", 0, 0, false, None, None, None, 0, [])

  /** A complete read in a reading phase; a failed check ends the daemon. */
  function Accept(d: Server, cs: seq<Cell>, cred: Cred): Server
    requires d.phase.Reading() && |cs| == d.phase.Need()
  {
    match d.phase
    case PPid => d.(pid := GetNative(BytesOf(cs)), phase := PPtsLen)
    case PPtsLen =>
      var n := GetNative(BytesOf(cs));
      d.(phase := if n > PATH_MAX || n < 0 then PFailed else PPts(n))
    case PPts(_) => d.(pts := BytesOf(cs), phase := PUid)
    case PUid => d.(fromUid := GetNative(BytesOf(cs)), phase := PPpid)
    case PPpid =>
      var e := d.(fromPid := GetNative(BytesOf(cs)), phase := PMount);
      if cred.uid != 0 then e.(fromUid := cred.uid, pid := cred.pid, fromPid := cred.pid) else e
    case PMount => d.(mount := GetNative(BytesOf(cs)) != 0, phase := PIn)
    case PIn => d.(infd := cs[0].fd, phase := POut)
    case POut => d.(outfd := cs[0].fd, phase := PErr)
    case PErr => d.(errfd := cs[0].fd, phase := PArgc)
    case PArgc =>
      var n := GetNative(BytesOf(cs));
      d.(argc := n, phase := if n < 0 || n > MAX_ARGS then PFailed else if n == 0 then PAck else PArgLen)
    case PArgLen =>
      var n := GetNative(BytesOf(cs));
      d.(phase := if n > PATH_MAX || n < 0 then PFailed else PArg(n))
    case PArg(_) =>
      d.(args := d.args + [BytesOf(cs)], phase := if |d.args| + 1 == d.argc then PAck else PArgLen)
  }

  // ----- daemon_accept up to the acknowledgement -----

  /** The whole of the reading, given what each read delivers and whether the credentials can be had. A short read, the
      end of the stream and a failed check end the daemon. */
  function Served(d: Server, inputs: seq<seq<Cell>>, cred: Cred, peerKnown: bool): Server
    decreases |inputs|
  {
    if !d.phase.Reading() then d
    else if inputs == [] || |inputs[0]| != d.phase.Need() || (d.phase.PPpid? && !peerKnown) then d.(phase := PFailed)
    else Served(Accept(d, inputs[0], cred), inputs[1..], cred, peerKnown)
  }

  /** The daemon process that serves one client; its uid and pid of the client are global variables there. */
  class DaemonProcess {
    const cred: Cred
    const peerKnown: bool
    var incoming: seq<seq<Cell>>
    var fromUid: int
    var fromPid: int

    constructor (cred: Cred, peerKnown: bool, incoming: seq<seq<Cell>>)
      ensures this.cred == cred && this.peerKnown == peerKnown && this.incoming == incoming
    {
      this.cred, this.peerKnown, this.incoming, fromUid, fromPid := cred, peerKnown, incoming, 0, 0;
    }

    ghost function Rest(d: Server): Server
      reads this
    {
      Served(d, incoming, cred, peerKnown)
    }

    method Read(need: nat) returns (ok: bool, cs: seq<Cell>)
      modifies this`incoming
      ensures ok <==> old(incoming) != [] && |old(incoming)[0]| == need
      ensures ok ==> cs == old(incoming)[0] && incoming == old(incoming)[1..]
      ensures !ok ==> incoming == old(incoming)
    {
      ok, cs := incoming != [] && |incoming[0]| == need, [];
      if ok {
        cs, incoming := incoming[0], incoming[1..];
      }
    }

    /** read_int; the daemon's next read, for `d` at a phase of four bytes. */
    method ReadInt(ghost d: Server) returns (ok: bool, v: int)
      requires d.phase.Reading() && d.phase.Need() == 4
      modifies this`incoming
      ensures ok ==> exists cs: seq<Cell> :: (
                       && |cs| == 4 && v == GetNative(BytesOf(cs))
                       && old(Rest(d)) == if d.phase.PPpid? && !peerKnown then d.(phase := PFailed)
                                          else Rest(Accept(d, cs, cred)))
      ensures !ok ==> old(Rest(d)).phase.PFailed?
    {
      hide Accept, GetNative, BytesOf;
      var cs;
      ok, cs := Read(4);
      if ok {
        v := GetNative(BytesOf(cs));
      } else {
        v := 0;
      }
    }

    /** read_string, behind a length at either place where the daemon expects one. */
    method ReadString(ghost d: Server) returns (ok: bool, text: string)
      requires d.phase.PPtsLen? || d.phase.PArgLen?
      modifies this`incoming
      ensures ok ==> exists cs: seq<Cell> :: (
                       && |cs| == |text| && text == BytesOf(cs)
                       && old(Rest(d))
                          == Rest(Accept(d.(phase := if d.phase.PPtsLen? then PPts(|cs|) else PArg(|cs|)), cs, cred)))
      ensures !ok ==> old(Rest(d)).phase.PFailed?
    {
      hide GetNative, BytesOf;
      var n;
      text := "";
      ok, n := ReadInt(d);
      if !ok { return; }
      if n > PATH_MAX || n < 0 { return false, ""; }
      var cs;
      ok, cs := Read(n);
      if ok {
        text := BytesOf(cs);
      }
    }

    /** recv_fd. */
    method RecvFd(ghost d: Server) returns (ok: bool, fd: Option<int>)
      requires d.phase.Reading() && d.phase.Need() == 1 && !d.phase.PPpid?
      modifies this`incoming
      ensures ok ==> exists cs: seq<Cell> :: |cs| == 1 && fd == cs[0].fd && old(Rest(d)) == Rest(Accept(d, cs, cred))
      ensures !ok ==> old(Rest(d)).phase.PFailed?
    {
      hide Accept;
      var cs;
      ok, cs := Read(1);
      fd := if ok then cs[0].fd else None;
    }

    /** Who is calling, and on which terminal. */
    method ReadIdentity() returns (ok: bool, pid: int, pts: string)
      modifies this
      ensures ok ==> old(Rest(STARTED)) == Rest(STARTED.(phase := PMount, pid := pid, pts := pts, fromUid := fromUid,
                                                         fromPid := fromPid))
      ensures !ok ==> old(Rest(STARTED)).phase.PFailed?
    {
      hide Served, GetNative, BytesOf;
      pts := "";
      ok, pid := ReadInt(STARTED);
      if !ok { return; }
      ghost var d := STARTED.(pid := pid, phase := PPtsLen);
      ok, pts := ReadString(d);
      if !ok { return; }
      d := d.(pts := pts, phase := PUid);
      ok, fromUid := ReadInt(d);
      if !ok { return; }
      d := d.(fromUid := fromUid, phase := PPpid);
      ok, fromPid := ReadInt(d);
      if !ok { return; }
      if !peerKnown { return false, pid, pts; }
      if cred.uid != 0 {
        fromUid := cred.uid;
        pid := cred.pid;
        fromPid := cred.pid;
      }
    }

    /** The mount flag and the descriptors. */
    method ReadStreams(ghost d: Server)
      returns (ok: bool, mount: bool, infd: Option<int>, outfd: Option<int>, errfd: Option<int>)
      requires d.phase.PMount?
      modifies this`incoming
      ensures ok ==> old(Rest(d))
                     == Rest(d.(phase := PArgc, mount := mount, infd := infd, outfd := outfd, errfd := errfd))
      ensures !ok ==> old(Rest(d)).phase.PFailed?
    {
      hide Served, GetNative, BytesOf;
      infd, outfd, errfd := None, None, None;
      var flag;
      ok, flag := ReadInt(d);
      mount := flag != 0;
      if !ok { return; }
      ghost var e := d.(mount := mount, phase := PIn);
      ok, infd := RecvFd(e);
      if !ok { return; }
      e := e.(infd := infd, phase := POut);
      ok, outfd := RecvFd(e);
      if !ok { return; }
      e := e.(outfd := outfd, phase := PErr);
      ok, errfd := RecvFd(e);
    }

    method ReadArgs(ghost d: Server) returns (ok: bool, argv: seq<string>)
      requires d.phase.PArgc? && d.args == []
      modifies this`incoming
      ensures ok ==> old(Rest(d)) == d.(phase := PAck, argc := |argv|, args := argv)
      ensures !ok ==> old(Rest(d)).phase.PFailed?
    {
      hide Served, GetNative, BytesOf;
      argv := [];
      var argc;
      ok, argc := ReadInt(d);
      if !ok { return; }
      if argc < 0 || argc > MAX_ARGS {
        ok := false;
        Ended(d.(phase := PFailed, argc := argc));
        return;
      }
      ok, argv := ReadArgv(argc, d.(argc := argc, phase := if argc == 0 then PAck else PArgLen));
    }

    method ReadArgv(argc: nat, ghost d: Server) returns (ok: bool, argv: seq<string>)
      requires d.argc == argc && d.args == [] && d.phase == if argc == 0 then PAck else PArgLen
      modifies this`incoming
      ensures ok ==> |argv| == argc && old(Rest(d)) == d.(phase := PAck, args := argv)
      ensures !ok ==> old(Rest(d)).phase.PFailed?
    {
      hide Served, GetNative, BytesOf;
      argv := [];
      for i := 0 to argc
        invariant |argv| == i
        invariant old(Rest(d)) == Rest(d.(phase := if i == argc then PAck else PArgLen, args := argv))
      {
        var text;
        ok, text := ReadString(d.(phase := PArgLen, args := argv));
        if !ok { return; }
        argv := argv + [text];
      }
      ok := true;
      Ended(d.(phase := PAck, args := argv));
    }

    lemma Ended(d: Server)
      requires !d.phase.Reading()
      ensures Rest(d) == d
    {
    }

    /** daemon_accept up to the acknowledgement: either it exits, or these are its variables. */
    method DaemonAccept() returns (ok: bool, d: Server)
      modifies this
      ensures ok <==> old(Rest(STARTED)).phase == PAck
      ensures ok ==> d == old(Rest(STARTED)) && d.fromUid == fromUid && d.fromPid == fromPid
    {
      hide Served;
      d := STARTED;
      var pid, pts, mount, infd, outfd, errfd, argv;
      ok, pid, pts := ReadIdentity();
      if !ok { return; }
      ghost var e := STARTED.(phase := PMount, pid := pid, pts := pts, fromUid := fromUid, fromPid := fromPid);
      ok, mount, infd, outfd, errfd := ReadStreams(e);
      if !ok { return; }
      ok, argv := ReadArgs(e.(phase := PArgc, mount := mount, infd := infd, outfd := outfd, errfd := errfd));
      d := Server(PAck, pid, pts, fromUid, fromPid, mount, infd, outfd, errfd, |argv|, argv);
    }
  }

  // ----- Identity: whatever bytes arrive -----

  predicate KnowsPeer(p: Phase) {
    !(p.PPid? || p.PPtsLen? || p.PPts? || p.PUid? || p.PPpid? || p.PFailed?)
  }

  lemma {:induction false} IdentityKept(d: Server, inputs: seq<seq<Cell>>, cred: Cred, peerKnown: bool)
    requires cred.uid != 0
    requires KnowsPeer(d.phase) ==> d.fromUid == cred.uid && d.fromPid == cred.pid && d.pid == cred.pid
    ensures var e := Served(d, inputs, cred, peerKnown);
            KnowsPeer(e.phase) ==> e.fromUid == cred.uid && e.fromPid == cred.pid && e.pid == cred.pid
    decreases |inputs|
  {
    if d.phase.Reading() && inputs != [] && |inputs[0]| == d.phase.Need() && !(d.phase.PPpid? && !peerKnown) {
      IdentityKept(Accept(d, inputs[0], cred), inputs[1..], cred, peerKnown);
    }
  }

  /** A peer that is not root cannot choose its identity, whatever it sends. */
  lemma PeerIdentity(inputs: seq<seq<Cell>>, cred: Cred, peerKnown: bool)
    requires cred.uid != 0
    ensures var e := Served(STARTED, inputs, cred, peerKnown);
            e.phase == PAck ==> peerKnown && e.fromUid == cred.uid && e.fromPid == cred.pid && e.pid == cred.pid
  {
    IdentityKept(STARTED, inputs, cred, peerKnown);
    if !peerKnown {
      PeerNeeded(STARTED, inputs, cred, peerKnown);
    }
  }

  lemma {:induction false} PeerNeeded(d: Server, inputs: seq<seq<Cell>>, cred: Cred, peerKnown: bool)
    requires !KnowsPeer(d.phase) && !peerKnown
    ensures !KnowsPeer(Served(d, inputs, cred, peerKnown).phase)
    decreases |inputs|
  {
    if d.phase.Reading() && !d.phase.PPpid? && inputs != [] && |inputs[0]| == d.phase.Need() {
      PeerNeeded(Accept(d, inputs[0], cred), inputs[1..], cred, peerKnown);
    }
  }

  // ----- What the daemon should know after its first `j` reads -----

  function FdOf(s: Stream): Option<int> {
    if s.Open? then Some(s.fd) else None
  }

  /** How many reads the daemon makes of what the client writes. */
  function Reads(c: Client): nat {
    10 + 2 * |TakenArgs(c)|
  }

  function ArgPhase(args: seq<string>, k: nat): Phase
    requires k <= 2 * |args|
  {
    if k == 2 * |args| then PAck else if k % 2 == 0 then PArgLen else PArg(|args[k / 2]|)
  }

  function Expected(c: Client, cred: Cred, j: nat): Server
    requires c.Valid() && j <= Reads(c)
  {
    var args := TakenArgs(c);
    var phase := match j case 0 => PPid case 1 => PPtsLen case 2 => PPts(|c.pts|) case 3 => PUid case 4 => PPpid
                         case 5 => PMount case 6 => PIn case 7 => POut case 8 => PErr case 9 => PArgc
                         case _ => ArgPhase(args, j - 10);
    var peer := j >= 5 && cred.uid != 0;
    Server(phase,
           if peer then cred.pid else if j >= 1 then c.pid else 0,
           if j >= 3 then c.pts else "",
           if peer then cred.uid else if j >= 4 then c.uid else 0,
           if peer then cred.pid else if j >= 5 then c.ppid else 0,
           j >= 6 && c.mount,
           if j >= 7 then FdOf(c.stdin) else None,
           if j >= 8 then FdOf(c.stdout) else None,
           if j >= 9 then FdOf(c.stderr) else None,
           if j >= 10 then c.Announced() else 0,
           if j >= 10 then args[..(j - 10) / 2] else [])
  }

  /** Strings and counts the daemon takes. */
  predicate WithinLimits(c: Client) {
    && |c.pts| <= PATH_MAX && 0 <= c.Announced() <= MAX_ARGS
    && forall i :: 0 <= i < |TakenArgs(c)| ==> |TakenArgs(c)[i]| <= PATH_MAX
  }

  /** The limit that write `j` runs into, if any. */
  predicate OverAt(c: Client, j: nat) {
    || (j == 1 && |c.pts| > PATH_MAX)
    || (j == 9 && !(0 <= c.Announced() <= MAX_ARGS))
    || (10 <= j < 10 + 2 * |TakenArgs(c)| && j % 2 == 0 && |TakenArgs(c)[(j - 10) / 2]| > PATH_MAX)
  }

  /** Read `j` takes exactly what write `j` put there, and leaves the daemon knowing what it should. */
  predicate InStep(c: Client, cred: Cred, j: nat)
    requires c.Valid() && j < Reads(c)
  {
    var d := Expected(c, cred, j);
    && d.phase.Reading() && d.phase.Need() == |Chunks(c)[j]|
    && var e := Accept(d, Chunks(c)[j], cred);
       if OverAt(c, j) then e.phase == PFailed else e == Expected(c, cred, j + 1)
  }

  lemma AcceptsNext(c: Client, cred: Cred, j: nat)
    requires c.Valid() && j < Reads(c)
    ensures InStep(c, cred, j)
  {
    hide InStep;
    if j < 3 {
      AcceptsTerminal(c, cred, j);
    } else if j < 6 {
      AcceptsCaller(c, cred, j);
    } else if j < 9 {
      AcceptsDescriptor(c, cred, j);
    } else if j == 9 {
      AcceptsCount(c, cred);
    } else {
      var i := (j - 10) / 2;
      if j % 2 == 0 {
        assert j == 10 + 2 * i;
        AcceptsArgLen(c, cred, i);
      } else {
        assert j == 11 + 2 * i;
        AcceptsArgText(c, cred, i);
      }
    }
  }

  /** The pid and the slave's name. */
  lemma AcceptsTerminal(c: Client, cred: Cred, j: nat)
    requires c.Valid() && j < 3
    ensures InStep(c, cred, j)
  {
    hide GetNative, PutNative, ArgChunks, BytesOf, IntCells, Plain, TakenArgs;
    IntCellsInvert(c.pid);
    IntCellsInvert(|c.pts|);
    BytesOfPlain(c.pts);
  }

  /** uid, parent and mount flag. */
  lemma AcceptsCaller(c: Client, cred: Cred, j: nat)
    requires c.Valid() && 3 <= j < 6
    ensures InStep(c, cred, j)
  {
    hide GetNative, PutNative, ArgChunks, BytesOf, IntCells, Plain, TakenArgs;
    IntCellsInvert(c.uid);
    IntCellsInvert(c.ppid);
    IntCellsInvert(if c.mount then 1 else 0);
  }

  lemma AcceptsDescriptor(c: Client, cred: Cred, j: nat)
    requires c.Valid() && 6 <= j < 9
    ensures InStep(c, cred, j)
  {
    hide GetNative, PutNative, ArgChunks, BytesOf, IntCells, Plain, TakenArgs;
  }

  lemma CountWrite(c: Client)
    requires c.Valid()
    ensures Chunks(c)[9] == IntCells(c.Announced())
  {
    hide ArgChunks, IntCells, Plain, FdCells, Client.SentArgs;
  }

  /** What the argument count changes. */
  lemma ExpectedCount(c: Client, cred: Cred)
    requires c.Valid()
    ensures Expected(c, cred, 9).phase == PArgc
    ensures OverAt(c, 9) <==> !(0 <= c.Announced() <= MAX_ARGS)
    ensures Expected(c, cred, 10)
         == Expected(c, cred, 9).(argc := c.Announced(), phase := if TakenArgs(c) == [] then PAck else PArgLen)
  {
    hide Chunks, TakenArgs;
  }

  lemma AcceptsCount(c: Client, cred: Cred)
    requires c.Valid()
    ensures InStep(c, cred, 9)
  {
    hide GetNative, PutNative, ArgChunks, BytesOf, IntCells, Plain, TakenArgs, Expected, Chunks, OverAt;
    CountWrite(c);
    ExpectedCount(c, cred);
    IntCellsInvert(c.Announced());
  }

  /** The daemon between two arguments, and with one announced. */
  lemma ExpectedArgs(c: Client, cred: Cred, i: nat)
    requires c.Valid() && i <= |TakenArgs(c)|
    ensures var d := Expected(c, cred, 10 + 2 * i);
            && d.args == TakenArgs(c)[..i] && d.argc == c.Announced()
            && d.phase == (if i == |TakenArgs(c)| then PAck else PArgLen)
            && (i < |TakenArgs(c)| ==>
                  Expected(c, cred, 11 + 2 * i) == d.(phase := PArg(|TakenArgs(c)[i]|))
                  && Expected(c, cred, 12 + 2 * i)
                     == d.(args := TakenArgs(c)[..i + 1], phase := if i + 1 == |TakenArgs(c)| then PAck else PArgLen))
  {
    hide Chunks, TakenArgs;
    assert (2 * i) / 2 == i && (2 * i + 1) / 2 == i && (2 * i + 2) / 2 == i + 1;
    assert (2 * i) % 2 == 0 && (2 * i + 1) % 2 == 1 && (2 * i + 2) % 2 == 0;
  }

  lemma ArgWrites(c: Client, i: nat)
    requires c.Valid() && i < |TakenArgs(c)|
    ensures Chunks(c)[10 + 2 * i] == IntCells(|TakenArgs(c)[i]|) && Chunks(c)[11 + 2 * i] == Plain(TakenArgs(c)[i])
  {
    hide ArgChunks, IntCells, Plain, FdCells, TakenArgs;
    var rest := ArgChunks(TakenArgs(c));
    ArgChunksAt(TakenArgs(c), i);
    assert Chunks(c)[10 + 2 * i] == rest[2 * i] && Chunks(c)[11 + 2 * i] == rest[2 * i + 1];
  }

  lemma AcceptsArgLen(c: Client, cred: Cred, i: nat)
    requires c.Valid() && i < |TakenArgs(c)|
    ensures InStep(c, cred, 10 + 2 * i)
  {
    hide GetNative, PutNative, BytesOf, Expected, Chunks, ArgChunks, TakenArgs;
    ExpectedArgs(c, cred, i);
    ArgWrites(c, i);
    IntCellsInvert(|TakenArgs(c)[i]|);
    assert (10 + 2 * i - 10) / 2 == i;
  }

  lemma AcceptsArgText(c: Client, cred: Cred, i: nat)
    requires c.Valid() && i < |TakenArgs(c)|
    ensures InStep(c, cred, 11 + 2 * i)
  {
    hide GetNative, PutNative, BytesOf, Expected, Chunks, ArgChunks, TakenArgs;
    var args := TakenArgs(c);
    ExpectedArgs(c, cred, i);
    ArgWrites(c, i);
    BytesOfPlain(args[i]);
    assert args[..i] + [args[i]] == args[..i + 1];
  }

  /** The writes of the client, delivered one by one, leave the daemon at its acknowledgement knowing everything, or
      make it exit when a limit is exceeded. */
  lemma {:induction false} ServedFrom(c: Client, cred: Cred, j: nat)
    requires c.Valid() && j <= Reads(c)
    ensures var d := Served(Expected(c, cred, j), Chunks(c)[j..], cred, true);
            if exists k :: j <= k < Reads(c) && OverAt(c, k) then d.phase == PFailed
            else d == Expected(c, cred, Reads(c)) && d.phase == PAck
    decreases Reads(c) - j
  {
    hide Accept, Expected, OverAt, Chunks;
    if j == Reads(c) {
      ExpectedArgs(c, cred, |TakenArgs(c)|);
    } else {
      AcceptsNext(c, cred, j);
      assert Chunks(c)[j..][0] == Chunks(c)[j] && Chunks(c)[j..][1..] == Chunks(c)[j + 1..];
      ServedFrom(c, cred, j + 1);
    }
  }
}
