/** The session between the su client and the su daemon: two processes, a byte stream each way, descriptors on one. */
module Daemon {
  import opened CText
  import opened Decimal

  const PATH_MAX := 4096
  const MAX_ARGS := 512

  // ----- The stream from client to daemon: bytes, some with a descriptor attached -----

  datatype Cell = Cell(b: char, fd: Option<int>)

  function Plain(s: string): (cs: seq<Cell>)
    ensures |cs| == |s| && forall i :: 0 <= i < |s| ==> cs[i] == Cell(s[i], None)
  {
    seq(|s|, i requires 0 <= i < |s| => Cell(s[i], None))
  }

  /** What read() delivers: attached descriptors are dropped. */
  function BytesOf(cs: seq<Cell>): (s: string)
    ensures |s| == |cs| && forall i :: 0 <= i < |s| ==> s[i] == cs[i].b
  {
    seq(|cs|, i requires 0 <= i < |cs| => cs[i].b)
  }

  lemma BytesOfPlain(s: string)
    ensures BytesOf(Plain(s)) == s
  {
  }

  /** An int as it lies in memory. */
  function PutNative(v: int): (s: string)
    requires IsInt32(v)
    ensures |s| == 4
  {
    var n := if v < 0 then v + 2 * INT_LIMIT else v;
    [(n % 0x100) as char, (n / 0x100 % 0x100) as char, (n / 0x1_0000 % 0x100) as char, (n / 0x100_0000 % 0x100) as char]
  }

  function GetNative(s: string): int
    requires |s| == 4
  {
    var n := s[0] as int + 0x100 * (s[1] as int + 0x100 * (s[2] as int + 0x100 * s[3] as int));
    if n < INT_LIMIT then n else n - 2 * INT_LIMIT
  }

  lemma NativeInverts(v: int)
    requires IsInt32(v)
    ensures GetNative(PutNative(v)) == v
  {
    var n := if v < 0 then v + 2 * INT_LIMIT else v;
    var a, b, c := n / 0x100, n / 0x1_0000, n / 0x100_0000;
    assert n == a * 0x100 + n % 0x100;
    assert a == b * 0x100 + a % 0x100;
    assert b == c * 0x100 + b % 0x100;
    assert c % 0x100 == c;
  }

  function IntCells(v: int): (cs: seq<Cell>)
    requires IsInt32(v)
    ensures |cs| == 4
  {
    Plain(PutNative(v))
  }

  lemma IntCellsInvert(v: int)
    requires IsInt32(v)
    ensures GetNative(BytesOf(IntCells(v))) == v
  {
    BytesOfPlain(PutNative(v));
    NativeInverts(v);
  }

  // ----- The client: connect_daemon -----

  /** One of the client's three standard streams. */
  datatype Stream = Tty | Open(fd: int) | Closed

  /** What the client is started with; `pts` is the slave's name, empty when no PTY was needed. */
  datatype Client = Client(pid: int, uid: int, ppid: int, mount: bool, pts: string,
                           stdin: Stream, stdout: Stream, stderr: Stream, argv: seq<string>)
  {
    predicate Valid() {
      && IsInt32(pid) && IsInt32(uid) && IsInt32(ppid) && |pts| < INT_LIMIT && |argv| < INT_LIMIT
      && (forall i :: 0 <= i < |argv| ==> |argv[i]| < INT_LIMIT)
      && (pts != "" <==> stdin == Tty || stdout == Tty || stderr == Tty)
    }

    /** The number announced, and the strings that follow it: element 1 is skipped with the mount flag. */
    function Announced(): int {
      if mount then |argv| - 1 else |argv|
    }

    function SentArgs(): (args: seq<string>)
      ensures Valid() ==> forall i :: 0 <= i < |args| ==> |args[i]| < INT_LIMIT
    {
      if mount && |argv| >= 2 then argv[..1] + argv[2..] else argv
    }
  }

  /** What the daemon takes for arguments: as many as announced, which are none when there is no element to skip. */
  function TakenArgs(c: Client): (args: seq<string>)
    ensures c.Announced() >= 0 ==> |args| == c.Announced()
    ensures args != [] ==> args == c.SentArgs()
    ensures |args| <= |c.SentArgs()|
  {
    if c.mount && |c.argv| < 2 then [] else c.SentArgs()
  }

  /** Without the mount flag everything is sent; with it, everything but element 1. */
  lemma SentElements(c: Client)
    ensures !c.mount ==> c.SentArgs() == c.argv
    ensures c.mount && |c.argv| >= 2 ==>
              && |c.SentArgs()| == |c.argv| - 1 && c.SentArgs()[0] == c.argv[0]
              && forall i :: 2 <= i < |c.argv| ==> c.SentArgs()[i - 1] == c.argv[i]
  {
  }

  /** The announcement is right exactly when there is an element to skip. */
  lemma AnnouncedIff(c: Client)
    ensures c.Announced() == |c.SentArgs()| <==> !c.mount || |c.argv| >= 2
  {
  }

  /** send_fd: one byte, with the descriptor attached if the stream is to be passed and is open. */
  function FdCells(s: Stream): (cs: seq<Cell>)
    ensures |cs| == 1
  {
    [Cell(NUL, if s.Open? then Some(s.fd) else None)]
  }

  function ArgChunks(args: seq<string>): (chunks: seq<seq<Cell>>)
    requires forall i :: 0 <= i < |args| ==> |args[i]| < INT_LIMIT
    ensures |chunks| == 2 * |args|
  {
    if args == [] then []
    else ArgChunks(args[..|args| - 1]) + [IntCells(|args[|args| - 1]|), Plain(args[|args| - 1])]
  }

  lemma {:induction false} ArgChunksAt(args: seq<string>, i: nat)
    requires i < |args| && forall k :: 0 <= k < |args| ==> |args[k]| < INT_LIMIT
    ensures ArgChunks(args)[2 * i] == IntCells(|args[i]|) && ArgChunks(args)[2 * i + 1] == Plain(args[i])
  {
    hide IntCells, Plain;
    if i < |args| - 1 { ArgChunksAt(args[..|args| - 1], i); }
  }

  /** Everything the client writes, one element for each system call. */
  function Chunks(c: Client): (chunks: seq<seq<Cell>>)
    requires c.Valid()
    ensures |chunks| == 10 + 2 * |c.SentArgs()|
  {
    [IntCells(c.pid), IntCells(|c.pts|), Plain(c.pts), IntCells(c.uid), IntCells(c.ppid),
     IntCells(if c.mount then 1 else 0),
     FdCells(c.stdin), FdCells(c.stdout), FdCells(c.stderr), IntCells(c.Announced())] + ArgChunks(c.SentArgs())
  }

  /** connect_daemon as the list of its writes: the fixed part, then the arguments. */
  method ConnectDaemon(c: Client) returns (writes: seq<seq<Cell>>)
    requires c.Valid()
    ensures writes == Chunks(c)
  {
    hide IntCells, Plain, ArgChunks;
    writes := [IntCells(c.pid)];
    writes := writes + [IntCells(|c.pts|), Plain(c.pts)];
    writes := writes + [IntCells(c.uid)];
    writes := writes + [IntCells(c.ppid)];
    writes := writes + [IntCells(if c.mount then 1 else 0)];
    writes := writes + [FdCells(c.stdin)];
    writes := writes + [FdCells(c.stdout)];
    writes := writes + [FdCells(c.stderr)];
    writes := writes + [IntCells(if c.mount then |c.argv| - 1 else |c.argv|)];
    var rest := WriteArgs(c);
    writes := writes + rest;
  }

  /** The argument loop, which skips element 1 when the mount flag is set. */
  method WriteArgs(c: Client) returns (writes: seq<seq<Cell>>)
    requires c.Valid()
    ensures writes == ArgChunks(c.SentArgs())
  {
    hide IntCells, Plain, ArgChunks, Client.SentArgs;
    writes := [];
    NoArgs();
    for i := 0 to |c.argv|
      invariant writes == ArgChunks(ArgsUpTo(c, i))
    {
      ArgsStep(c, i);
      if i == 1 && c.mount { continue; }
      writes := writes + [IntCells(|c.argv[i]|), Plain(c.argv[i])];
    }
    AllArgs(c);
  }

  /** What has been sent when the loop is at `i`. */
  function ArgsUpTo(c: Client, i: nat): (args: seq<string>)
    requires c.Valid() && i <= |c.argv|
    ensures forall k :: 0 <= k < |args| ==> |args[k]| < INT_LIMIT
  {
    if c.mount && i >= 2 then c.argv[..1] + c.argv[2..i] else c.argv[..i]
  }

  lemma NoArgs()
    ensures ArgChunks([]) == []
  {
  }

  lemma ArgsStep(c: Client, i: nat)
    requires c.Valid() && i < |c.argv|
    ensures ArgChunks(ArgsUpTo(c, i + 1))
         == if i == 1 && c.mount then ArgChunks(ArgsUpTo(c, i))
            else ArgChunks(ArgsUpTo(c, i)) + [IntCells(|c.argv[i]|), Plain(c.argv[i])]
  {
    hide IntCells, Plain;
    var args := ArgsUpTo(c, i + 1);
    if i == 1 && c.mount {
      assert c.argv[..1] + c.argv[2..2] == c.argv[..1];
    } else {
      assert args[..|args| - 1] == ArgsUpTo(c, i) && args[|args| - 1] == c.argv[i];
    }
  }

  lemma AllArgs(c: Client)
    requires c.Valid()
    ensures ArgsUpTo(c, |c.argv|) == c.SentArgs()
  {
  }
}
