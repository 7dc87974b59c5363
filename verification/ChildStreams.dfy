/** The child of the daemon: how its standard streams come from the descriptors it got and the pseudo-terminal. */
module ChildStreams {
  import opened CText
  import opened Daemon
  import opened Session
  import opened Protocol

  /** What a descriptor refers to: something the client had open, the slave side of a PTY, or a file of the daemon. */
  datatype File = Theirs(fd: int) | Slave(name: string) | Own(name: string)

  // ----- What the child should have, and what the daemon knows about it -----

  /** A terminal becomes the PTY, an open stream stays what it is, and a closed one becomes the PTY if there is one. */
  function Wanted(c: Client, s: Stream): Option<File> {
    match s
    case Tty => Some(Slave(c.pts))
    case Open(fd) => Some(Theirs(fd))
    case Closed => if Tty in {c.stdin, c.stdout, c.stderr} then Some(Slave(c.pts)) else None
  }

  /** The daemon's rule: a descriptor that came is used, otherwise the PTY if there is a name for one. */
  function FileFor(d: Server, fd: Option<int>): Option<File> {
    if fd.Some? then Some(Theirs(fd.value)) else if d.pts != "" then Some(Slave(d.pts)) else None
  }

  /** In every run, the daemon's rule gives each stream what it should have. */
  lemma StreamsOfRun(c: Client, cred: Cred, steps: seq<Step>, s: Sys)
    requires c.Valid() && Reaches(c, cred, FRESH, steps, s)
    ensures Acknowledging(s) ==>
              && FileFor(s.server, s.server.infd) == Wanted(c, c.stdin)
              && FileFor(s.server, s.server.outfd) == Wanted(c, c.stdout)
              && FileFor(s.server, s.server.errfd) == Wanted(c, c.stderr)
  {
    hide Reaches, WithinLimits;
    SessionSafety(c, cred, steps, s);
  }

  /** Every stream of the child can be had. */
  predicate Resolves(c: Client) {
    Wanted(c, c.stdin).Some? && Wanted(c, c.stdout).Some? && Wanted(c, c.stderr).Some?
  }

  /** That is, no stream is closed, unless one of the others is a terminal. */
  lemma ResolvesIff(c: Client)
    requires c.Valid()
    ensures Resolves(c) <==> Closed !in {c.stdin, c.stdout, c.stderr} || Tty in {c.stdin, c.stdout, c.stderr}
  {
  }

  /** Not one of the three standard descriptors. */
  predicate High(fd: int) {
    fd < 0 || fd >= 3
  }

  // ----- The descriptor table of the child -----

  class FdTable {
    var files: map<int, File>

    constructor (files: map<int, File>)
      ensures this.files == files
    {
      this.files := files;
    }

    /** The three descriptors are open, or -1. */
    ghost predicate Usable(infd: int, outfd: int, errfd: int)
      reads this
    {
      && (forall fd :: fd in files ==> fd >= 0)
      && (infd == -1 || infd in files) && (outfd == -1 || outfd in files) && (errfd == -1 || errfd in files)
    }

    /** recv_fd's result: a descriptor for the client's file, or -1 when none was attached. */
    ghost predicate Got(fd: int, theirs: Option<int>)
      reads this
    {
      if theirs.Some? then fd in files && files[fd] == Theirs(theirs.value) else fd == -1
    }

    predicate StandardOpen()
      reads this
    {
      0 in files && 1 in files && 2 in files
    }

    method Dup2(from: int, to: int) returns (r: int)
      requires to >= 0
      modifies this
      ensures r == if from in old(files) then to else -1
      ensures files == if from in old(files) then old(files)[to := old(files)[from]] else old(files)
    {
      if from in files {
        files := files[to := files[from]];
        r := to;
      } else {
        r := -1;
      }
    }

    method Close(fd: int)
      modifies this
      ensures files == old(files) - {fd}
    {
      files := files - {fd};
    }

    /** run_daemon_child up to su_main: goes on exactly when all three descriptors are there; and then the standard
        streams are all open exactly when none of the descriptors was itself below 3. */
    method RunDaemonChild(infd: int, outfd: int, errfd: int) returns (ok: bool)
      requires Usable(infd, outfd, errfd)
      modifies this
      ensures ok <==> infd != -1 && outfd != -1 && errfd != -1
      ensures ok ==> (StandardOpen() <==> infd >= 3 && outfd >= 3 && errfd >= 3)
      ensures ok && infd >= 3 && outfd >= 3 && errfd >= 3 ==>
                files == old(files)[0 := old(files[infd])][1 := old(files[outfd])][2 := old(files[errfd])]
                         - {infd, outfd, errfd}
    {
      var r := Dup2(outfd, 1);
      if r == -1 { return false; }
      r := Dup2(errfd, 2);
      if r == -1 { return false; }
      r := Dup2(infd, 0);
      if r == -1 { return false; }
      Close(infd);
      Close(outfd);
      Close(errfd);
      return true;
    }

    /** The child from its fork to su_main, with what the daemon holds. `ptsfd` is what open(pts_slave) returns: a new
        descriptor, or none. */
    method Child(d: Server, infd: int, outfd: int, errfd: int, ptsfd: Option<int>) returns (ok: bool)
      requires forall fd :: fd in files ==> fd >= 0
      requires Got(infd, d.infd) && Got(outfd, d.outfd) && Got(errfd, d.errfd)
      requires ptsfd.Some? ==> ptsfd.value >= 0 && ptsfd.value !in files
      modifies this
      ensures ok <==> && FileFor(d, d.infd).Some? && FileFor(d, d.outfd).Some? && FileFor(d, d.errfd).Some?
                      && (d.pts == "" || ptsfd.Some?)
      ensures ok ==> (StandardOpen() <==> && High(infd) && High(outfd) && High(errfd)
                                          && (None in {d.infd, d.outfd, d.errfd} ==> High(ptsfd.value)))
      ensures ok && StandardOpen() ==>
                && Some(files[0]) == FileFor(d, d.infd)
                && Some(files[1]) == FileFor(d, d.outfd)
                && Some(files[2]) == FileFor(d, d.errfd)
    {
      var fds := [infd, outfd, errfd];
      if d.pts != "" {
        if ptsfd.None? { return false; }
        files := files[ptsfd.value := Slave(d.pts)];
        fds := [if infd < 0 then ptsfd.value else infd, if outfd < 0 then ptsfd.value else outfd,
                if errfd < 0 then ptsfd.value else errfd];
      }
      ok := RunDaemonChild(fds[0], fds[1], fds[2]);
    }

    /** The same at any point of any run behind the daemon's reads, told by the client's streams. */
    method ChildOfRun(c: Client, ghost cred: Cred, ghost steps: seq<Step>, s: Sys,
                      infd: int, outfd: int, errfd: int, ptsfd: Option<int>)
      returns (ok: bool)
      requires c.Valid() && Reaches(c, cred, FRESH, steps, s) && Acknowledging(s)
      requires forall fd :: fd in files ==> fd >= 0
      requires Got(infd, s.server.infd) && Got(outfd, s.server.outfd) && Got(errfd, s.server.errfd)
      requires ptsfd.Some? ==> ptsfd.value >= 0 && ptsfd.value !in files
      modifies this
      ensures ok <==> Resolves(c) && (c.pts == "" || ptsfd.Some?)
      ensures ok && High(infd) && High(outfd) && High(errfd) && (ptsfd.Some? ==> High(ptsfd.value)) ==>
                && StandardOpen()
                && Some(files[0]) == Wanted(c, c.stdin)
                && Some(files[1]) == Wanted(c, c.stdout)
                && Some(files[2]) == Wanted(c, c.stderr)
    {
      hide Reaches, Wanted, FileFor;
      StreamsOfRun(c, cred, steps, s);
      NameOfRun(c, cred, steps, s);
      ok := Child(s.server, infd, outfd, errfd, ptsfd);
    }
  }

  lemma NameOfRun(c: Client, cred: Cred, steps: seq<Step>, s: Sys)
    requires c.Valid() && Reaches(c, cred, FRESH, steps, s)
    ensures Acknowledging(s) ==>
              && s.server.pts == c.pts
              && (None in {s.server.infd, s.server.outfd, s.server.errfd} && Resolves(c) ==> c.pts != "")
  {
    hide Reaches, WithinLimits;
    SessionSafety(c, cred, steps, s);
  }

  /** A daemon whose own standard output is free may receive the output stream as descriptor 1; the child then closes it
      behind itself. */
  method LowDescriptor() returns (ok: bool, open: bool)
    ensures ok && !open
  {
    var table := new FdTable(map[0 := Own("null"), 1 := Theirs(1), 3 := Theirs(0), 4 := Theirs(2)]);
    ok := table.RunDaemonChild(3, 1, 4);
    open := table.StandardOpen();
  }
}
