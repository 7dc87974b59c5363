/** su's command line: the option loop, the positional arguments, and the argument vector rewritten in place. */
module Argv {
  import opened CText

  /** An element of argv; the last one is NULL. */
  type Arg = Option<string>

  const DEFAULT_SHELL := "/system/bin/sh"

  // ----- What getopt_long hands to the option loop -----

  datatype Opt = OptCommand(arg: string) | OptLogin | OptKeepenv | OptShell(arg: string)

  /** The fields of `struct su_request` that the loop sets. */
  datatype Request = Request(login: bool, keepenv: bool, shell: Option<string>, command: Option<string>)

  function Chosen(opts: seq<Opt>): (r: Request)
    ensures r.command.Some? ==> r.shell.Some?
  {
    if opts == [] then Request(false, false, None, None)
    else
      var r := Chosen(opts[..|opts| - 1]);
      match opts[|opts| - 1]
      case OptCommand(arg) => r.(shell := Some(DEFAULT_SHELL), command := Some(arg))
      case OptLogin => r.(login := true)
      case OptKeepenv => r.(keepenv := true)
      case OptShell(arg) => r.(shell := Some(arg))
  }

  method ReadOptions(opts: seq<Opt>) returns (to: Request)
    ensures to == Chosen(opts)
  {
    to := Request(false, false, None, None);
    for i := 0 to |opts|
      invariant to == Chosen(opts[..i])
    {
      assert opts[..i + 1][..i] == opts[..i];
      match opts[i] {
        case OptCommand(arg) => to := to.(shell := Some(DEFAULT_SHELL), command := Some(arg));
        case OptLogin => to := to.(login := true);
        case OptKeepenv => to := to.(keepenv := true);
        case OptShell(arg) => to := to.(shell := Some(arg));
      }
    }
    assert opts[..|opts|] == opts;
  }

  /** The last -c gives the command. */
  lemma {:induction false} LastCommandWins(opts: seq<Opt>, i: nat)
    requires i < |opts| && opts[i].OptCommand? && forall j :: i < j < |opts| ==> !opts[j].OptCommand?
    ensures Chosen(opts).command == Some(opts[i].arg)
  {
    if i < |opts| - 1 { LastCommandWins(opts[..|opts| - 1], i); }
  }

  /** The last of -c and -s gives the shell; a -c resets it to the default one. */
  lemma {:induction false} LastShellWins(opts: seq<Opt>, i: nat)
    requires i < |opts| && (opts[i].OptCommand? || opts[i].OptShell?)
    requires forall j :: i < j < |opts| ==> !opts[j].OptCommand? && !opts[j].OptShell?
    ensures Chosen(opts).shell == Some(if opts[i].OptCommand? then DEFAULT_SHELL else opts[i].arg)
  {
    if i < |opts| - 1 { LastShellWins(opts[..|opts| - 1], i); }
  }

  lemma {:induction false} FlagsSet(opts: seq<Opt>)
    ensures Chosen(opts).login <==> OptLogin in opts
    ensures Chosen(opts).keepenv <==> OptKeepenv in opts
  {
    if opts != [] {
      var front, last := opts[..|opts| - 1], opts[|opts| - 1];
      FlagsSet(front);
      assert opts == front + [last];
      assert forall o: Opt :: o in opts <==> o in front || o == last;
    }
  }

  /** Without the option, the field keeps its default. */
  lemma {:induction false} AbsentOptions(opts: seq<Opt>)
    ensures (forall j :: 0 <= j < |opts| ==> !opts[j].OptCommand?) ==> Chosen(opts).command == None
    ensures (forall j :: 0 <= j < |opts| ==> !opts[j].OptCommand? && !opts[j].OptShell?) ==> Chosen(opts).shell == None
  {
    if opts != [] { AbsentOptions(opts[..|opts| - 1]); }
  }

  // ----- The name of a program -----

  /** `name` is what stands behind the last slash of the path, with a dash in front for a login shell. */
  predicate EndsPath(name: string, login: bool, path: string) {
    && (login ==> name != "" && name[0] == '-')
    && var n := if login && name != "" then name[1..] else name;
       && Free(n, '/') && |n| <= |path| && path[|path| - |n|..] == n
       && (|n| < |path| ==> path[|path| - |n| - 1] == '/')
  }

  // ----- Positional arguments -----

  /** Looking a user up by name or by number; None ends the program. */
  type Users = map<string, nat>

  datatype Scan = Failed | Scan(login: bool, uid: Option<nat>, optind: nat)

  function SkipIf(argv: seq<Arg>, i: nat, s: string): nat {
    if i < |argv| && argv[i] == Some(s) then i + 1 else i
  }

  function UserAt(argv: seq<Arg>, i: nat): Option<string> {
    if i < |argv| && argv[i] != Some("--") then argv[i] else None
  }

  /** An optional "-", an optional user that is not "--", an optional "--". */
  function Scanned(argv: seq<Arg>, optind: nat, login: bool, users: Users): (r: Scan)
    requires optind <= |argv|
    ensures r.Scan? ==> optind <= r.optind <= |argv| && r.optind <= optind + 3
  {
    var a := SkipIf(argv, optind, "-");
    match UserAt(argv, a)
    case None => Scan(login || a > optind, None, SkipIf(argv, a, "--"))
    case Some(name) =>
      if name !in users then Failed
      else Scan(login || a > optind, Some(users[name]), SkipIf(argv, a + 1, "--"))
  }

  /** `struct su_request`, with the vector it rewrites. */
  class SuRequest {
    const argv: array<Arg>
    const argc: nat
    var optind: nat
    var uid: nat
    var login: bool
    var shell: Option<string>
    var command: Option<string>

    ghost predicate Valid()
      reads this, argv
    {
      && argv.Length == argc + 1 && argv[argc] == None
      && (forall i :: 0 <= i < argc ==> argv[i].Some?)
      && 1 <= optind <= argc
      && (command.Some? ==> shell.Some?)
    }

    constructor (argv: array<Arg>, optind: nat, to: Request)
      requires argv.Length >= 1 && argv[argv.Length - 1] == None
      requires forall i :: 0 <= i < argv.Length - 1 ==> argv[i].Some?
      requires 1 <= optind < argv.Length && (to.command.Some? ==> to.shell.Some?)
      ensures Valid() && this.argv == argv && argc == argv.Length - 1 && this.optind == optind && uid == 0
      ensures login == to.login && shell == to.shell && command == to.command
    {
      this.argv, this.argc, this.optind, this.uid := argv, argv.Length - 1, optind, 0;
      this.login, this.shell, this.command := to.login, to.shell, to.command;
    }

    /** Element `i` is there and spells `s`. */
    predicate DashAt(i: nat, s: string)
      requires argv.Length == argc + 1
      reads this, argv
    {
      i < argc && argv[i] == Some(s)
    }

    method SkipArg(s: string)
      requires Valid()
      modifies this`optind
      ensures Valid() && optind == SkipIf(argv[..argc], old(optind), s)
      ensures optind == if DashAt(old(optind), s) then old(optind) + 1 else old(optind)
    {
      if optind < argc && argv[optind] == Some(s) { optind := optind + 1; }
    }

    /** An optional "-", an optional user that is not "--", an optional "--": the login flag, the uid and the place
        where the arguments start. */
    method ScanPositional(users: Users) returns (ok: bool)
      requires Valid()
      modifies this`optind, this`uid, this`login
      ensures Valid()
      ensures var r := Scanned(argv[..argc], old(optind), old(login), users);
              if r.Failed? then !ok
              else ok && optind == r.optind && login == r.login && uid == if r.uid.Some? then r.uid.value else old(uid)
      ensures var a := if DashAt(old(optind), "-") then old(optind) + 1 else old(optind);
              if a < argc && argv[a] != Some("--") then
                && (ok <==> argv[a].value in users)
                && (ok ==> uid == users[argv[a].value] && optind == if DashAt(a + 1, "--") then a + 2 else a + 1)
              else ok && uid == old(uid) && optind == if DashAt(a, "--") then a + 1 else a
      ensures ok ==> (login <==> old(login) || DashAt(old(optind), "-"))
    {
      hide SkipIf;
      var before := optind;
      SkipArg("-");
      if optind > before { login := true; }
      if optind < argc && argv[optind] != Some("--") {
        var name := argv[optind].value;
        assert UserAt(argv[..argc], optind) == Some(name);
        if name !in users { return false; }
        uid := users[name];
        optind := optind + 1;
      } else {
        assert UserAt(argv[..argc], optind) == None;
      }
      SkipArg("--");
      ok := true;
    }

    /** The vector and the program that allow() passes to execvp; `from` is where the vector starts. */
    method Allow() returns (binary: string, from: nat)
      requires Valid() && (command.Some? ==> optind >= 3)
      modifies argv
      ensures from == if command.Some? then optind - 3
                      else if shell.None? && old(argv[optind]).Some? then optind else optind - 1
      ensures from < argv.Length
      ensures (binary, argv[from..]) == ExecVector(old(argv[..]), optind, login, shell, command)
      ensures shell.Some? ==> binary == shell.value
      ensures shell.None? ==> binary == if old(argv[optind]).Some? then old(argv[optind]).value else DEFAULT_SHELL
      ensures argv[from].Some? && EndsPath(argv[from].value, login, binary)
      ensures command.Some? ==> argv[from + 1] == Some("-c") && argv[from + 2] == command
      ensures var taken := if command.Some? then 3 else 1;
              forall i :: 0 <= i < argv.Length && (i < from || from + taken <= i) ==> argv[i] == old(argv[i])
    {
      hide Base, EndsPath, ExecVector, Dashed;
      ghost var was := argv[..];
      var argc := optind;
      if command.Some? {
        binary := shell.value;
        argc := argc - 1;
        argv[argc] := command;
        argc := argc - 1;
        argv[argc] := Some("-c");
      } else if shell.Some? {
        binary := shell.value;
      } else if argv[argc].Some? {
        binary := argv[argc].value;
        argc := argc + 1;
      } else {
        binary := DEFAULT_SHELL;
      }
      var arg0 := BaseName(binary);
      NameEnds(binary, login);
      DashesName(arg0, login);
      if login { arg0 := "-" + arg0; }
      argc := argc - 1;
      argv[argc] := Some(arg0);
      from := argc;
      VectorIs(was, argv[..], from, binary, optind, login, shell, command);
    }
  }

  /** strrchr and the text after the last slash. */
  method BaseName(path: string) returns (name: string)
    ensures name == Base(path)
  {
    var i := |path|;
    while i > 0 && path[i - 1] != '/'
      invariant 0 <= i <= |path| && Free(path[i..], '/')
    {
      assert path[i - 1..] == [path[i - 1]] + path[i..];
      i := i - 1;
    }
    BaseIs(path, i);
    name := path[i..];
  }

  function Base(path: string): string
    decreases |path|
  {
    if Free(path, '/') then path else Base(path[1..])
  }

  /** The base name is the longest slash-free end of the path. */
  lemma {:induction false} BaseIs(path: string, i: nat)
    requires i <= |path| && Free(path[i..], '/') && (i > 0 ==> path[i - 1] == '/')
    ensures Base(path) == path[i..]
    decreases |path|
  {
    if i == 0 {
      assert path[0..] == path;
    } else {
      assert !Free(path, '/');
      assert path[1..][i - 1..] == path[i..];
      BaseIs(path[1..], i - 1);
    }
  }

  lemma {:induction false} BaseEnds(path: string) returns (i: nat)
    ensures i <= |path| && Base(path) == path[i..] && Free(path[i..], '/') && (i > 0 ==> path[i - 1] == '/')
    decreases |path|
  {
    if Free(path, '/') {
      i := 0;
      assert path[0..] == path;
    } else {
      assert path != "";
      var j := BaseEnds(path[1..]);
      assert path[1..][j..] == path[j + 1..];
      if j > 0 {
        i := j + 1;
        assert path[j] == path[1..][j - 1];
      } else {
        assert path[1..] == path[1..][0..];
        assert forall k :: 1 <= k < |path| ==> path[k] == path[1..][k - 1] != '/';
        i := 1;
      }
    }
  }

  lemma NameEnds(path: string, login: bool)
    ensures EndsPath(Dashed(Base(path), login), login, path)
  {
    hide Base;
    var i := BaseEnds(path);
    var name := Dashed(Base(path), login);
    assert login ==> name[1..] == Base(path);
  }

  // ----- The functional specification -----

  function Dashed(name: string, login: bool): string {
    if login then "-" + name else name
  }

  lemma DashesName(name: string, login: bool)
    ensures Dashed(name, login) == if login then "-" + name else name
  {
  }

  /** The program, and the vector up to its NULL: the base name, `-c` and the command if there is one, and the
      arguments nothing else has consumed. */
  function ExecVector(argv: seq<Arg>, optind: nat, login: bool, shell: Option<string>, command: Option<string>)
    : (string, seq<Arg>)
    requires optind < |argv| && (command.Some? ==> shell.Some?)
  {
    var named := shell.None? && argv[optind].Some?;
    var binary := if shell.Some? then shell.value else if named then argv[optind].value else DEFAULT_SHELL;
    var rest := if named then argv[optind + 1..] else argv[optind..];
    (binary,
     [Some(Dashed(Base(binary), login))] + (if command.Some? then [Some("-c"), command] else []) + rest)
  }

  /** The vector after allow() has written to it. */
  lemma VectorIs(was: seq<Arg>, now: seq<Arg>, from: nat, binary: string, optind: nat, login: bool,
                 shell: Option<string>, command: Option<string>)
    requires optind < |was| == |now| && (command.Some? ==> shell.Some? && optind >= 3)
    requires binary == if shell.Some? then shell.value
                       else if was[optind].Some? then was[optind].value else DEFAULT_SHELL
    requires from == if command.Some? then optind - 3
                     else if shell.None? && was[optind].Some? then optind else optind - 1
    requires now[from] == Some(Dashed(Base(binary), login))
    requires command.Some? ==> now[from + 1] == Some("-c") && now[from + 2] == command
    requires forall i :: from + (if command.Some? then 3 else 1) <= i < |was| ==> now[i] == was[i]
    ensures (binary, now[from..]) == ExecVector(was, optind, login, shell, command)
  {
    hide Base, Dashed;
    var end := from + if command.Some? then 3 else 1;
    assert now[end..] == was[end..];
    assert now[from..] == now[from..end] + now[end..];
    assert now[from..end] == [Some(Dashed(Base(binary), login))]
                             + if command.Some? then [Some("-c"), command] else [];
  }
}
