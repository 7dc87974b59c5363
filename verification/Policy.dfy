/** The native policy check: the row callback and the query loop of db.c. */
module Policy {
  import opened CText
  import opened Decimal

  datatype Verdict = INTERACTIVE | DENY | ALLOW

  /** A row as sqlite3_exec hands it over: column texts, None for NULL. */
  type Texts = seq<Option<string>>

  const COLUMNS: seq<string> := ["policy", "until", "command"]

  /** A row of the query, in the column order the query asks for; `policy` is never NULL. */
  datatype Row = Row(policy: string, until: Option<string>, command: Option<string>) {
    function Texts(): Texts {
      [Some(policy), until, command]
    }

    function Until(): int {
      if until.None? then 0 else Atoi(until.value)
    }

    /** An empty or NULL command matches every command. */
    predicate Matches(cmd: string) {
      command.None? || command.value == "" || command.value == cmd
    }

    predicate Live(cmd: string, now: int) {
      Matches(cmd) && (Until() == 0 || Until() > now)
    }

    predicate Denies() {
      policy != "allow" && policy != "interactive"
    }
  }

  /** The declarative rule: a live denying row wins, then any live row allows, and without one the user is asked. */
  ghost function Rule(rows: seq<Row>, cmd: string, now: int): Verdict {
    if exists k :: 0 <= k < |rows| && rows[k].Live(cmd, now) && rows[k].Denies() then DENY
    else if exists k :: 0 <= k < |rows| && rows[k].Live(cmd, now) then ALLOW
    else INTERACTIVE
  }

  /** The same rule when the clock moves during the query: row `k` is looked at when it shows `clock[k]`. */
  ghost function RuleOver(rows: seq<Row>, cmd: string, clock: seq<int>): Verdict
    requires |clock| == |rows|
  {
    if exists k :: 0 <= k < |rows| && rows[k].Live(cmd, clock[k]) && rows[k].Denies() then DENY
    else if exists k :: 0 <= k < |rows| && rows[k].Live(cmd, clock[k]) then ALLOW
    else INTERACTIVE
  }

  /** `struct callback_data_t`: the command asked for, the time, and the policy so far. */
  class CallbackData {
    const cmd: string
    var policy: Verdict

    constructor (cmd: string)
      ensures this.cmd == cmd && policy == INTERACTIVE
    {
      this.cmd := cmd;
      this.policy := INTERACTIVE;
    }

    /** Returns non-zero, stopping the query, on a live denying row. */
    method DatabaseCallback(azColName: seq<string>, argv: Texts, now: int, ghost row: Row) returns (rc: int)
      requires azColName == COLUMNS && argv == row.Texts()
      modifies this
      ensures rc == if row.Live(cmd, now) && row.Denies() then -1 else 0
      ensures policy == if !row.Live(cmd, now) then old(policy) else if row.Denies() then DENY else ALLOW
      ensures row.Live(cmd, now) <==>
                && (row.command.None? || row.command.value == "" || row.command.value == cmd)
                && (row.until.None? || Atoi(row.until.value) == 0 || Atoi(row.until.value) > now)
      ensures row.Denies() <==> row.policy != "allow" && row.policy != "interactive"
    {
      var commandMatch := false;
      var rowPolicy := DENY;
      var until := 0;
      for i := 0 to |argv|
        invariant i > 0 ==> rowPolicy == if row.policy == "allow" then ALLOW
                                         else if row.policy == "interactive" then INTERACTIVE else DENY
        invariant until == if i > 1 then row.Until() else 0
        invariant i > 2 ==> commandMatch == row.Matches(cmd)
        invariant policy == old(policy)
      {
        if azColName[i] == "policy" {
          rowPolicy := if argv[i].value == "allow" then ALLOW
                       else if argv[i].value == "interactive" then INTERACTIVE else DENY;
        } else if azColName[i] == "command" {
          commandMatch := argv[i].None? || |argv[i].value| == 0 || argv[i].value == cmd;
        } else if azColName[i] == "until" {
          if argv[i].Some? { until := Atoi(argv[i].value); }
        }
      }
      if commandMatch && (until == 0 || until > now) {
        if rowPolicy == DENY {
          policy := DENY;
          return -1;
        }
        policy := ALLOW;
      }
      rc := 0;
    }
  }

  /** What the engine reports besides rows: failure to open, or an error after some rows. */
  datatype Engine = Engine(openFails: bool, errorAfter: Option<nat>)

  /** database_check; an aborted query leaves an error message too. */
  method DatabaseCheck(engine: Engine, rows: seq<Row>, cmd: string, clock: seq<int>) returns (verdict: Verdict)
    requires engine.errorAfter.Some? ==> engine.errorAfter.value <= |rows|
    requires |clock| == |rows|
    ensures verdict == if engine.openFails then INTERACTIVE
                       else if engine.errorAfter.Some? then DENY else RuleOver(rows, cmd, clock)
  {
    if engine.openFails { return INTERACTIVE; }
    var data := new CallbackData(cmd);
    var i := 0;
    while i < |rows|
      invariant 0 <= i <= |rows|
      invariant data.cmd == cmd && data.policy == RuleOver(rows[..i], cmd, clock[..i]) != DENY
      invariant engine.errorAfter.Some? ==> engine.errorAfter.value >= i
    {
      if engine.errorAfter == Some(i) { return DENY; }
      var rc := data.DatabaseCallback(COLUMNS, rows[i].Texts(), clock[i], rows[i]);
      RuleStep(rows, i, cmd, clock);
      if rc != 0 {
        RuleDenies(rows, i, cmd, clock);
        return DENY;
      }
      i := i + 1;
    }
    if engine.errorAfter == Some(i) { return DENY; }
    assert rows[..i] == rows && clock[..i] == clock;
    verdict := data.policy;
  }

  lemma RuleDenies(rows: seq<Row>, i: nat, cmd: string, clock: seq<int>)
    requires i < |rows| == |clock| && rows[i].Live(cmd, clock[i]) && rows[i].Denies()
    ensures RuleOver(rows, cmd, clock) == DENY
  {
  }

  lemma RuleStep(rows: seq<Row>, i: nat, cmd: string, clock: seq<int>)
    requires i < |rows| == |clock| && RuleOver(rows[..i], cmd, clock[..i]) != DENY
    ensures RuleOver(rows[..i + 1], cmd, clock[..i + 1])
         == if !rows[i].Live(cmd, clock[i]) then RuleOver(rows[..i], cmd, clock[..i])
            else if rows[i].Denies() then DENY else ALLOW
  {
    var a, b := rows[..i], rows[..i + 1];
    assert forall k :: 0 <= k < i ==> b[k] == a[k] && clock[..i + 1][k] == clock[..i][k];
    assert b[i] == rows[i] && clock[..i + 1][i] == clock[i];
  }

  /** A clock that stands still leaves the rule for one point in time. */
  lemma SteadyClock(rows: seq<Row>, cmd: string, clock: seq<int>, now: int)
    requires |clock| == |rows| && forall k :: 0 <= k < |rows| ==> clock[k] == now
    ensures RuleOver(rows, cmd, clock) == Rule(rows, cmd, now)
  {
  }

  // ----- Rows that say "interactive" -----

  /** The user is not asked although the only row says so. */
  lemma InteractiveAllows(cmd: string, now: int)
    ensures Rule([Row("interactive", None, None)], cmd, now) == ALLOW
  {
    var rows := [Row("interactive", None, None)];
    assert rows[0].Live(cmd, now) && !rows[0].Denies();
  }

  /** A request is allowed without a live "allow" row exactly when there are live rows and all say "interactive". */
  lemma AllowedWithoutAllowIff(rows: seq<Row>, cmd: string, now: int)
    ensures Rule(rows, cmd, now) == ALLOW
            && !(exists k :: 0 <= k < |rows| && rows[k].Live(cmd, now) && rows[k].policy == "allow")
            <==> (exists k :: 0 <= k < |rows| && rows[k].Live(cmd, now))
                 && forall k :: 0 <= k < |rows| && rows[k].Live(cmd, now) ==> rows[k].policy == "interactive"
  {
    if exists k :: 0 <= k < |rows| && rows[k].Live(cmd, now) && rows[k].Denies() {
      var k :| 0 <= k < |rows| && rows[k].Live(cmd, now) && rows[k].Denies();
      assert rows[k].policy != "interactive";
    }
  }

  /** The order of the rows does not matter. */
  lemma RuleIgnoresOrder(a: seq<Row>, b: seq<Row>, cmd: string, now: int)
    requires multiset(a) == multiset(b)
    ensures Rule(a, cmd, now) == Rule(b, cmd, now)
  {
    SameRows(a, b);
    SameRows(b, a);
    RuleCarries(a, b, cmd, now);
    RuleCarries(b, a, cmd, now);
  }

  lemma RuleCarries(a: seq<Row>, b: seq<Row>, cmd: string, now: int)
    requires forall k :: 0 <= k < |a| ==> a[k] in b
    ensures Rule(a, cmd, now) == DENY ==> Rule(b, cmd, now) == DENY
    ensures Rule(a, cmd, now) == ALLOW ==> Rule(b, cmd, now) != INTERACTIVE
  {
    if Rule(a, cmd, now) == DENY {
      var k :| 0 <= k < |a| && a[k].Live(cmd, now) && a[k].Denies();
      var j :| 0 <= j < |b| && b[j] == a[k];
      assert b[j].Live(cmd, now) && b[j].Denies();
    } else if Rule(a, cmd, now) == ALLOW {
      var k :| 0 <= k < |a| && a[k].Live(cmd, now);
      var j :| 0 <= j < |b| && b[j] == a[k];
      assert b[j].Live(cmd, now);
    }
  }

  lemma SameRows(a: seq<Row>, b: seq<Row>)
    requires multiset(a) == multiset(b)
    ensures forall k :: 0 <= k < |a| ==> a[k] in b
  {
    forall k | 0 <= k < |a|
      ensures a[k] in b
    {
      assert a[k] in multiset(a);
      assert a[k] in multiset(b);
    }
  }
}
