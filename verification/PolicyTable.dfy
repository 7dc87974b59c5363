/** The app's policy table: SuDatabaseHelper over the rows of `uid_policy`. */
module PolicyTable {
  import opened CText

  datatype Info = Info(name: Option<string>, packageName: Option<string>, desiredName: Option<string>,
                       username: Option<string>)

  /** A UidPolicy, which is also a row; before version 6 a row's command may be NULL. */
  datatype UidPolicy = UidPolicy(uid: int, command: Option<string>, desiredUid: int, policy: string, until: int,
                                 logging: bool, notification: bool, info: Info)
  {
    /** The primary key. NULL commands equal nothing, not even each other. */
    predicate SameKey(r: UidPolicy) {
      uid == r.uid && desiredUid == r.desiredUid && command.Some? && command == r.command
    }

    /** setPolicy stores a missing command as the empty one. */
    function Normalised(): (r: UidPolicy)
      ensures r.command.Some?
    {
      if command.None? then this.(command := Some("")) else this
    }
  }

  type Rows = seq<UidPolicy>

  /** The WHERE clauses in use. */
  datatype Where = All | Expired(nowMillis: int) | Target(uid: int, command: string, desiredUid: int)
                 | AnyCommand(uid: int, desiredUid: int) | Key(row: UidPolicy)
  {
    predicate Hits(r: UidPolicy) {
      match this
      case All => true
      case Expired(now) => 0 < r.until < now
      case Target(u, c, d) => r.uid == u && r.command == Some(c) && r.desiredUid == d
      case AnyCommand(u, d) => r.uid == u && r.desiredUid == d
      case Key(k) => k.SameKey(r)
    }
  }

  function Remove(rows: Rows, w: Where): Rows {
    if rows == [] then []
    else (if w.Hits(rows[0]) then [] else [rows[0]]) + Remove(rows[1..], w)
  }

  function Select(rows: Rows, w: Where): Rows {
    if rows == [] then []
    else (if w.Hits(rows[0]) then [rows[0]] else []) + Select(rows[1..], w)
  }

  /** Row `i` is hit and no row before it. */
  predicate FirstHit(rows: Rows, w: Where, i: nat) {
    i < |rows| && w.Hits(rows[i]) && forall k :: 0 <= k < i ==> !w.Hits(rows[k])
  }

  /** INSERT OR REPLACE of the normalised policy. */
  function Put(rows: Rows, p: UidPolicy): Rows {
    Remove(rows, Key(p.Normalised())) + [p.Normalised()]
  }

  function PutAll(rows: Rows, ps: Rows): Rows
    decreases |ps|
  {
    if ps == [] then rows else PutAll(Put(rows, ps[0]), ps[1..])
  }

  /** The clause of both `delete` and `get`: an empty command stands for all of them. */
  function CommandClause(uid: int, desiredUid: int, command: Option<string>): Where {
    if command.Some? && command.value != "" then Target(uid, command.value, desiredUid) else AnyCommand(uid, desiredUid)
  }

  /** A row of this uid and desired uid, with this command if one is given. */
  predicate Asked(r: UidPolicy, uid: int, desiredUid: int, command: Option<string>) {
    && r.uid == uid && r.desiredUid == desiredUid
    && (command == None || command == Some("") || r.command == command)
  }

  lemma ClauseMeaning(uid: int, desiredUid: int, command: Option<string>)
    ensures forall r :: CommandClause(uid, desiredUid, command).Hits(r) <==> Asked(r, uid, desiredUid, command)
  {
  }

  /** String.valueOf turns a null command into this text. */
  function ValueOf(command: Option<string>): string {
    if command.None? then "null" else command.value
  }

  const CURRENT_VERSION := 6

  class SuDatabase {
    var rows: Rows

    constructor (rows: Rows)
      ensures this.rows == rows
    {
      this.rows := rows;
    }

    /** The row is stored with an empty command for none, in place of the one with the same uid, command and desired
        uid. */
    method SetPolicy(policy: UidPolicy)
      modifies this
      ensures rows == Put(old(rows), policy)
      ensures var command := if policy.command.None? then Some("") else policy.command;
              forall r :: r in rows <==>
                r == policy.(command := command)
                || (r in old(rows)
                    && !(r.uid == policy.uid && r.command == command && r.desiredUid == policy.desiredUid))
    {
      PutMembers(rows, policy);
      var p := policy;
      if p.command.None? { p := p.(command := Some("")); }
      rows := Remove(rows, Key(p)) + [p];
    }

    /** Purges, then reads the whole table through the cursor. */
    method GetPolicies(nowMillis: int) returns (ret: Rows)
      modifies this
      ensures rows == Remove(old(rows), Expired(nowMillis)) && ret == rows
      ensures forall r :: r in rows <==> r in old(rows) && !(r.until > 0 && r.until < nowMillis)
    {
      PurgeMembers(rows, nowMillis);
      hide Remove;
      rows := Remove(rows, Expired(nowMillis));
      ret := [];
      var c := 0;
      while c < |rows|
        invariant 0 <= c <= |rows| && ret == rows[..c]
      {
        ret := ret + [rows[c]];
        c := c + 1;
      }
    }

    method Get(uid: int, desiredUid: int, command: Option<string>) returns (r: Option<UidPolicy>)
      ensures r == None <==> forall q :: q in rows ==> !Asked(q, uid, desiredUid, command)
      ensures r.Some? ==> r.value in rows && Asked(r.value, uid, desiredUid, command)
      ensures r == None <==> forall k :: 0 <= k < |rows| ==> !CommandClause(uid, desiredUid, command).Hits(rows[k])
      ensures r.Some? ==> exists i: nat :: FirstHit(rows, CommandClause(uid, desiredUid, command), i)
                                           && r.value == rows[i]
    {
      ghost var w := CommandClause(uid, desiredUid, command);
      var c: Rows;
      if command.Some? && command.value != "" {
        c := Select(rows, Target(uid, command.value, desiredUid));
      } else {
        c := Select(rows, AnyCommand(uid, desiredUid));
      }
      SelectFirst(rows, w);
      ClauseMeaning(uid, desiredUid, command);
      if c == [] { return None; }
      r := Some(c[0]);
    }

    method Delete(policy: UidPolicy) returns (gone: bool)
      modifies this
      ensures rows == Remove(old(rows), CommandClause(policy.uid, policy.desiredUid, policy.command))
      ensures forall r :: r in rows <==> r in old(rows) && !Asked(r, policy.uid, policy.desiredUid, policy.command)
      ensures gone
    {
      if policy.command.Some? && policy.command.value != "" {
        rows := Remove(rows, Target(policy.uid, policy.command.value, policy.desiredUid));
      } else {
        rows := Remove(rows, AnyCommand(policy.uid, policy.desiredUid));
      }
      var policyEval := Get(policy.uid, policy.desiredUid, Some(ValueOf(policy.command)));
      DeletedIsGone(old(rows), policy);
      ClauseMeaning(policy.uid, policy.desiredUid, policy.command);
      SelectFirst(rows, CommandClause(policy.uid, policy.desiredUid, Some(ValueOf(policy.command))));
      gone := policyEval.None?;
    }

    /** The part of onUpgrade that concerns `uid_policy`; `oldVersion` 0 creates the table. */
    method OnUpgrade(oldVersion: int, nowMillis: int)
      requires 0 <= oldVersion <= CURRENT_VERSION
      requires oldVersion == 0 ==> rows == []
      modifies this
      ensures rows == if oldVersion == CURRENT_VERSION then old(rows)
                      else UpgradedRows(if oldVersion < 5 then Notified(old(rows)) else old(rows), nowMillis)
      ensures oldVersion < 5 ==> forall r :: r in rows ==> r.notification
    {
      var version := oldVersion;
      if version == 0 { version := 4; }
      if version == 1 || version == 2 { version := 3; }
      if version == 3 { version := 4; }
      if version == 4 {
        rows := Notified(rows);
        version := 5;
      }
      if version == 5 {
        var policies := GetPolicies(nowMillis);
        rows := Remove(rows, All);
        RemoveAll(policies);
        for i := 0 to |policies|
          invariant PutAll(rows, policies[i..]) == PutAll([], policies)
        {
          assert policies[i..][1..] == policies[i + 1..];
          SetPolicy(policies[i]);
        }
        version := 6;
      }
      if oldVersion < 5 { UpgradeNotifies(old(rows), nowMillis); }
    }
  }

  /** The column added by version 5, set to 1 everywhere. */
  function Notified(rows: Rows): Rows {
    seq(|rows|, i requires 0 <= i < |rows| => rows[i].(notification := true))
  }

  /** The migration to version 6. */
  function UpgradedRows(rows: Rows, nowMillis: int): Rows {
    PutAll([], Remove(rows, Expired(nowMillis)))
  }

  // ----- What the clauses keep -----

  lemma {:induction false} RemoveKeeps(rows: Rows, w: Where, r: UidPolicy)
    ensures r in Remove(rows, w) <==> r in rows && !w.Hits(r)
  {
    if rows != [] {
      RemoveKeeps(rows[1..], w, r);
      assert r in rows <==> r == rows[0] || r in rows[1..];
    }
  }

  lemma PutMembers(rows: Rows, policy: UidPolicy)
    ensures var command := if policy.command.None? then Some("") else policy.command;
            forall r :: r in Put(rows, policy) <==>
              r == policy.(command := command)
              || (r in rows && !(r.uid == policy.uid && r.command == command && r.desiredUid == policy.desiredUid))
  {
    var p := policy.Normalised();
    forall r
      ensures r in Put(rows, policy) <==> r == p || (r in rows && !p.SameKey(r))
    {
      RemoveKeeps(rows, Key(p), r);
    }
  }

  lemma PurgeMembers(rows: Rows, nowMillis: int)
    ensures forall r :: r in Remove(rows, Expired(nowMillis)) <==> r in rows && !(r.until > 0 && r.until < nowMillis)
  {
    forall r
      ensures r in Remove(rows, Expired(nowMillis)) <==> r in rows && !Expired(nowMillis).Hits(r)
    {
      RemoveKeeps(rows, Expired(nowMillis), r);
    }
  }

  lemma {:induction false} SelectHits(rows: Rows, w: Where, r: UidPolicy)
    ensures r in Select(rows, w) <==> r in rows && w.Hits(r)
  {
    if rows != [] {
      SelectHits(rows[1..], w, r);
      assert r in rows <==> r == rows[0] || r in rows[1..];
    }
  }

  /** A selection is empty exactly when nothing is hit, and starts with the first row hit. */
  lemma {:induction false} SelectFirst(rows: Rows, w: Where)
    ensures Select(rows, w) == [] <==> forall k :: 0 <= k < |rows| ==> !w.Hits(rows[k])
    ensures Select(rows, w) != [] ==> exists i: nat :: FirstHit(rows, w, i) && Select(rows, w)[0] == rows[i]
  {
    if rows != [] {
      if w.Hits(rows[0]) {
        assert FirstHit(rows, w, 0);
      } else {
        var rest := rows[1..];
        SelectFirst(rest, w);
        assert forall k :: 0 <= k < |rest| ==> rest[k] == rows[k + 1];
        assert forall k :: 1 <= k < |rows| ==> rows[k] == rest[k - 1];
        if Select(rest, w) != [] {
          var i: nat :| FirstHit(rest, w, i) && Select(rest, w)[0] == rest[i];
          assert FirstHit(rows, w, i + 1);
        }
      }
    }
  }

  lemma {:induction false} RemoveAll(rows: Rows)
    ensures Remove(rows, All) == []
  {
    if rows != [] { RemoveAll(rows[1..]); }
  }

  /** `delete` removes exactly its target set, and `get` finds nothing there afterwards. */
  lemma DeletedIsGone(rows: Rows, policy: UidPolicy)
    ensures var w := CommandClause(policy.uid, policy.desiredUid, policy.command);
            && (forall r :: r in Remove(rows, w) <==> r in rows && !w.Hits(r))
            && (forall r :: r in Remove(rows, w) <==>
                  r in rows && !Asked(r, policy.uid, policy.desiredUid, policy.command))
            && Select(Remove(rows, w),
                      CommandClause(policy.uid, policy.desiredUid, Some(ValueOf(policy.command)))) == []
            && Select(Remove(rows, w), w) == []
  {
    var w := CommandClause(policy.uid, policy.desiredUid, policy.command);
    var check := CommandClause(policy.uid, policy.desiredUid, Some(ValueOf(policy.command)));
    forall r
      ensures r in Remove(rows, w) <==> r in rows && !w.Hits(r)
      ensures r in Select(Remove(rows, w), check) ==> r in Remove(rows, w) && check.Hits(r)
      ensures r in Select(Remove(rows, w), w) ==> r in Remove(rows, w) && w.Hits(r)
    {
      RemoveKeeps(rows, w, r);
      SelectHits(Remove(rows, w), check, r);
      SelectHits(Remove(rows, w), w, r);
    }
    ClauseMeaning(policy.uid, policy.desiredUid, policy.command);
    assert forall r :: check.Hits(r) ==> w.Hits(r);
    NoMembers(Select(Remove(rows, w), check));
    NoMembers(Select(Remove(rows, w), w));
  }

  lemma NoMembers(rows: Rows)
    ensures (forall r :: r !in rows) ==> rows == []
  {
    if rows != [] { assert rows[0] in rows; }
  }

  // ----- The table invariant -----

  predicate DistinctKeys(rows: Rows) {
    forall i, j :: 0 <= i < j < |rows| && rows[i].command.Some? ==>
      !(rows[i].uid == rows[j].uid && rows[i].command == rows[j].command && rows[i].desiredUid == rows[j].desiredUid)
  }

  /** No NULL command, and one row for each key. */
  predicate Sound(rows: Rows) {
    (forall i :: 0 <= i < |rows| ==> rows[i].command.Some?) && DistinctKeys(rows)
  }

  lemma {:induction false} RemoveSound(rows: Rows, w: Where)
    requires Sound(rows)
    ensures Sound(Remove(rows, w))
  {
    hide Where.Hits;
    if rows != [] {
      SoundRest(rows);
      RemoveSound(rows[1..], w);
      if !w.Hits(rows[0]) {
        var rest := Remove(rows[1..], w);
        forall j | 0 <= j < |rest|
          ensures !rows[0].SameKey(rest[j])
        {
          RemoveKeeps(rows[1..], w, rest[j]);
        }
        SoundBefore(rows[0], rest);
      }
    }
  }

  lemma SoundRest(rows: Rows)
    requires rows != [] && Sound(rows)
    ensures Sound(rows[1..]) && rows[0].command.Some? && forall r :: r in rows[1..] ==> !rows[0].SameKey(r)
  {
  }

  lemma SoundBefore(first: UidPolicy, rest: Rows)
    requires Sound(rest) && first.command.Some? && forall j :: 0 <= j < |rest| ==> !first.SameKey(rest[j])
    ensures Sound([first] + rest)
  {
  }

  lemma PutSound(rows: Rows, p: UidPolicy)
    requires Sound(rows)
    ensures Sound(Put(rows, p))
  {
    var r := p.Normalised();
    var kept := Remove(rows, Key(r));
    RemoveSound(rows, Key(r));
    forall j | 0 <= j < |kept|
      ensures !kept[j].SameKey(r)
    {
      RemoveKeeps(rows, Key(r), kept[j]);
    }
  }

  lemma {:induction false} PutAllSound(rows: Rows, ps: Rows)
    requires Sound(rows)
    ensures Sound(PutAll(rows, ps))
    decreases |ps|
  {
    if ps != [] {
      PutSound(rows, ps[0]);
      PutAllSound(Put(rows, ps[0]), ps[1..]);
    }
  }

  /** What the app does to the table after the upgrade. */
  datatype Op = DoSet(policy: UidPolicy) | DoDelete(policy: UidPolicy) | DoList(nowMillis: int)

  function Apply(rows: Rows, op: Op): Rows {
    match op
    case DoSet(p) => Put(rows, p)
    case DoDelete(p) => Remove(rows, CommandClause(p.uid, p.desiredUid, p.command))
    case DoList(now) => Remove(rows, Expired(now))
  }

  function Run(rows: Rows, ops: seq<Op>): Rows
    decreases |ops|
  {
    if ops == [] then rows else Run(Apply(rows, ops[0]), ops[1..])
  }

  lemma ApplySound(rows: Rows, op: Op)
    requires Sound(rows)
    ensures Sound(Apply(rows, op))
  {
    match op
    case DoSet(p) => PutSound(rows, p);
    case DoDelete(p) => RemoveSound(rows, CommandClause(p.uid, p.desiredUid, p.command));
    case DoList(now) => RemoveSound(rows, Expired(now));
  }

  lemma {:induction false} RunSound(rows: Rows, ops: seq<Op>)
    requires Sound(rows)
    ensures Sound(Run(rows, ops))
    decreases |ops|
  {
    if ops != [] {
      ApplySound(rows, ops[0]);
      RunSound(Apply(rows, ops[0]), ops[1..]);
    }
  }

  /** From any version-5 table, the upgrade and every run after it keep the invariant. */
  lemma UpgradeThenRunSound(rows: Rows, nowMillis: int, ops: seq<Op>)
    ensures Sound(Run(UpgradedRows(rows, nowMillis), ops))
  {
    PutAllSound([], Remove(rows, Expired(nowMillis)));
    RunSound(UpgradedRows(rows, nowMillis), ops);
  }

  /** The operations that leave row `r` alone; a listing does unless its purge hits the row. */
  predicate Spares(op: Op, r: UidPolicy) {
    match op
    case DoSet(p) =>
      !(r.uid == p.uid && r.desiredUid == p.desiredUid && r.command == if p.command.None? then Some("") else p.command)
    case DoDelete(p) => !Asked(r, p.uid, p.desiredUid, p.command)
    case DoList(now) => r.until <= 0 || now <= r.until
  }

  predicate AllSpare(ops: seq<Op>, r: UidPolicy) {
    forall k :: 0 <= k < |ops| ==> Spares(ops[k], r)
  }

  lemma ApplySpares(rows: Rows, op: Op, r: UidPolicy)
    requires r in rows
    ensures Spares(op, r) ==> r in Apply(rows, op)
    ensures !Spares(op, r) && r in Apply(rows, op) ==> op.DoSet? && op.policy.Normalised() == r
  {
    match op {
      case DoSet(p) => RemoveKeeps(rows, Key(p.Normalised()), r);
      case DoDelete(p) =>
        ClauseMeaning(p.uid, p.desiredUid, p.command);
        RemoveKeeps(rows, CommandClause(p.uid, p.desiredUid, p.command), r);
      case DoList(now) => RemoveKeeps(rows, Expired(now), r);
    }
  }

  /** A row leaves a run only by being overwritten, deleted or purged. */
  lemma {:induction false} RowStays(rows: Rows, ops: seq<Op>, r: UidPolicy)
    requires r in rows && AllSpare(ops, r)
    ensures r in Run(rows, ops)
    decreases |ops|
  {
    if ops != [] {
      ApplySpares(rows, ops[0], r);
      RowStays(Apply(rows, ops[0]), ops[1..], r);
    }
  }

  /** The purge never drops a permanent row, over whole runs. */
  lemma PermanentRowStays(rows: Rows, ops: seq<Op>, r: UidPolicy)
    requires r in rows && r.until == 0
    requires forall k :: 0 <= k < |ops| ==> ops[k].DoList? || Spares(ops[k], r)
    ensures r in Run(rows, ops)
  {
    RowStays(rows, ops, r);
  }

  // ----- What the upgrade keeps -----

  /** The last entry for its normalised key. */
  predicate LastForKey(ps: Rows, i: nat)
    requires i < |ps|
  {
    forall j :: i < j < |ps| ==> !ps[i].Normalised().SameKey(ps[j].Normalised())
  }

  ghost predicate IsLast(ps: Rows, r: UidPolicy) {
    exists i :: 0 <= i < |ps| && r == ps[i].Normalised() && LastForKey(ps, i)
  }

  predicate NoneFor(ps: Rows, r: UidPolicy) {
    forall j :: 0 <= j < |ps| ==> !ps[j].Normalised().SameKey(r)
  }

  lemma IsLastStep(ps: Rows, r: UidPolicy)
    requires ps != []
    ensures IsLast(ps, r) <==> IsLast(ps[1..], r) || (r == ps[0].Normalised() && NoneFor(ps[1..], r))
    ensures NoneFor(ps, r) <==> !ps[0].Normalised().SameKey(r) && NoneFor(ps[1..], r)
  {
    forall i | 0 <= i < |ps| - 1
      ensures LastForKey(ps[1..], i) == LastForKey(ps, i + 1)
    {
      assert forall j :: i < j < |ps| - 1 ==> ps[1..][j] == ps[j + 1];
      assert forall j :: i + 1 < j < |ps| ==> ps[j] == ps[1..][j - 1];
    }
    assert forall j :: 1 <= j < |ps| ==> ps[j] == ps[1..][j - 1];
    assert LastForKey(ps, 0) <==> NoneFor(ps[1..], ps[0].Normalised());
    if IsLast(ps, r) {
      var i :| 0 <= i < |ps| && r == ps[i].Normalised() && LastForKey(ps, i);
      if i > 0 { assert LastForKey(ps[1..], i - 1); }
    }
    if IsLast(ps[1..], r) {
      var i :| 0 <= i < |ps| - 1 && r == ps[1..][i].Normalised() && LastForKey(ps[1..], i);
      assert LastForKey(ps, i + 1);
    }
  }

  lemma {:induction false} PutAllKeepsLast(rows: Rows, ps: Rows, r: UidPolicy)
    ensures r in PutAll(rows, ps) <==> IsLast(ps, r) || (r in rows && NoneFor(ps, r))
    decreases |ps|
  {
    if ps != [] {
      hide IsLast, NoneFor;
      var p := ps[0].Normalised();
      PutAllKeepsLast(Put(rows, ps[0]), ps[1..], r);
      RemoveKeeps(rows, Key(p), r);
      assert r in Put(rows, ps[0]) <==> r == p || (r in rows && !p.SameKey(r));
      IsLastStep(ps, r);
    }
  }

  /** The upgrade keeps exactly the last surviving row for each normalised key. */
  lemma UpgradeKeepsLast(rows: Rows, nowMillis: int, r: UidPolicy)
    ensures r in UpgradedRows(rows, nowMillis) <==> IsLast(Remove(rows, Expired(nowMillis)), r)
  {
    PutAllKeepsLast([], Remove(rows, Expired(nowMillis)), r);
  }

  lemma NotifiedMembers(rows: Rows)
    ensures |Notified(rows)| == |rows|
    ensures forall i :: 0 <= i < |rows| ==> Notified(rows)[i] == rows[i].(notification := true)
  {
  }

  /** Coming from before version 5, every row notifies. */
  lemma UpgradeNotifies(rows: Rows, nowMillis: int)
    ensures forall r :: r in UpgradedRows(Notified(rows), nowMillis) ==> r.notification
  {
    var kept := Remove(Notified(rows), Expired(nowMillis));
    forall r | r in UpgradedRows(Notified(rows), nowMillis)
      ensures r.notification
    {
      UpgradeKeepsLast(Notified(rows), nowMillis, r);
      var i :| 0 <= i < |kept| && r == kept[i].Normalised();
      RemoveKeeps(Notified(rows), Expired(nowMillis), kept[i]);
    }
  }

  // ----- What the purge drops -----

  /** Expiry as the native check means it: `until` is in seconds, and only 0 is for ever. */
  predicate TrulyExpired(r: UidPolicy, nowMillis: int) {
    !(r.until == 0 || r.until > nowMillis / 1000)
  }

  /** The purge compares seconds with milliseconds and skips negative times. It agrees with expiry exactly for permanent
      rows and, of the rows with a positive time, outside a band of live ones. */
  lemma PurgeIff(rows: Rows, nowMillis: int, r: UidPolicy)
    requires r in rows && nowMillis >= 0
    ensures (r in Remove(rows, Expired(nowMillis)) <==> !TrulyExpired(r, nowMillis))
            <==> r.until == 0 || (0 < r.until && (r.until * 1000 <= nowMillis || nowMillis <= r.until))
  {
    RemoveKeeps(rows, Expired(nowMillis), r);
    assert r.until > nowMillis / 1000 <==> r.until * 1000 > nowMillis;
  }

  /** A row with a negative time is dead to the native check, yet no listing ever drops it. */
  lemma NegativeRowStays(rows: Rows, ops: seq<Op>, r: UidPolicy, nowMillis: int)
    requires r in rows && r.until < 0 && nowMillis >= 0
    requires forall k :: 0 <= k < |ops| ==> ops[k].DoList? || Spares(ops[k], r)
    ensures TrulyExpired(r, nowMillis) && r in Run(rows, ops)
  {
    RowStays(rows, ops, r);
  }

  /** A ten-minute grant is dropped by the first listing after it is made. */
  lemma LiveGrantPurged(p: UidPolicy, nowMillis: int)
    requires nowMillis >= 1_000_000 && p.until == nowMillis / 1000 + 600
    ensures !TrulyExpired(p, nowMillis) && p !in Remove([p], Expired(nowMillis))
  {
    RemoveKeeps([p], Expired(nowMillis), p);
  }
}
