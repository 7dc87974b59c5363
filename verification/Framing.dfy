/** The request su sends to the app: length-prefixed pairs, the sender's writes and the receiver's bounded loop. */
module Framing {
  import opened CText
  import opened Decimal

  // ----- Four-byte lengths -----

  /** htonl of a length, as the four bytes written. */
  function PutInt(n: nat): (s: string)
    ensures |s| == 4
  {
    [(n / 0x100_0000 % 0x100) as char, (n / 0x1_0000 % 0x100) as char, (n / 0x100 % 0x100) as char, (n % 0x100) as char]
  }

  /** DataInputStream.readInt: a signed big-endian int. */
  function GetInt(s: string): int
    requires |s| == 4
  {
    var n := ((s[0] as int * 0x100 + s[1] as int) * 0x100 + s[2] as int) * 0x100 + s[3] as int;
    if n < INT_LIMIT then n else n - 2 * INT_LIMIT
  }

  lemma GetPut(n: nat)
    requires n < INT_LIMIT
    ensures GetInt(PutInt(n)) == n
  {
    var a, b, c := n / 0x100_0000, n / 0x1_0000, n / 0x100;
    assert n == c * 0x100 + n % 0x100;
    assert c == b * 0x100 + c % 0x100;
    assert b == a * 0x100 + b % 0x100;
    assert a % 0x100 == a;
  }

  // ----- What is sent -----

  type Pair = (string, string)

  function Frame(s: string): string {
    PutInt(|s|) + s
  }

  function PairBytes(p: Pair): string {
    Frame(p.0) + Frame(p.1)
  }

  function Encode(pairs: seq<Pair>): string {
    if pairs == [] then "" else PairBytes(pairs[0]) + Encode(pairs[1..])
  }

  const PROTO_VERSION := 1
  const VERSION_CODE := 16

  /** The parts of `struct su_context` that are sent; uids are unsigned. */
  datatype Context = Context(pid: int, fromUid: int, fromName: string, fromBin: string,
                             toUid: int, toName: string, command: string)
  {
    predicate Valid() {
      && IsInt32(pid) && 0 <= fromUid < 2 * INT_LIMIT && 0 <= toUid < 2 * INT_LIMIT
      && |fromName| < INT_LIMIT && |fromBin| < INT_LIMIT && |toName| < INT_LIMIT && |command| < INT_LIMIT
    }

    function Pairs(): (ps: seq<Pair>)
      requires Valid()
      ensures |ps| == 10
    {
      [("version", FormatInt(PROTO_VERSION)),
       ("binary.version", FormatInt(VERSION_CODE)),
       ("pid", FormatInt(pid)),
       ("from.name", fromName),
       ("to.name", toName),
       ("from.uid", FormatInt(ToSigned(fromUid))),
       ("to.uid", FormatInt(ToSigned(toUid))),
       ("from.bin", fromBin),
       ("command", command),
       ("eof", FormatInt(PROTO_VERSION))]
    }
  }

  /** A socket as its writer sees it: a write may stop short or fail. */
  class Channel {
    var sent: string

    constructor ()
      ensures sent == ""
    {
      sent := "";
    }

    method Write(data: string) returns (n: int)
      modifies this
      ensures -1 <= n <= |data|
      ensures sent == old(sent) + if n < 0 then "" else data[..n]
    {
      n :| -1 <= n <= |data|;
      if n >= 0 { sent := sent + data[..n]; }
    }

    /** The macro `write_data`; on failure a prefix has gone out, a proper one when there was data. */
    method WriteData(data: string) returns (ok: bool, ghost k: nat)
      modifies this
      ensures k <= |Frame(data)| && sent == old(sent) + Frame(data)[..k]
      ensures ok ==> k == |Frame(data)|
      ensures !ok && data != "" ==> k < |Frame(data)|
    {
      var n := Write(PutInt(|data|));
      if n != 4 {
        k := if n < 0 then 0 else n;
        assert Frame(data)[..k] == PutInt(|data|)[..k];
        return false, k;
      }
      ghost var header := sent;
      n := Write(data);
      k := 4 + if n < 0 then 0 else n;
      assert Frame(data)[..k] == PutInt(|data|) + data[..k - 4];
      ok := n == |data|;
    }

    /** The macro `write_string_data`. */
    method WritePair(name: string, data: string) returns (ok: bool, ghost k: nat)
      modifies this
      ensures k <= |PairBytes((name, data))| && sent == old(sent) + PairBytes((name, data))[..k]
      ensures ok ==> k == |PairBytes((name, data))|
      ensures !ok && data != "" ==> k < |PairBytes((name, data))|
    {
      ok, k := WriteData(name);
      assert PairBytes((name, data))[..k] == Frame(name)[..k];
      if !ok { return; }
      ghost var more: nat;
      ok, more := WriteData(data);
      k := |Frame(name)| + more;
      assert PairBytes((name, data))[..k] == Frame(name) + Frame(data)[..more];
    }

    /** Pair `i` of a list whose first `i` pairs are out; what is out stays a prefix of the whole. */
    method WriteNext(ghost pairs: seq<Pair>, ghost i: nat, name: string, data: string, ghost before: string)
      returns (ok: bool)
      requires i < |pairs| && pairs[i] == (name, data)
      requires sent == before + Encode(pairs[..i])
      modifies this
      ensures ok ==> sent == before + Encode(pairs[..i + 1])
      ensures !ok ==> exists k: nat :: PrefixOut(sent, before, Encode(pairs), k)
                                       && (i + 1 < |pairs| || data != "" ==> k < |Encode(pairs)|)
    {
      ghost var k: nat;
      ok, k := WritePair(name, data);
      EncodeSplit(pairs, i);
      Regroup(before, Encode(pairs[..i]), PairBytes(pairs[i])[..k]);
      if ok {
        assert PairBytes(pairs[i])[..k] == PairBytes(pairs[i]);
      } else {
        ghost var m := |Encode(pairs[..i])| + k;
        assert Encode(pairs)[..m] == Encode(pairs[..i]) + PairBytes(pairs[i])[..k];
        assert PrefixOut(sent, before, Encode(pairs), m);
      }
    }
  }

  predicate PrefixOut(sent: string, before: string, all: string, k: nat) {
    k <= |all| && sent == before + all[..k]
  }

  lemma {:induction false} EncodeConcat(a: seq<Pair>, b: seq<Pair>)
    ensures Encode(a + b) == Encode(a) + Encode(b)
  {
    hide PairBytes;
    if a == [] {
      assert a + b == b;
    } else {
      EncodeConcat(a[1..], b);
      assert (a + b)[1..] == a[1..] + b;
      Regroup(PairBytes(a[0]), Encode(a[1..]), Encode(b));
    }
  }

  /** The encoding around pair `i`. */
  lemma EncodeSplit(pairs: seq<Pair>, i: nat)
    requires i < |pairs|
    ensures Encode(pairs[..i + 1]) == Encode(pairs[..i]) + PairBytes(pairs[i])
    ensures Encode(pairs) == Encode(pairs[..i]) + PairBytes(pairs[i]) + Encode(pairs[i + 1..])
    ensures i + 1 < |pairs| ==> Encode(pairs[i + 1..]) != ""
  {
    hide PairBytes, Encode;
    EncodeOne(pairs[i]);
    assert pairs[..i + 1] == pairs[..i] + [pairs[i]];
    EncodeConcat(pairs[..i], [pairs[i]]);
    assert pairs == pairs[..i + 1] + pairs[i + 1..];
    EncodeConcat(pairs[..i + 1], pairs[i + 1..]);
    if i + 1 < |pairs| { EncodeNotEmpty(pairs[i + 1..]); }
  }

  lemma EncodeOne(p: Pair)
    ensures Encode([p]) == PairBytes(p)
  {
    assert [p][1..] == [];
  }

  lemma EncodeNotEmpty(pairs: seq<Pair>)
    requires pairs != []
    ensures Encode(pairs) != ""
  {
    assert |PairBytes(pairs[0])| >= 8;
  }

  /** socket_send_request: 0 when all ten pairs are out, -1 when only a proper prefix is. */
  method SocketSendRequest(fd: Channel, ctx: Context) returns (r: int)
    requires ctx.Valid()
    modifies fd
    ensures r == 0 || r == -1
    ensures r == 0 ==> fd.sent == old(fd.sent) + Encode(ctx.Pairs())
    ensures r == -1 ==> exists k: nat :: PrefixOut(fd.sent, old(fd.sent), Encode(ctx.Pairs()), k)
                                         && k < |Encode(ctx.Pairs())|
  {
    hide Encode, PrefixOut;
    ghost var ps := ctx.Pairs();
    ghost var before := fd.sent;
    EncodeEnds(ps, before);
    var ok := fd.WriteNext(ps, 0, "version", FormatInt(PROTO_VERSION), before);
    if !ok { return -1; }
    ok := fd.WriteNext(ps, 1, "binary.version", FormatInt(VERSION_CODE), before);
    if !ok { return -1; }
    ok := fd.WriteNext(ps, 2, "pid", FormatInt(ctx.pid), before);
    if !ok { return -1; }
    ok := fd.WriteNext(ps, 3, "from.name", ctx.fromName, before);
    if !ok { return -1; }
    ok := fd.WriteNext(ps, 4, "to.name", ctx.toName, before);
    if !ok { return -1; }
    ok := fd.WriteNext(ps, 5, "from.uid", FormatInt(ToSigned(ctx.fromUid)), before);
    if !ok { return -1; }
    ok := fd.WriteNext(ps, 6, "to.uid", FormatInt(ToSigned(ctx.toUid)), before);
    if !ok { return -1; }
    ok := fd.WriteNext(ps, 7, "from.bin", ctx.fromBin, before);
    if !ok { return -1; }
    ok := fd.WriteNext(ps, 8, "command", ctx.command, before);
    if !ok { return -1; }
    ok := fd.WriteNext(ps, 9, "eof", FormatInt(PROTO_VERSION), before);
    if !ok { return -1; }
    r := 0;
  }

  lemma EncodeEnds(ps: seq<Pair>, before: string)
    ensures before + Encode(ps[..0]) == before && ps[..|ps|] == ps
  {
  }

  // ----- What is received -----

  const PARAM_MAX := 20
  const NAME_MAX := 20
  const VALUE_MAX_DEFAULT := 256

  function ValueMax(name: string): int {
    if name == "command" then 2048 else VALUE_MAX_DEFAULT
  }

  type Payload = map<string, string>

  /** A length and that many bytes; None is any of the exceptions: end of stream, too long, negative. */
  function ReadBlock(s: string, max: int): Option<(string, string)> {
    if |s| < 4 then None
    else
      var n := GetInt(s[..4]);
      if n > max || n < 0 || |s| < 4 + n then None else Some((s[4..4 + n], s[4 + n..]))
  }

  /** Parameters `i` and following; the loop also ends, accepting, after the twentieth. */
  function ReadPairs(s: string, i: nat, payload: Payload): Option<(Payload, string)>
    requires i <= PARAM_MAX
    decreases PARAM_MAX - i
  {
    if i == PARAM_MAX then Some((payload, s))
    else
      match ReadBlock(s, NAME_MAX)
      case None => None
      case Some(name) =>
        match ReadBlock(name.1, ValueMax(name.0))
        case None => None
        case Some(data) =>
          if name.0 == "eof" then Some((payload[name.0 := data.0], data.1))
          else ReadPairs(data.1, i + 1, payload[name.0 := data.0])
  }

  /** The fields the activity keeps. */
  datatype Request = Request(callerUid: int, desiredUid: int, desiredCmd: Option<string>, pid: int)

  /** A missing or unreadable number is null, and unboxing it ends in the catch block. */
  function GetNumber(payload: Payload, name: string, limit: int): Option<int> {
    if name in payload then ParseInt(payload[name], limit) else None
  }

  const BYTE_LIMIT := 0x80

  function Decode(payload: Payload): Option<Request> {
    var uid := GetNumber(payload, "from.uid", INT_LIMIT);
    var desired := GetNumber(payload, "to.uid", BYTE_LIMIT);
    var pid := GetNumber(payload, "pid", INT_LIMIT);
    if uid.None? || desired.None? || pid.None? then None
    else
      var command := if "command" in payload then Some(payload["command"]) else None;
      Some(Request(uid.value, desired.value, command, pid.value))
  }

  function Receive(s: string): Option<Request> {
    match ReadPairs(s, 0, map[])
    case None => None
    case Some(r) => Decode(r.0)
  }

  /** The receiving end of the socket: bytes not yet read, after which the stream has ended. */
  class DataInput {
    var data: string

    constructor (data: string)
      ensures this.data == data
    {
      this.data := data;
    }

    method ReadInt() returns (n: Option<int>)
      modifies this
      ensures if |old(data)| < 4 then n == None else n == Some(GetInt(old(data)[..4])) && data == old(data)[4..]
    {
      if |data| < 4 { return None; }
      n := Some(GetInt(data[..4]));
      data := data[4..];
    }

    method ReadFully(n: nat) returns (s: Option<string>)
      modifies this
      ensures if |old(data)| < n then s == None else s == Some(old(data)[..n]) && data == old(data)[n..]
    {
      if |data| < n { return None; }
      s := Some(data[..n]);
      data := data[n..];
    }

    method ReadBounded(max: int) returns (s: Option<string>)
      modifies this
      ensures match ReadBlock(old(data), max)
              case None => s == None
              case Some(r) => s == Some(r.0) && data == r.1
    {
      var n := ReadInt();
      if n.None? || n.value > max || n.value < 0 { return None; }
      ghost var after := data;
      s := ReadFully(n.value);
      if s.Some? {
        assert old(data)[4..4 + n.value] == after[..n.value];
        assert old(data)[4 + n.value..] == after[n.value..];
      }
    }

    /** manageSocket: None when it gives up, and then the caller closes the socket. */
    method ManageSocket() returns (r: Option<Request>)
      modifies this
      ensures r == Receive(old(data))
      ensures r.Some? ==> data == ReadPairs(old(data), 0, map[]).value.1
    {
      hide ReadBlock, Decode;
      var payload: Payload := map[];
      var i := 0;
      while i < PARAM_MAX
        invariant 0 <= i <= PARAM_MAX
        invariant ReadPairs(old(data), 0, map[]) == ReadPairs(data, i, payload)
      {
        var name := ReadBounded(NAME_MAX);
        if name.None? { return None; }
        var value := ReadBounded(ValueMax(name.value));
        if value.None? { return None; }
        payload := payload[name.value := value.value];
        if name.value == "eof" {
          return Decode(payload);
        }
        i := i + 1;
      }
      r := Decode(payload);
    }
  }

  // ----- Round trip and bounds -----

  predicate Fits(p: Pair) {
    |p.0| <= NAME_MAX && |p.1| <= ValueMax(p.0)
  }

  function AddAll(payload: Payload, pairs: seq<Pair>): Payload
    decreases |pairs|
  {
    if pairs == [] then payload else AddAll(payload[pairs[0].0 := pairs[0].1], pairs[1..])
  }

  lemma FrameRead(s: string, max: int, rest: string)
    requires |s| < INT_LIMIT
    ensures ReadBlock(Frame(s) + rest, max) == if |s| <= max then Some((s, rest)) else None
  {
    hide PutInt, GetInt;
    var t := Frame(s) + rest;
    GetPut(|s|);
    assert t[..4] == PutInt(|s|);
    assert t[4..4 + |s|] == s && t[4 + |s|..] == rest;
  }

  /** One sent pair is one turn of the receiver's loop; a pair over the limits is where it gives up. */
  lemma PairRead(p: Pair, rest: string, i: nat, payload: Payload)
    requires i < PARAM_MAX && |p.0| <= NAME_MAX && |p.1| < INT_LIMIT
    ensures ReadPairs(PairBytes(p) + rest, i, payload)
         == if !Fits(p) then None
            else if p.0 == "eof" then Some((payload[p.0 := p.1], rest))
            else ReadPairs(rest, i + 1, payload[p.0 := p.1])
  {
    hide ReadBlock, Frame;
    Regroup(Frame(p.0), Frame(p.1), rest);
    FrameRead(p.0, NAME_MAX, Frame(p.1) + rest);
    FrameRead(p.1, ValueMax(p.0), rest);
  }

  /** Lists the receiver can be sent: names within bounds, "eof" last and only last, at most twenty pairs. */
  predicate WellNamed(pairs: seq<Pair>) {
    && 1 <= |pairs| <= PARAM_MAX
    && (forall k :: 0 <= k < |pairs| ==> |pairs[k].0| <= NAME_MAX && |pairs[k].1| < INT_LIMIT)
    && (forall k :: 0 <= k < |pairs| - 1 ==> pairs[k].0 != "eof")
    && pairs[|pairs| - 1].0 == "eof"
  }

  /** The receiver reads exactly the bytes sent when every value is within its limit, and gives up otherwise. */
  lemma {:induction false} EncodeRead(pairs: seq<Pair>, rest: string, i: nat, payload: Payload)
    requires WellNamed(pairs) && i + |pairs| <= PARAM_MAX
    ensures ReadPairs(Encode(pairs) + rest, i, payload)
         == if forall k :: 0 <= k < |pairs| ==> Fits(pairs[k]) then Some((AddAll(payload, pairs), rest)) else None
    decreases |pairs|
  {
    hide ReadPairs, PairBytes, Fits;
    var p := pairs[0];
    Regroup(PairBytes(p), Encode(pairs[1..]), rest);
    PairRead(p, Encode(pairs[1..]) + rest, i, payload);
    if |pairs| == 1 {
      assert Encode(pairs[1..]) + rest == rest;
    } else {
      EncodeRead(pairs[1..], rest, i + 1, payload[p.0 := p.1]);
      assert forall k :: 1 <= k < |pairs| ==> pairs[k] == pairs[1..][k - 1];
    }
  }

  /** Twenty pairs without "eof" are accepted too, and whatever follows them stays unread. */
  lemma {:induction false} TwentyRead(pairs: seq<Pair>, rest: string, i: nat, payload: Payload)
    requires i + |pairs| == PARAM_MAX
    requires forall k :: 0 <= k < |pairs| ==> Fits(pairs[k]) && pairs[k].0 != "eof"
    ensures ReadPairs(Encode(pairs) + rest, i, payload) == Some((AddAll(payload, pairs), rest))
    decreases |pairs|
  {
    hide ReadPairs, PairBytes;
    if pairs == [] {
      assert Encode(pairs) + rest == rest;
      ReadAll(rest, payload);
    } else {
      var p := pairs[0];
      Regroup(PairBytes(p), Encode(pairs[1..]), rest);
      PairRead(p, Encode(pairs[1..]) + rest, i, payload);
      TwentyRead(pairs[1..], rest, i + 1, payload[p.0 := p.1]);
    }
  }

  lemma ReadAll(rest: string, payload: Payload)
    ensures ReadPairs(rest, PARAM_MAX, payload) == Some((payload, rest))
  {
  }

  // ----- Truncation -----

  lemma BlockExtends(a: string, b: string, max: int)
    requires ReadBlock(a, max).Some?
    ensures var r := ReadBlock(a, max).value; ReadBlock(a + b, max) == Some((r.0, r.1 + b))
  {
    hide GetInt;
    assert (a + b)[..4] == a[..4];
    var n := GetInt(a[..4]);
    assert (a + b)[4..4 + n] == a[4..4 + n];
    assert (a + b)[4 + n..] == a[4 + n..] + b;
  }

  /** What was accepted stays accepted, with the same payload, when more bytes follow. */
  lemma {:induction false} ReadExtends(a: string, b: string, i: nat, payload: Payload)
    requires i <= PARAM_MAX && ReadPairs(a, i, payload).Some?
    ensures var r := ReadPairs(a, i, payload).value; ReadPairs(a + b, i, payload) == Some((r.0, r.1 + b))
    decreases PARAM_MAX - i
  {
    hide ReadBlock;
    if i < PARAM_MAX {
      var name := ReadBlock(a, NAME_MAX).value;
      BlockExtends(a, b, NAME_MAX);
      var data := ReadBlock(name.1, ValueMax(name.0)).value;
      BlockExtends(name.1, b, ValueMax(name.0));
      if name.0 != "eof" {
        ReadExtends(data.1, b, i + 1, payload[name.0 := data.0]);
      }
    }
  }

  // ----- The request of an su context -----

  predicate WithinLimits(ctx: Context) {
    && |ctx.fromName| <= VALUE_MAX_DEFAULT && |ctx.toName| <= VALUE_MAX_DEFAULT
    && |ctx.fromBin| <= VALUE_MAX_DEFAULT && |ctx.command| <= 2048
  }

  lemma PairsWellNamed(ctx: Context)
    requires ctx.Valid()
    ensures WellNamed(ctx.Pairs())
    ensures (forall k :: 0 <= k < 10 ==> Fits(ctx.Pairs()[k])) <==> WithinLimits(ctx)
  {
    hide FormatInt, ToSigned;
    var ps := ctx.Pairs();
    FormatIntFits(PROTO_VERSION);
    FormatIntFits(VERSION_CODE);
    FormatIntFits(ctx.pid);
    FormatIntFits(ToSigned(ctx.fromUid));
    FormatIntFits(ToSigned(ctx.toUid));
    assert Fits(ps[3]) <==> |ctx.fromName| <= VALUE_MAX_DEFAULT;
    assert Fits(ps[4]) <==> |ctx.toName| <= VALUE_MAX_DEFAULT;
    assert Fits(ps[7]) <==> |ctx.fromBin| <= VALUE_MAX_DEFAULT;
    assert Fits(ps[8]) <==> |ctx.command| <= 2048;
  }

  /** Looking up the last value added for a name. */
  lemma {:induction false} AddAllKeeps(payload: Payload, pairs: seq<Pair>, name: string)
    requires name in payload && forall k :: 0 <= k < |pairs| ==> pairs[k].0 != name
    ensures name in AddAll(payload, pairs) && AddAll(payload, pairs)[name] == payload[name]
    decreases |pairs|
  {
    if pairs != [] { AddAllKeeps(payload[pairs[0].0 := pairs[0].1], pairs[1..], name); }
  }

  lemma {:induction false} AddAllHas(payload: Payload, pairs: seq<Pair>, k: nat)
    requires k < |pairs| && forall j :: k < j < |pairs| ==> pairs[j].0 != pairs[k].0
    ensures pairs[k].0 in AddAll(payload, pairs) && AddAll(payload, pairs)[pairs[k].0] == pairs[k].1
    decreases |pairs|
  {
    var next := payload[pairs[0].0 := pairs[0].1];
    if k == 0 {
      AddAllKeeps(next, pairs[1..], pairs[0].0);
    } else {
      AddAllHas(next, pairs[1..], k - 1);
    }
  }

  lemma PayloadDecodes(ctx: Context)
    requires ctx.Valid()
    ensures Decode(AddAll(map[], ctx.Pairs()))
         == if -BYTE_LIMIT <= ToSigned(ctx.toUid) < BYTE_LIMIT
            then Some(Request(ToSigned(ctx.fromUid), ToSigned(ctx.toUid), Some(ctx.command), ctx.pid)) else None
  {
    hide FormatInt, ToSigned, AddAll, ParseInt;
    var ps := ctx.Pairs();
    AddAllHas(map[], ps, 2);
    AddAllHas(map[], ps, 5);
    AddAllHas(map[], ps, 6);
    AddAllHas(map[], ps, 8);
    ParseInverts(ctx.pid, INT_LIMIT);
    ParseInverts(ToSigned(ctx.fromUid), INT_LIMIT);
    ParseInverts(ToSigned(ctx.toUid), BYTE_LIMIT);
  }

  predicate Holds(payload: Payload, name: string, data: string) {
    name in payload && payload[name] == data
  }

  lemma OneAndSixteen()
    ensures FormatInt(1) == "1" && FormatInt(16) == "16"
  {
    assert FormatNat(16) == FormatNat(1) + [Digit(6)];
  }

  /** What the app receives has, under each name, what the context has for it. */
  lemma PayloadHolds(ctx: Context)
    requires ctx.Valid()
    ensures var payload := AddAll(map[], ctx.Pairs());
            && Holds(payload, "version", "1") && Holds(payload, "binary.version", "16")
            && Holds(payload, "pid", FormatInt(ctx.pid))
            && Holds(payload, "from.name", ctx.fromName) && Holds(payload, "to.name", ctx.toName)
            && Holds(payload, "from.uid", FormatInt(ToSigned(ctx.fromUid)))
            && Holds(payload, "to.uid", FormatInt(ToSigned(ctx.toUid)))
            && Holds(payload, "from.bin", ctx.fromBin) && Holds(payload, "command", ctx.command)
            && Holds(payload, "eof", "1")
  {
    OneAndSixteen();
    hide FormatInt, ToSigned, AddAll;
    var ps := ctx.Pairs();
    AddAllHas(map[], ps, 0);
    AddAllHas(map[], ps, 1);
    AddAllHas(map[], ps, 2);
    AddAllHas(map[], ps, 3);
    AddAllHas(map[], ps, 4);
    AddAllHas(map[], ps, 5);
    AddAllHas(map[], ps, 6);
    AddAllHas(map[], ps, 7);
    AddAllHas(map[], ps, 8);
    AddAllHas(map[], ps, 9);
  }

  /** Ten pairs are sent, in network byte order: the first length is that of the first name. */
  lemma RequestStarts(ctx: Context)
    requires ctx.Valid()
    ensures |ctx.Pairs()| == 10 && PutInt(7) + "version" <= Encode(ctx.Pairs())
    ensures PutInt(7)[3] == 7 as char && PutInt(7)[0] == 0 as char
  {
    hide FormatInt, ToSigned;
    var ps := ctx.Pairs();
    assert Frame(ps[0].0) == PutInt(7) + "version";
    assert PairBytes(ps[0]) == PutInt(7) + "version" + Frame(ps[0].1);
  }

  /** The app reads exactly the bytes su wrote, and gets the caller, command and pid back, when the strings are within
      its limits and the desired uid fits a signed byte; in every other case it gives up. */
  lemma RequestRoundTrip(ctx: Context, rest: string)
    requires ctx.Valid()
    ensures Receive(Encode(ctx.Pairs()) + rest)
         == if WithinLimits(ctx) && -BYTE_LIMIT <= ToSigned(ctx.toUid) < BYTE_LIMIT
            then Some(Request(ToSigned(ctx.fromUid), ToSigned(ctx.toUid), Some(ctx.command), ctx.pid)) else None
    ensures WithinLimits(ctx) ==>
            ReadPairs(Encode(ctx.Pairs()) + rest, 0, map[]) == Some((AddAll(map[], ctx.Pairs()), rest))
  {
    hide Encode, ReadPairs, Fits, WellNamed, Context.Pairs, AddAll, Decode, WithinLimits;
    PairsWellNamed(ctx);
    EncodeRead(ctx.Pairs(), rest, 0, map[]);
    PayloadDecodes(ctx);
  }

  /** Anything short of the whole request is refused. */
  lemma RequestTruncated(ctx: Context, k: nat)
    requires ctx.Valid() && k < |Encode(ctx.Pairs())|
    ensures Receive(Encode(ctx.Pairs())[..k]) == None
  {
    hide Encode, ReadPairs, Fits, WellNamed, Context.Pairs, AddAll, Decode, WithinLimits;
    var s := Encode(ctx.Pairs());
    PairsWellNamed(ctx);
    EncodeRead(ctx.Pairs(), "", 0, map[]);
    assert s + "" == s;
    assert s[..k] + s[k..] == s && |s[k..]| > 0;
    if ReadPairs(s[..k], 0, map[]).Some? {
      ReadExtends(s[..k], s[k..], 0, map[]);
    }
  }

  /** Both ends together, whatever the socket does: a request that is not written whole is refused, and one that is
      comes back as it was sent, or is refused for its limits. */
  method SendAndReceive(ctx: Context) returns (r: int, got: Option<Request>)
    requires ctx.Valid()
    ensures got == if r == 0 && WithinLimits(ctx) && -BYTE_LIMIT <= ToSigned(ctx.toUid) < BYTE_LIMIT
                   then Some(Request(ToSigned(ctx.fromUid), ToSigned(ctx.toUid), Some(ctx.command), ctx.pid)) else None
  {
    hide Encode, Receive, WithinLimits, Context.Pairs, Context.Valid, ReadPairs;
    var fd := new Channel();
    r := SocketSendRequest(fd, ctx);
    ghost var all := Encode(ctx.Pairs());
    if r == 0 {
      RequestRoundTrip(ctx, "");
      assert fd.sent == all + "";
    } else {
      ghost var k: nat :| PrefixOut(fd.sent, "", all, k) && k < |all|;
      RequestTruncated(ctx, k);
      assert fd.sent == all[..k];
    }
    var input := new DataInput(fd.sent);
    got := input.ManageSocket();
  }
}
