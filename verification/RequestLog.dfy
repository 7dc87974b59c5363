/** What happens to the request activity, as a log, and what the log by itself says about the answer. */
module RequestLog {
  import opened CText
  import opened Decimal
  import opened PolicyTable

  // ----- Events -----

  datatype Choice = ThisTimeOnly | RememberFor | RememberForever

  const GRACE_PERIOD := 10

  /** A Java int holds the low 32 bits. */
  function JavaInt(n: int): int {
    (n + INT_LIMIT) % (2 * INT_LIMIT) - INT_LIMIT
  }

  datatype Event =
    | Received(uid: int, desiredUid: int)
    | Ready(automatic: Option<bool>)
    | RunPosted
    | AllowTimer
    | Choose(choice: Option<Choice>)
    | ConfigurationChanged(automatic: Option<bool>)
    | ClickAllow(pinProtected: bool)
    | PinEnter(correct: bool)
    | PinCancel
    | ClickDeny
    | Timeout
    | SocketFileGone
    | Destroy

  /** What the outside world does during one event: the clock, and whether the socket and the database work. */
  datatype World = World(nowSeconds: int, socketWorks: bool, databaseWorks: bool, info: Info)

  type Log = seq<(Event, World)>

  // ----- What a log says while it holds no answer -----

  function Front(log: Log): Log
    requires log != []
  {
    log[..|log| - 1]
  }

  function Last(log: Log): Event
    requires log != []
  {
    log[|log| - 1].0
  }

  /** The uids of the first request read. */
  function ReceivedBy(log: Log): Option<(int, int)> {
    if log == [] then None
    else if ReceivedBy(Front(log)).Some? then ReceivedBy(Front(log))
    else if Last(log).Received? then Some((Last(log).uid, Last(log).desiredUid)) else None
  }

  /** The request was read and then put on the screen. */
  predicate ReadyBy(log: Log) {
    log != [] && (ReadyBy(Front(log)) || (Last(log).Ready? && ReceivedBy(Front(log)).Some?))
  }

  function LastChoice(log: Log): Option<Choice> {
    if log == [] then None else if Last(log).Choose? then Last(log).choice else LastChoice(Front(log))
  }

  /** The countdown has ended since the screen was last drawn. */
  predicate EnabledBy(log: Log) {
    log != [] && !Last(log).ConfigurationChanged?
    && (EnabledBy(Front(log)) || (Last(log).AllowTimer? && ReadyBy(Front(log))))
  }

  /** For how long a click at this moment would be remembered: -1 not at all, 0 for ever. */
  function Duration(log: Log, nowSeconds: int): int {
    if !ReadyBy(log) then -1
    else
      match LastChoice(log)
      case None => -1
      case Some(ThisTimeOnly) => -1
      case Some(RememberFor) => JavaInt(JavaInt(nowSeconds) + GRACE_PERIOD * 60)
      case Some(RememberForever) => 0
  }

  /** The PIN pad is open since a click on Allow, for this long. */
  function PadBy(log: Log): Option<int> {
    if log == [] || Last(log).ConfigurationChanged? then None
    else if PadBy(Front(log)).Some? then PadBy(Front(log))
    else if Last(log) == ClickAllow(true) && EnabledBy(Front(log))
    then Some(Duration(Front(log), log[|log| - 1].1.nowSeconds)) else None
  }

  /** The automatic responses under way. */
  function PostedBy(log: Log): seq<bool> {
    if log == [] then []
    else
      PostedBy(Front(log))
      + match Last(log)
        case Ready(Some(b)) => if ReceivedBy(Front(log)).Some? then [b] else []
        case ConfigurationChanged(Some(b)) => if ReadyBy(Front(log)) then [b] else []
        case _ => []
  }

  predicate GoneBy(log: Log) {
    log != [] && (GoneBy(Front(log)) || Last(log).SocketFileGone?)
  }

  /** The answer that an event gives behind a log without answers: whether to allow, and for how long to remember it. */
  function AnswerTo(log: Log, e: Event, nowSeconds: int): Option<(bool, int)> {
    match e
    case ClickAllow(protected) =>
      if !protected && EnabledBy(log) && PadBy(log).None? then Some((true, Duration(log, nowSeconds))) else None
    case PinEnter(correct) => if correct && PadBy(log).Some? then Some((true, PadBy(log).value)) else None
    case PinCancel => if PadBy(log).Some? then Some((false, -1)) else None
    case ClickDeny => if PadBy(log).None? then Some((false, Duration(log, nowSeconds))) else None
    case RunPosted => if PostedBy(log) != [] then Some((PostedBy(log)[0], 0)) else None
    case Timeout => if !GoneBy(log) then Some((false, -1)) else None
    case Destroy => Some((false, -1))
    case _ => None
  }

  function AnswerAt(log: Log, i: nat): Option<(bool, int)>
    requires i < |log|
  {
    AnswerTo(log[..i], log[i].0, log[i].1.nowSeconds)
  }

  predicate Unanswered(log: Log, n: nat)
    requires n <= |log|
  {
    forall i :: 0 <= i < n ==> AnswerAt(log, i).None?
  }

  /** Event `at` gives the first answer. */
  predicate Deciding(log: Log, at: nat) {
    at < |log| && Unanswered(log, at) && AnswerAt(log, at).Some?
  }

  // ----- The same on the events alone -----

  /** The request was read before event `i`. */
  ghost predicate ReadBefore(log: Log, i: nat)
    requires i <= |log|
  {
    exists r: nat :: r < i && log[r].0.Received?
  }

  /** The request was read, and then put on the screen, before event `i`. */
  ghost predicate ShownBefore(log: Log, i: nat)
    requires i <= |log|
  {
    exists k: nat :: k < i && log[k].0.Ready? && ReadBefore(log, k)
  }

  /** The screen is not drawn again from `j` to `i`. */
  predicate NoRedraw(log: Log, j: nat, i: nat)
    requires j <= i <= |log|
  {
    forall k :: j <= k < i ==> !log[k].0.ConfigurationChanged?
  }

  /** The countdown of a request on the screen has ended, and the screen has not been drawn again. */
  ghost predicate Enabled(log: Log, i: nat)
    requires i <= |log|
  {
    exists j: nat :: j < i && log[j].0.AllowTimer? && ShownBefore(log, j) && NoRedraw(log, j, i)
  }

  /** An enabled click on Allow has opened the PIN pad, and the screen has not been drawn again. */
  ghost predicate PadOpen(log: Log, i: nat)
    requires i <= |log|
  {
    exists j: nat :: j < i && log[j].0 == ClickAllow(true) && Enabled(log, j) && NoRedraw(log, j, i)
  }

  /** Event `j` posts this automatic response. */
  ghost predicate Responds(log: Log, j: nat, allow: bool)
    requires j < |log|
  {
    || (log[j].0 == Ready(Some(allow)) && ReadBefore(log, j))
    || (log[j].0 == ConfigurationChanged(Some(allow)) && ShownBefore(log, j))
  }

  /** The first automatic response posted before event `i`. */
  ghost predicate FirstResponse(log: Log, i: nat, allow: bool)
    requires i <= |log|
  {
    exists j: nat :: j < i && Responds(log, j, allow) && NoResponse(log, j)
  }

  ghost predicate NoResponse(log: Log, n: nat)
    requires n <= |log|
  {
    forall k :: 0 <= k < n ==> !Responds(log, k, true) && !Responds(log, k, false)
  }

  ghost predicate Gone(log: Log, i: nat)
    requires i <= |log|
  {
    exists k: nat :: k < i && log[k].0.SocketFileGone?
  }

  /** Event `i` allows: an enabled click on Allow, the right PIN on an open pad, or an allowing automatic response. */
  ghost predicate Grants(log: Log, i: nat)
    requires i < |log|
  {
    match log[i].0
    case ClickAllow(protected) => !protected && Enabled(log, i) && !PadOpen(log, i)
    case PinEnter(correct) => correct && PadOpen(log, i)
    case RunPosted => FirstResponse(log, i, true)
    case _ => false
  }

  /** Event `i` denies: a click on Deny or a cancelled PIN, a denying response, the end of the time or of the
      activity. */
  ghost predicate Refuses(log: Log, i: nat)
    requires i < |log|
  {
    match log[i].0
    case ClickDeny => !PadOpen(log, i)
    case PinCancel => PadOpen(log, i)
    case RunPosted => FirstResponse(log, i, false)
    case Timeout => !Gone(log, i)
    case Destroy => true
    case _ => false
  }

  ghost predicate NoAnswer(log: Log, n: nat)
    requires n <= |log|
  {
    forall k :: 0 <= k < n ==> !Grants(log, k) && !Refuses(log, k)
  }

  /** Event `at` is the first that allows or denies, and this is what it does. */
  ghost predicate FirstAnswer(log: Log, at: nat, allow: bool) {
    at < |log| && NoAnswer(log, at) && if allow then Grants(log, at) else Refuses(log, at)
  }

  lemma {:induction false} ReadIff(log: Log, i: nat)
    requires i <= |log|
    ensures ReceivedBy(log[..i]).Some? <==> ReadBefore(log, i)
  {
    if i > 0 {
      assert Front(log[..i]) == log[..i - 1];
      ReadIff(log, i - 1);
      assert ReadBefore(log, i) <==> ReadBefore(log, i - 1) || log[i - 1].0.Received?;
    }
  }

  lemma {:induction false} ShownIff(log: Log, i: nat)
    requires i <= |log|
    ensures ReadyBy(log[..i]) <==> ShownBefore(log, i)
  {
    if i > 0 {
      hide ReceivedBy, ReadBefore;
      assert Front(log[..i]) == log[..i - 1];
      ShownIff(log, i - 1);
      ReadIff(log, i - 1);
      assert ShownBefore(log, i) <==> ShownBefore(log, i - 1) || (log[i - 1].0.Ready? && ReadBefore(log, i - 1));
    }
  }

  lemma {:induction false} EnabledIff(log: Log, i: nat)
    requires i <= |log|
    ensures EnabledBy(log[..i]) <==> Enabled(log, i)
  {
    if i > 0 {
      hide ReadyBy, ShownBefore;
      assert Front(log[..i]) == log[..i - 1];
      EnabledIff(log, i - 1);
      ShownIff(log, i - 1);
      assert forall j: nat :: j < i ==>
        (NoRedraw(log, j, i) <==> NoRedraw(log, j, i - 1) && !log[i - 1].0.ConfigurationChanged?);
    }
  }

  /** The pad keeps the duration chosen at the click that opened it. */
  lemma {:induction false} PadSince(log: Log, i: nat) returns (j: nat)
    requires i <= |log| && PadBy(log[..i]).Some?
    ensures j < i && log[j].0 == ClickAllow(true) && EnabledBy(log[..j]) && NoRedraw(log, j, i)
    ensures PadBy(log[..i]).value == Duration(log[..j], log[j].1.nowSeconds)
  {
    hide EnabledBy, Duration;
    assert Front(log[..i]) == log[..i - 1];
    if PadBy(log[..i - 1]).Some? {
      j := PadSince(log, i - 1);
    } else {
      j := i - 1;
    }
  }

  lemma {:induction false} PadIff(log: Log, i: nat)
    requires i <= |log|
    ensures PadBy(log[..i]).Some? <==> PadOpen(log, i)
  {
    if i > 0 {
      hide EnabledBy, Enabled, Duration;
      assert Front(log[..i]) == log[..i - 1];
      PadIff(log, i - 1);
      EnabledIff(log, i - 1);
      assert forall j: nat :: j < i ==>
        (NoRedraw(log, j, i) <==> NoRedraw(log, j, i - 1) && !log[i - 1].0.ConfigurationChanged?);
    }
  }

  lemma {:induction false} PostedIff(log: Log, i: nat, allow: bool)
    requires i <= |log|
    ensures PostedBy(log[..i]) == [] <==> NoResponse(log, i)
    ensures PostedBy(log[..i]) != [] && PostedBy(log[..i])[0] == allow <==> FirstResponse(log, i, allow)
  {
    if i > 0 {
      hide ReceivedBy, ReadyBy, ReadBefore, ShownBefore;
      assert Front(log[..i]) == log[..i - 1];
      PostedIff(log, i - 1, allow);
      ReadIff(log, i - 1);
      ShownIff(log, i - 1);
      FirstResponseMore(log, i, allow);
    }
  }

  lemma FirstResponseMore(log: Log, i: nat, allow: bool)
    requires 0 < i <= |log|
    ensures FirstResponse(log, i, allow)
            <==> FirstResponse(log, i - 1, allow) || (Responds(log, i - 1, allow) && NoResponse(log, i - 1))
  {
    hide Responds, NoResponse;
  }

  lemma {:induction false} GoneIff(log: Log, i: nat)
    requires i <= |log|
    ensures GoneBy(log[..i]) <==> Gone(log, i)
  {
    if i > 0 {
      assert Front(log[..i]) == log[..i - 1];
      GoneIff(log, i - 1);
      assert Gone(log, i) <==> Gone(log, i - 1) || log[i - 1].0.SocketFileGone?;
    }
  }

  /** Which events answer, and how: an answer allows exactly when its event grants, and denies exactly when it
      refuses. */
  lemma AnswersIff(log: Log, i: nat)
    requires i < |log|
    ensures AnswerAt(log, i).Some? && AnswerAt(log, i).value.0 <==> Grants(log, i)
    ensures AnswerAt(log, i).Some? && !AnswerAt(log, i).value.0 <==> Refuses(log, i)
  {
    hide EnabledBy, PadBy, PostedBy, GoneBy, Duration, Enabled, PadOpen, FirstResponse, NoResponse, Gone;
    EnabledIff(log, i);
    PadIff(log, i);
    GoneIff(log, i);
    PostedIff(log, i, true);
    PostedIff(log, i, false);
  }

  lemma UnansweredIff(log: Log, n: nat)
    requires n <= |log|
    ensures Unanswered(log, n) <==> NoAnswer(log, n)
  {
    hide AnswerAt, Grants, Refuses;
    forall i | 0 <= i < n
      ensures AnswerAt(log, i).None? <==> !Grants(log, i) && !Refuses(log, i)
    {
      AnswersIff(log, i);
    }
  }

  lemma DecidingIff(log: Log, at: nat, allow: bool)
    ensures FirstAnswer(log, at, allow) <==> Deciding(log, at) && AnswerAt(log, at).value.0 == allow
  {
    hide AnswerAt, Grants, Refuses, Unanswered, NoAnswer;
    if at < |log| {
      UnansweredIff(log, at);
      AnswersIff(log, at);
    }
  }

  // ----- For how long -----

  lemma JavaIntMeaning(n: int) returns (q: int)
    ensures IsInt32(JavaInt(n)) && n == JavaInt(n) + q * (2 * INT_LIMIT)
    ensures IsInt32(n) ==> JavaInt(n) == n
  {
    q := (n + INT_LIMIT) / (2 * INT_LIMIT);
  }

  /** The first request read counts. */
  lemma {:induction false} ReceivedFirst(log: Log, j: nat)
    requires j < |log| && log[j].0.Received? && forall k :: 0 <= k < j ==> !log[k].0.Received?
    ensures ReceivedBy(log) == Some((log[j].0.uid, log[j].0.desiredUid))
  {
    if j < |log| - 1 { ReceivedFirst(Front(log), j); } else { NothingReceived(Front(log)); }
  }

  lemma {:induction false} NothingReceived(log: Log)
    requires forall k :: 0 <= k < |log| ==> !log[k].0.Received?
    ensures ReceivedBy(log).None?
  {
    if log != [] { NothingReceived(Front(log)); }
  }

  /** The last choice made, if any. */
  lemma {:induction false} ChosenLast(log: Log, j: nat)
    requires j < |log| && log[j].0.Choose? && forall k :: j < k < |log| ==> !log[k].0.Choose?
    ensures LastChoice(log) == log[j].0.choice
  {
    if j < |log| - 1 { ChosenLast(Front(log), j); }
  }

  lemma {:induction false} NeverChosen(log: Log)
    requires forall k :: 0 <= k < |log| ==> !log[k].0.Choose?
    ensures LastChoice(log) == None
  {
    if log != [] { NeverChosen(Front(log)); }
  }

  /** With the request on the screen, the last choice decides: for ever, for ten minutes from now, or not at all. */
  lemma DurationMeaning(log: Log, nowSeconds: int, j: nat)
    requires ShownBefore(log, |log|)
    requires j < |log| && log[j].0.Choose? && forall k :: j < k < |log| ==> !log[k].0.Choose?
    ensures log[j].0.choice == Some(RememberForever) ==> Duration(log, nowSeconds) == 0
    ensures log[j].0.choice == Some(RememberFor) && 0 <= nowSeconds < INT_LIMIT - 600 ==>
              Duration(log, nowSeconds) == nowSeconds + 600
    ensures log[j].0.choice == Some(ThisTimeOnly) || log[j].0.choice == None ==> Duration(log, nowSeconds) == -1
  {
    hide JavaInt, ReadyBy, ShownBefore, LastChoice;
    ChosenLast(log, j);
    ShownIff(log, |log|);
    assert log[..|log|] == log;
    var _ := JavaIntMeaning(nowSeconds);
    var _ := JavaIntMeaning(nowSeconds + 600);
  }

  /** Without a choice, or without a request on the screen, nothing is remembered. */
  lemma NothingRemembered(log: Log, nowSeconds: int)
    requires !ShownBefore(log, |log|) || forall k :: 0 <= k < |log| ==> !log[k].0.Choose?
    ensures Duration(log, nowSeconds) == -1
  {
    hide ReadyBy, ShownBefore, LastChoice;
    if ShownBefore(log, |log|) {
      NeverChosen(log);
    } else {
      ShownIff(log, |log|);
      assert log[..|log|] == log;
    }
  }
}
