/** The user's answer: the request activity's events, the reply su decodes, and the stored policy su reads later. */
module Answer {
  import opened CText
  import opened Decimal
  import P = Policy
  import opened PolicyTable
  import opened RequestLog

  // ----- The activity -----

  /** The uid and desired uid of the request, and what was decided about it. */
  datatype Decision = Decision(allow: bool, until: int, uid: int, desiredUid: int)

  function ReplyText(allow: bool): string {
    if allow then "socket:ALLOW" else "socket:DENY"
  }

  /** The policy handleAction stores for a decision: all commands of the caller. */
  function PolicyOf(d: Decision, info: Info): UidPolicy {
    UidPolicy(d.uid, None, d.desiredUid, if d.allow then "allow" else "deny", d.until, true, true, info)
  }

  /** The fields of the activity that decide what its events do; `crashed` once an assertion has failed. */
  datatype Screen = Screen(handled: bool, received: bool, ready: bool, uid: int, desiredUid: int,
                           readyShown: bool, viewsShown: bool, allowEnabled: bool, denyEnabled: bool,
                           chosen: Option<Choice>, pin: Option<int>, posted: seq<bool>, finishing: bool, crashed: bool)
  {
    /** getUntil: -1 stores nothing; the chooser counts only while it is on screen. */
    function Until(nowSeconds: int): int {
      if !readyShown || !viewsShown || chosen.None? then -1
      else
        match chosen.value
        case ThisTimeOnly => -1
        case RememberFor => JavaInt(JavaInt(nowSeconds) + GRACE_PERIOD * 60)
        case RememberForever => 0
    }

    /** The answer an event asks for, if it is possible at all in this state. */
    function Asks(e: Event, nowSeconds: int): Option<(bool, int)> {
      match e
      case RunPosted => if posted != [] && !handled then Some((posted[0], 0)) else None
      case ClickAllow(protected) =>
        if viewsShown && allowEnabled && !protected then Some((true, Until(nowSeconds))) else None
      case PinEnter(correct) => if pin.Some? && correct then Some((true, pin.value)) else None
      case PinCancel => if pin.Some? then Some((false, Until(nowSeconds))) else None
      case ClickDeny => if viewsShown && denyEnabled then Some((false, Until(nowSeconds))) else None
      case Timeout => if !finishing && !handled then Some((false, -1)) else None
      case Destroy => if !handled then Some((false, -1)) else None
      case _ => None
    }

    function Acted(): Screen {
      if handled then this.(crashed := true) else this.(handled := true, finishing := true)
    }

    function Clicked(): Screen {
      this.(allowEnabled := false, denyEnabled := false).Acted()
    }

    function Showing(automatic: Option<bool>): Screen {
      this.(readyShown := true, posted := posted + if automatic.Some? then [automatic.value] else [])
    }

    function Redrawn(automatic: Option<bool>): Screen {
      var v := this.(readyShown := false, viewsShown := true, allowEnabled := false, denyEnabled := true, pin := None);
      if ready then v.Showing(automatic) else v
    }

    function After(e: Event, nowSeconds: int): Screen {
      match e
      case Received(u, d) => if received then this else this.(received := true, uid := u, desiredUid := d)
      case Ready(automatic) => if received then this.(ready := true).Showing(automatic) else this
      case RunPosted =>
        if posted == [] then this
        else var v := this.(posted := posted[1..]); if handled then v else v.Acted()
      case AllowTimer => if ready && !handled then this.(allowEnabled := true) else this
      case Choose(choice) => this.(chosen := choice)
      case ConfigurationChanged(automatic) => Redrawn(automatic)
      case ClickAllow(protected) =>
        if !viewsShown || !allowEnabled then this
        else if protected then this.(viewsShown := false, pin := Some(Until(nowSeconds))) else Clicked()
      case PinEnter(correct) => if pin.Some? && correct then Clicked() else this
      case PinCancel => if pin.Some? then Clicked() else this
      case ClickDeny => if viewsShown && denyEnabled then Clicked() else this
      case Timeout => if finishing || handled then this else Acted()
      case SocketFileGone => this.(finishing := true)
      case Destroy => if handled then this else Acted()
    }
  }

  const OPENED :=
    Screen(false, false, false, 0, 0, false, true, false, true, None, None, [], false, false)

  class Activity {
    var mHandled: bool
    var received: bool  // the request thread is done
    var mRequestReady: bool
    var mCallerUid: int
    var mDesiredUid: int
    // The views: the request text and its chooser, the buttons, or the PIN pad with the choice made before it.
    var readyShown: bool
    var viewsShown: bool
    var allowEnabled: bool
    var denyEnabled: bool
    var chosen: Option<Choice>
    var pin: Option<int>
    // Runnables posted by automatic responses.
    var posted: seq<bool>
    var finishing: bool
    var crashed: bool
    var sent: seq<string>
    const db: SuDatabase
    // What the table held before, and what has been decided and stored since.
    const start: Rows
    ghost var decision: Option<Decision>
    ghost var stored: Option<UidPolicy>

    ghost predicate Valid()
      reads this, db
    {
      && mHandled == decision.Some?
      && (sent == [] || (decision.Some? && sent == [ReplyText(decision.value.allow)]))
      && (stored.Some? ==>
            && decision.Some? && decision.value.until != -1
            && stored.value == PolicyOf(decision.value, stored.value.info)
            && received && stored.value.uid == mCallerUid && stored.value.desiredUid == mDesiredUid)
      && db.rows == (if stored.Some? then Put(start, stored.value) else start)
      // A choice to remember, or an automatic response, exists only once the request has been read.
      && (mRequestReady ==> received) && (readyShown ==> mRequestReady) && (posted != [] ==> mRequestReady)
      && (pin.Some? && pin.value != -1 ==> mRequestReady)
    }

    constructor (db: SuDatabase)
      ensures this.db == db && start == db.rows && Valid()
      ensures decision.None? && stored.None? && sent == [] && Shown() == OPENED
    {
      mHandled, received, mRequestReady, mCallerUid, mDesiredUid := false, false, false, 0, 0;
      readyShown, viewsShown, allowEnabled, denyEnabled := false, true, false, true;
      chosen, pin, posted, finishing, crashed, sent := None, None, [], false, false, [];
      this.db, start := db, db.rows;
      decision, stored := None, None;
    }

    function Shown(): Screen
      reads this
    {
      Screen(mHandled, received, mRequestReady, mCallerUid, mDesiredUid,
             readyShown, viewsShown, allowEnabled, denyEnabled, chosen, pin, posted, finishing, crashed)
    }

    /** A failed assertion ends the process before anything is written. */
    method HandleAction(action: bool, until: int, w: World)
      requires Valid() && !crashed && (until != -1 ==> received)
      modifies this, db
      ensures Valid() && Shown() == old(Shown()).Acted()
      ensures old(mHandled) ==> crashed && decision == old(decision) && sent == old(sent) && stored == old(stored)
      ensures !old(mHandled) ==>
        && !crashed
        && decision == Some(Decision(action, until, old(mCallerUid), old(mDesiredUid)))
        && sent == (if w.socketWorks then [ReplyText(action)] else [])
        && stored == (if until != -1 && w.databaseWorks then Some(PolicyOf(decision.value, w.info)) else None)
    {
      hide Valid, PolicyOf, Shown, Screen.Acted;
      HandledShows();
      ActingSets(Shown());
      if mHandled {
        Die();
        return;
      }
      Decide(action, until);
      Reply(action, w);
      if until != -1 { Remember(action, until, w); }
      Finish();
    }

    lemma ActingSets(v: Screen)
      ensures v.Acted() == if v.handled then v.(crashed := true) else v.(handled := true).(finishing := true)
    {
    }

    lemma HandledShows()
      ensures Shown().handled == mHandled && Shown().crashed == crashed && (Valid() ==> mHandled == decision.Some?)
    {
    }

    method Die()
      requires Valid()
      modifies this`crashed
      ensures Valid() && crashed && Shown() == old(Shown()).(crashed := true)
    {
      crashed := true;
    }

    /** Until this point nothing has been sent or stored. */
    method Decide(action: bool, until: int)
      requires Valid() && !mHandled
      modifies this`mHandled, this`decision
      ensures Valid() && mHandled && decision == Some(Decision(action, until, mCallerUid, mDesiredUid))
      ensures sent == [] && stored.None? && Shown() == old(Shown()).(handled := true)
    {
      hide Put, PolicyOf;
      mHandled := true;
      decision := Some(Decision(action, until, mCallerUid, mDesiredUid));
    }

    method Finish()
      requires Valid()
      modifies this`finishing
      ensures Valid() && Shown() == old(Shown()).(finishing := true)
    {
      hide Put, PolicyOf;
      finishing := true;
    }

    /** Writes the answer to the socket, if it works. */
    method Reply(action: bool, w: World)
      requires Valid() && decision.Some? && decision.value.allow == action && sent == []
      modifies this`sent
      ensures Valid() && Shown() == old(Shown())
      ensures sent == if w.socketWorks then [ReplyText(action)] else []
    {
      hide Put, PolicyOf;
      if w.socketWorks { sent := sent + [if action then "socket:ALLOW" else "socket:DENY"]; }
    }

    /** Stores the policy of the decision, if the database works. */
    method Remember(action: bool, until: int, w: World)
      requires Valid() && stored.None? && received && until != -1
      requires decision == Some(Decision(action, until, mCallerUid, mDesiredUid))
      modifies this`stored, db
      ensures Valid() && Shown() == old(Shown())
      ensures stored == if w.databaseWorks then Some(PolicyOf(decision.value, w.info)) else None
    {
      hide Put;
      var answer := if action then "allow" else "deny";
      var policy := UidPolicy(mCallerUid, None, mDesiredUid, answer, until, true, true, w.info);
      if w.databaseWorks {
        db.SetPolicy(policy);
        stored := Some(policy);
      }
    }

    method SetContentView(automatic: Option<bool>)
      requires Valid()
      modifies this`readyShown, this`viewsShown, this`allowEnabled, this`denyEnabled, this`pin, this`posted
      ensures Valid() && Shown() == old(Shown()).Redrawn(automatic)
    {
      hide Put, PolicyOf;
      readyShown, viewsShown, allowEnabled, denyEnabled, pin := false, true, false, true, None;
      if mRequestReady { RequestReady(automatic); }
    }

    method RequestReady(automatic: Option<bool>)
      requires Valid() && mRequestReady
      modifies this`readyShown, this`posted
      ensures Valid() && Shown() == old(Shown()).Showing(automatic)
    {
      hide Put, PolicyOf;
      readyShown := true;
      if automatic.Some? { posted := posted + [automatic.value]; }
    }

    /** What an event that asks for an answer leads to: the first one decides, a later one is fatal. */
    twostate predicate Outcome(asked: Option<(bool, int)>, w: World)
      reads this
    {
      if asked.None? then
        !crashed && decision == old(decision) && sent == old(sent) && stored == old(stored)
      else if old(decision).Some? then
        crashed && decision == old(decision) && sent == old(sent) && stored == old(stored)
      else
        var (allow, until) := asked.value;
        && !crashed && decision == Some(Decision(allow, until, old(mCallerUid), old(mDesiredUid)))
        && sent == (if w.socketWorks then [ReplyText(allow)] else [])
        && stored == (if until != -1 && w.databaseWorks then Some(PolicyOf(decision.value, w.info)) else None)
    }

    /** approve and deny: no further clicks, then the answer. */
    method Answer(action: bool, until: int, w: World)
      requires Valid() && !crashed && (until != -1 ==> received)
      modifies this, db
      ensures Valid() && Outcome(Some((action, until)), w) && Shown() == old(Shown()).Clicked()
    {
      hide Put, PolicyOf, Screen.Acted;
      allowEnabled, denyEnabled := false, false;
      HandleAction(action, until, w);
    }

    method OnClickAllow(pinProtected: bool, w: World)
      requires Valid() && !crashed
      modifies this, db
      ensures Valid() && Outcome(old(Shown()).Asks(ClickAllow(pinProtected), w.nowSeconds), w)
      ensures Shown() == old(Shown()).After(ClickAllow(pinProtected), w.nowSeconds)
    {
      hide JavaInt, Put, PolicyOf;
      if viewsShown && allowEnabled {
        var until := Shown().Until(w.nowSeconds);
        if !pinProtected {
          Answer(true, until, w);
        } else {
          viewsShown := false;
          pin := Some(until);
        }
      }
    }

    method OnPin(e: Event, w: World)
      requires Valid() && !crashed && (e.PinEnter? || e.PinCancel?)
      modifies this, db
      ensures Valid() && Outcome(old(Shown()).Asks(e, w.nowSeconds), w)
      ensures Shown() == old(Shown()).After(e, w.nowSeconds)
    {
      hide JavaInt, Put, PolicyOf;
      if pin.Some? {
        if e.PinCancel? {
          Answer(false, Shown().Until(w.nowSeconds), w);
        } else if e.correct {
          Answer(true, pin.value, w);
        }
      }
    }

    method OnClickDeny(w: World)
      requires Valid() && !crashed
      modifies this, db
      ensures Valid() && Outcome(old(Shown()).Asks(ClickDeny, w.nowSeconds), w)
      ensures Shown() == old(Shown()).After(ClickDeny, w.nowSeconds)
    {
      hide JavaInt, Put, PolicyOf;
      if viewsShown && denyEnabled { Answer(false, Shown().Until(w.nowSeconds), w); }
    }

    /** Answers nobody clicked for: automatic responses, the timeout, and the end of the activity. */
    method OnUnattended(e: Event, w: World)
      requires Valid() && !crashed && (e.RunPosted? || e.Timeout? || e.Destroy?)
      modifies this, db
      ensures Valid() && Outcome(old(Shown()).Asks(e, w.nowSeconds), w)
      ensures Shown() == old(Shown()).After(e, w.nowSeconds)
    {
      hide Put, PolicyOf, Screen.Acted;
      match e {
        case RunPosted =>
          if posted != [] {
            var action := posted[0];
            posted := posted[1..];
            if !mHandled { HandleAction(action, 0, w); }
          }
        case Timeout =>
          if !finishing && !mHandled { HandleAction(false, -1, w); }
        case Destroy =>
          if !mHandled { HandleAction(false, -1, w); }
      }
    }

    /** The request thread is done, and the request is put on the screen. */
    method OnRequest(e: Event, nowSeconds: int)
      requires Valid() && !crashed && (e.Received? || e.Ready?)
      modifies this
      ensures Valid() && !crashed && decision == old(decision) && sent == old(sent) && stored == old(stored)
      ensures Shown() == old(Shown()).After(e, nowSeconds)
    {
      hide Put, PolicyOf, Screen.Redrawn, Screen.Showing;
      match e {
        case Received(uid, desired) =>
          if !received { received, mCallerUid, mDesiredUid := true, uid, desired; }
        case Ready(automatic) =>
          if received {
            mRequestReady := true;
            RequestReady(automatic);
          }
      }
    }

    /** Other events that ask for no answer. */
    method OnOther(e: Event, nowSeconds: int)
      requires Valid() && !crashed
      requires e.AllowTimer? || e.Choose? || e.SocketFileGone?
      modifies this
      ensures Valid() && !crashed && decision == old(decision) && sent == old(sent) && stored == old(stored)
      ensures Shown() == old(Shown()).After(e, nowSeconds)
    {
      hide Put, PolicyOf, Screen.Redrawn, Screen.Showing;
      match e {
        case AllowTimer =>
          if mRequestReady && !mHandled { allowEnabled := true; }
        case Choose(choice) =>
          chosen := choice;
        case SocketFileGone =>
          finishing := true;
      }
    }

    method Handle(e: Event, w: World)
      requires Valid() && !crashed
      modifies this, db
      ensures Valid() && Outcome(old(Shown()).Asks(e, w.nowSeconds), w)
      ensures Shown() == old(Shown()).After(e, w.nowSeconds)
    {
      if e.RunPosted? || e.Timeout? || e.Destroy? {
        OnUnattended(e, w);
      } else if e.ClickAllow? {
        OnClickAllow(e.pinProtected, w);
      } else if e.PinEnter? || e.PinCancel? {
        OnPin(e, w);
      } else if e.ClickDeny? {
        OnClickDeny(w);
      } else if e.Received? || e.Ready? {
        OnRequest(e, w.nowSeconds);
      } else if e.ConfigurationChanged? {
        SetContentView(e.automatic);
      } else {
        OnOther(e, w.nowSeconds);
      }
    }

    /** Every interleaving: at most one reply, and whatever is stored agrees with it and names the requester. On a
        fresh activity the first event that allows or denies decides, for the first request read. */
    method Run(events: Log) returns (ghost at: nat)
      requires Valid() && !crashed && decision.None?
      modifies this, db
      ensures Valid()
      ensures |sent| <= 1
      ensures sent != [] ==> decision.Some? && sent[0] == ReplyText(decision.value.allow)
      ensures stored.None? ==> db.rows == start
      ensures stored.Some? ==>
        && decision.Some? && db.rows == Put(start, stored.value)
        && stored.value.policy == (if decision.value.allow then "allow" else "deny")
        && stored.value.until == decision.value.until
        && stored.value.uid == mCallerUid && stored.value.desiredUid == mDesiredUid && stored.value.command.None?
        && stored.value.logging && stored.value.notification
      ensures events != [] && events[|events| - 1].0 == Destroy && !crashed ==> decision.Some?
      ensures Shown() == Played(old(Shown()), events)
      ensures old(Shown()) == OPENED ==> if decision.Some? then Decides(events, at, decision.value) else Silent(events)
      ensures old(Shown()) == OPENED ==>
                if decision.Some? then FirstAnswer(events, at, decision.value.allow) else NoAnswer(events, |events|)
    {
      hide Put, Screen.After, Screen.Asks, Played, Decides, Silent, FirstAnswer, NoAnswer;
      var i := 0;
      at := 0;
      ghost var was := Shown();
      PlayedNothing(was, events);
      SilentNothing(events);
      while i < |events| && !crashed
        invariant 0 <= i <= |events| && Valid()
        invariant !crashed && i > 0 && events[i - 1].0 == Destroy ==> decision.Some?
        invariant Shown() == Played(was, events[..i])
        invariant was == OPENED ==> if decision.Some? then Decides(events, at, decision.value) else Silent(events[..i])
        invariant crashed ==> decision.Some?
      {
        PlayedMore(was, events, i);
        if was == OPENED && decision.None? { NextAnswer(events, i); }
        DestroyAsks(Shown(), events[i].1.nowSeconds);
        if decision.None? { at := i; }
        Handle(events[i].0, events[i].1);
        i := i + 1;
      }
      if crashed { PlayedStops(was, events, i); }
      assert events[..|events|] == events;
      if was == OPENED {
        if decision.Some? { DecisionAnswers(events, at, decision.value); } else { SilentAnswers(events); }
      }
    }
  }

  // ----- The screen against the log -----

  /** The uids of the request, zeros while none is read. */
  function ReceivedUids(log: Log): (int, int) {
    if ReceivedBy(log).Some? then ReceivedBy(log).value else (0, 0)
  }

  /** Event `at` is the first to answer, and this is the decision it makes. */
  predicate Decides(events: Log, at: nat, d: Decision) {
    && Deciding(events, at) && AnswerAt(events, at) == Some((d.allow, d.until))
    && (d.uid, d.desiredUid) == ReceivedUids(events[..at])
  }

  /** No event answers. */
  predicate Silent(events: Log) {
    Unanswered(events, |events|)
  }

  /** What a log without answers leaves on the screen. */
  function ScreenOf(log: Log): Screen {
    Screen(false, ReceivedBy(log).Some?, ReadyBy(log), ReceivedUids(log).0, ReceivedUids(log).1, ReadyBy(log),
           PadBy(log).None?, EnabledBy(log), true, LastChoice(log), PadBy(log), PostedBy(log), GoneBy(log), false)
  }

  /** What an event asks for is what the log says it answers. */
  lemma AsksIsAnswer(log: Log, e: Event, nowSeconds: int)
    ensures ScreenOf(log).Asks(e, nowSeconds) == AnswerTo(log, e, nowSeconds)
  {
    hide JavaInt, ReceivedBy, ReadyBy, PadBy, EnabledBy, LastChoice, PostedBy, GoneBy;
  }

  lemma DestroyAsks(u: Screen, nowSeconds: int)
    ensures u.Asks(Destroy, nowSeconds).None? ==> u.handled
  {
  }

  lemma SilentNothing(events: Log)
    ensures Silent(events[..0])
  {
  }

  lemma SilentMore(events: Log, i: nat)
    requires i < |events|
    ensures Silent(events[..i + 1]) <==> Silent(events[..i]) && AnswerAt(events, i).None?
    ensures Silent(events[..i]) <==> Unanswered(events, i)
  {
    hide AnswerTo;
    var a, b := events[..i], events[..i + 1];
    assert forall k :: 0 <= k < i ==> a[..k] == events[..k] && a[k] == events[k];
    assert forall k :: 0 <= k <= i ==> b[..k] == events[..k] && b[k] == events[k];
    assert forall k :: 0 <= k < i ==> AnswerAt(a, k) == AnswerAt(events, k);
    assert forall k :: 0 <= k <= i ==> AnswerAt(b, k) == AnswerAt(events, k);
  }

  lemma {:induction false} SilentScreen(log: Log)
    requires Silent(log)
    ensures Played(OPENED, log) == ScreenOf(log)
  {
    if log != [] {
      hide Screen.After, AnswerTo, Silent, ScreenOf;
      var i := |log| - 1;
      assert log[..i + 1] == log;
      SilentMore(log, i);
      SilentScreen(log[..i]);
      PlayedMore(OPENED, log, i);
      ScreenMore(log[..i], log[i]);
      assert log[..i] + [log[i]] == log;
    }
  }

  lemma FrontOfMore(log: Log, x: (Event, World))
    ensures Front(log + [x]) == log && Last(log + [x]) == x.0
  {
    assert (log + [x])[..|log|] == log;
  }

  /** The request and the chooser. */
  lemma RequestMore(log: Log, x: (Event, World))
    ensures ReceivedBy(log + [x]) == if ReceivedBy(log).Some? then ReceivedBy(log)
                                     else if x.0.Received? then Some((x.0.uid, x.0.desiredUid)) else None
    ensures ReadyBy(log + [x]) <==> ReadyBy(log) || (x.0.Ready? && ReceivedBy(log).Some?)
    ensures LastChoice(log + [x]) == if x.0.Choose? then x.0.choice else LastChoice(log)
    ensures GoneBy(log + [x]) <==> GoneBy(log) || x.0.SocketFileGone?
  {
    FrontOfMore(log, x);
  }

  /** The buttons, the pad and the automatic responses. */
  lemma ButtonsMore(log: Log, x: (Event, World))
    ensures EnabledBy(log + [x])
            <==> !x.0.ConfigurationChanged? && (EnabledBy(log) || (x.0.AllowTimer? && ReadyBy(log)))
    ensures PadBy(log + [x]) == if x.0.ConfigurationChanged? then None
                                else if PadBy(log).Some? then PadBy(log)
                                else if x.0 == ClickAllow(true) && EnabledBy(log)
                                then Some(Duration(log, x.1.nowSeconds)) else None
    ensures PostedBy(log + [x]) == PostedBy(log) + (match x.0
                                                    case Ready(Some(b)) => if ReceivedBy(log).Some? then [b] else []
                                                    case ConfigurationChanged(Some(b)) =>
                                                      if ReadyBy(log) then [b] else []
                                                    case _ => [])
  {
    hide ReadyBy, Duration, ReceivedBy;
    FrontOfMore(log, x);
  }

  /** Clicks and PINs that give no answer. */
  lemma ClickMore(log: Log, x: (Event, World))
    requires AnswerTo(log, x.0, x.1.nowSeconds).None?
    requires x.0.ClickAllow? || x.0.ClickDeny? || x.0.PinEnter? || x.0.PinCancel?
    ensures ScreenOf(log).After(x.0, x.1.nowSeconds) == ScreenOf(log + [x])
  {
    hide JavaInt, ReceivedBy, ReadyBy, PadBy, EnabledBy, LastChoice, PostedBy, GoneBy;
    RequestMore(log, x);
    ButtonsMore(log, x);
  }

  /** The request arrives or the screen is drawn. */
  lemma DrawMore(log: Log, x: (Event, World))
    requires AnswerTo(log, x.0, x.1.nowSeconds).None?
    requires x.0.Received? || x.0.Ready? || x.0.ConfigurationChanged?
    ensures ScreenOf(log).After(x.0, x.1.nowSeconds) == ScreenOf(log + [x])
  {
    hide JavaInt, ReceivedBy, ReadyBy, PadBy, EnabledBy, LastChoice, PostedBy, GoneBy;
    RequestMore(log, x);
    ButtonsMore(log, x);
    ReadyAllows(log);
  }

  /** Timers, choices and posted responses. */
  lemma TimeMore(log: Log, x: (Event, World))
    requires AnswerTo(log, x.0, x.1.nowSeconds).None?
    requires x.0.AllowTimer? || x.0.Choose? || x.0.RunPosted? || x.0.Timeout? || x.0.SocketFileGone? || x.0.Destroy?
    ensures ScreenOf(log).After(x.0, x.1.nowSeconds) == ScreenOf(log + [x])
  {
    hide JavaInt, ReceivedBy, ReadyBy, PadBy, EnabledBy, LastChoice, PostedBy, GoneBy;
    RequestMore(log, x);
    ButtonsMore(log, x);
  }

  /** An event that gives no answer changes the screen as the log says. */
  lemma ScreenMore(log: Log, x: (Event, World))
    requires AnswerTo(log, x.0, x.1.nowSeconds).None?
    ensures ScreenOf(log).After(x.0, x.1.nowSeconds) == ScreenOf(log + [x])
  {
    hide AnswerTo, ScreenOf, Screen.After;
    if x.0.ClickAllow? || x.0.ClickDeny? || x.0.PinEnter? || x.0.PinCancel? {
      ClickMore(log, x);
    } else if x.0.Received? || x.0.Ready? || x.0.ConfigurationChanged? {
      DrawMore(log, x);
    } else {
      TimeMore(log, x);
    }
  }

  /** Nothing is ready, enabled, open or posted before the request is read. */
  lemma {:induction false} ReadyAllows(log: Log)
    ensures ReadyBy(log) ==> ReceivedBy(log).Some?
  {
    if log != [] { ReadyAllows(Front(log)); }
  }

  /** The next event, behind a log without answers. */
  lemma NextAnswer(events: Log, i: nat)
    requires i < |events| && Silent(events[..i])
    ensures Played(OPENED, events[..i]).Asks(events[i].0, events[i].1.nowSeconds) == AnswerAt(events, i)
    ensures AnswerAt(events, i).None? ==> Silent(events[..i + 1])
    ensures forall d: Decision ::
              (&& AnswerAt(events, i) == Some((d.allow, d.until))
               && d.uid == Played(OPENED, events[..i]).uid
               && d.desiredUid == Played(OPENED, events[..i]).desiredUid) ==>
                Decides(events, i, d)
  {
    hide Silent, Screen.Asks, AnswerTo, Unanswered, Played, ReceivedBy;
    SilentScreen(events[..i]);
    AsksIsAnswer(events[..i], events[i].0, events[i].1.nowSeconds);
    SilentMore(events, i);
  }

  lemma DecisionAnswers(events: Log, at: nat, d: Decision)
    requires Decides(events, at, d)
    ensures FirstAnswer(events, at, d.allow)
  {
    hide AnswerTo, FirstAnswer;
    DecidingIff(events, at, d.allow);
  }

  lemma SilentAnswers(events: Log)
    requires Silent(events)
    ensures NoAnswer(events, |events|)
  {
    UnansweredIff(events, |events|);
  }

  // ----- Runs as they are meant -----

  function PreparedLog(uid: int, desiredUid: int, choice: Choice, w: World): Log {
    [(Received(uid, desiredUid), w), (Ready(None), w), (AllowTimer, w), (Choose(Some(choice)), w)]
  }

  /** A request is shown, the countdown has ended, and a choice has been made. */
  lemma Prepared(uid: int, desiredUid: int, choice: Choice, w: World)
    ensures var log := PreparedLog(uid, desiredUid, choice, w);
            && Silent(log) && EnabledBy(log) && ReadyBy(log) && PadBy(log).None?
            && LastChoice(log) == Some(choice) && PostedBy(log) == [] && ReceivedBy(log) == Some((uid, desiredUid))
  {
    var log := PreparedLog(uid, desiredUid, choice, w);
    hide Duration, ReadyBy, ReceivedBy, LastChoice, EnabledBy, PadBy, PostedBy, GoneBy;
    EmptyLog();
    assert log[..0] == [];
    for i := 0 to 4
      invariant PadBy(log[..i]).None? && PostedBy(log[..i]) == []
      invariant (i >= 1 ==> ReceivedBy(log[..i]) == Some((uid, desiredUid))) && (i >= 2 ==> ReadyBy(log[..i]))
      invariant (i >= 3 ==> EnabledBy(log[..i])) && (i == 4 ==> LastChoice(log[..i]) == Some(choice))
    {
      assert log[..i + 1] == log[..i] + [log[i]];
      RequestMore(log[..i], log[i]);
      ButtonsMore(log[..i], log[i]);
    }
    assert log[..4] == log;
  }

  lemma EmptyLog()
    ensures PadBy([]).None? && PostedBy([]) == [] && !EnabledBy([]) && ReceivedBy([]).None?
  {
  }

  /** For how long a choice is remembered. */
  function Remembered(choice: Choice, nowSeconds: int): int {
    match choice
    case ThisTimeOnly => -1
    case RememberFor => JavaInt(JavaInt(nowSeconds) + 600)
    case RememberForever => 0
  }

  /** Request, countdown, choice and click: the request is allowed, or denied, for as long as was chosen, counted from
      the click. */
  lemma ClickedAsChosen(uid: int, desiredUid: int, choice: Choice, w: World, click: World)
    ensures var log := PreparedLog(uid, desiredUid, choice, w);
            && Decides(log + [(ClickAllow(false), click)], 4,
                       Decision(true, Remembered(choice, click.nowSeconds), uid, desiredUid))
            && Decides(log + [(ClickDeny, click)], 4,
                       Decision(false, Remembered(choice, click.nowSeconds), uid, desiredUid))
  {
    hide JavaInt, ReadyBy, LastChoice, EnabledBy, PadBy, PostedBy, Silent, Unanswered, ReceivedBy;
    var log := PreparedLog(uid, desiredUid, choice, w);
    Prepared(uid, desiredUid, choice, w);
    AnswersLast(log, (ClickAllow(false), click));
    AnswersLast(log, (ClickDeny, click));
  }

  /** With a PIN the same, once the right one is given, still counted from the click; a wrong one decides nothing. */
  lemma PinAsChosen(uid: int, desiredUid: int, choice: Choice, w: World, click: World, given: World)
    ensures var log := PreparedLog(uid, desiredUid, choice, w) + [(ClickAllow(true), click)]
                       + [(PinEnter(false), given)];
            && Decides(log + [(PinEnter(true), given)], 6,
                       Decision(true, Remembered(choice, click.nowSeconds), uid, desiredUid))
            && Decides(log + [(PinCancel, given)], 6, Decision(false, -1, uid, desiredUid))
  {
    hide JavaInt, ReadyBy, LastChoice, EnabledBy, PadBy, PostedBy, Silent, Unanswered, ReceivedBy;
    var log := PreparedLog(uid, desiredUid, choice, w);
    var opening, wrong := (ClickAllow(true), click), (PinEnter(false), given);
    Prepared(uid, desiredUid, choice, w);
    StaysSilent(log, opening);
    ButtonsMore(log, opening);
    RequestMore(log, opening);
    StaysSilent(log + [opening], wrong);
    ButtonsMore(log + [opening], wrong);
    RequestMore(log + [opening], wrong);
    AnswersLast(log + [opening] + [wrong], (PinEnter(true), given));
    AnswersLast(log + [opening] + [wrong], (PinCancel, given));
  }

  lemma StaysSilent(log: Log, x: (Event, World))
    requires Silent(log) && AnswerTo(log, x.0, x.1.nowSeconds).None?
    ensures Silent(log + [x])
  {
    hide AnswerTo, Silent;
    assert (log + [x])[..|log|] == log && (log + [x])[..|log| + 1] == log + [x];
    SilentMore(log + [x], |log|);
  }

  lemma AnswersLast(log: Log, x: (Event, World))
    requires Silent(log)
    ensures AnswerAt(log + [x], |log|) == AnswerTo(log, x.0, x.1.nowSeconds)
    ensures Unanswered(log + [x], |log|) && (log + [x])[..|log|] == log
  {
    hide AnswerTo, Silent;
    assert (log + [x])[..|log|] == log;
    SilentMore(log + [x], |log|);
  }

  /** An automatic response to a request, and the end of the time, decide by themselves. */
  lemma DecidedAlone(uid: int, desiredUid: int, allow: bool, w: World)
    ensures Decides([(Received(uid, desiredUid), w)] + [(Ready(Some(allow)), w)] + [(RunPosted, w)], 2,
                    Decision(allow, 0, uid, desiredUid))
    ensures Decides([(Received(uid, desiredUid), w)] + [(Timeout, w)], 1, Decision(false, -1, uid, desiredUid))
  {
    hide Unanswered, Silent, PostedBy, ReceivedBy, GoneBy;
    var received, ready := (Received(uid, desiredUid), w), (Ready(Some(allow)), w);
    EmptyIsSilent();
    assert [] + [received] == [received];
    StaysSilent([], received);
    RequestMore([], received);
    ButtonsMore([], received);
    StaysSilent([received], ready);
    ButtonsMore([received], ready);
    RequestMore([received], ready);
    AnswersLast([received] + [ready], (RunPosted, w));
    AnswersLast([received], (Timeout, w));
  }

  lemma EmptyIsSilent()
    ensures Silent([]) && PostedBy([]) == [] && !GoneBy([]) && ReceivedBy([]).None?
  {
  }

  // ----- When an activity dies of a second answer -----

  /** The screen after a run of events, which a failed assertion cuts short. */
  function Played(v: Screen, events: Log): Screen {
    if events == [] then v
    else
      var u := Played(v, events[..|events| - 1]);
      var last := events[|events| - 1];
      if u.crashed then u else u.After(last.0, last.1.nowSeconds)
  }

  lemma PlayedNothing(v: Screen, events: Log)
    ensures Played(v, events[..0]) == v
  {
  }

  lemma PlayedMore(v: Screen, events: Log, i: nat)
    requires i < |events|
    ensures var u := Played(v, events[..i]);
            Played(v, events[..i + 1]) == if u.crashed then u else u.After(events[i].0, events[i].1.nowSeconds)
  {
    hide Screen.After;
    assert events[..i + 1][..i] == events[..i];
  }

  lemma {:induction false} PlayedStops(v: Screen, events: Log, i: nat)
    requires i <= |events| && Played(v, events[..i]).crashed
    ensures Played(v, events) == Played(v, events[..i])
    decreases |events| - i
  {
    hide Played;
    if i < |events| {
      PlayedMore(v, events, i);
      PlayedStops(v, events, i + 1);
    } else {
      assert events[..i] == events;
    }
  }

  /** Event `i` of the run asks for an answer, and the activity is still alive. */
  predicate AsksAt(v: Screen, events: Log, i: nat) {
    && i < |events|
    && var u := Played(v, events[..i]); !u.crashed && u.Asks(events[i].0, events[i].1.nowSeconds).Some?
  }

  lemma Redrawing(u: Screen, automatic: Option<bool>)
    ensures u.Redrawn(automatic).handled == u.handled && u.Redrawn(automatic).crashed == u.crashed
    ensures u.Showing(automatic).handled == u.handled && u.Showing(automatic).crashed == u.crashed
  {
  }

  lemma ClickActs(u: Screen, e: Event, nowSeconds: int)
    requires !u.crashed && (e.ClickAllow? || e.ClickDeny?)
    ensures var t := u.After(e, nowSeconds);
            && t.handled == (u.handled || u.Asks(e, nowSeconds).Some?)
            && t.crashed == (u.handled && u.Asks(e, nowSeconds).Some?)
  {
    hide Screen.Until, Screen.Redrawn, Screen.Showing;
  }

  lemma PinActs(u: Screen, e: Event, nowSeconds: int)
    requires !u.crashed && (e.PinEnter? || e.PinCancel?)
    ensures var t := u.After(e, nowSeconds);
            && t.handled == (u.handled || u.Asks(e, nowSeconds).Some?)
            && t.crashed == (u.handled && u.Asks(e, nowSeconds).Some?)
  {
    hide Screen.Until, Screen.Redrawn, Screen.Showing;
  }

  lemma UnattendedActs(u: Screen, e: Event, nowSeconds: int)
    requires !u.crashed && (e.RunPosted? || e.Timeout? || e.Destroy?)
    ensures var t := u.After(e, nowSeconds);
            && t.handled == (u.handled || u.Asks(e, nowSeconds).Some?)
            && t.crashed == (u.handled && u.Asks(e, nowSeconds).Some?)
  {
    hide Screen.Until, Screen.Redrawn, Screen.Showing, Screen.Clicked;
  }

  lemma OtherActs(u: Screen, e: Event, nowSeconds: int)
    requires !u.crashed && !e.ClickAllow? && !e.ClickDeny? && !e.PinEnter? && !e.PinCancel?
    requires !e.RunPosted? && !e.Timeout? && !e.Destroy?
    ensures var t := u.After(e, nowSeconds);
            t.handled == u.handled && !t.crashed && u.Asks(e, nowSeconds).None?
  {
    hide Screen.Until, Screen.Redrawn, Screen.Showing, Screen.Clicked, Screen.Acted;
    if e.Ready? { Redrawing(u.(ready := true), e.automatic); }
    if e.ConfigurationChanged? { Redrawing(u, e.automatic); }
  }

  lemma AskingActs(u: Screen, e: Event, nowSeconds: int)
    requires !u.crashed
    ensures var t := u.After(e, nowSeconds);
            && t.handled == (u.handled || u.Asks(e, nowSeconds).Some?)
            && t.crashed == (u.handled && u.Asks(e, nowSeconds).Some?)
  {
    hide Screen.After, Screen.Asks;
    if e.ClickAllow? || e.ClickDeny? {
      ClickActs(u, e, nowSeconds);
    } else if e.PinEnter? || e.PinCancel? {
      PinActs(u, e, nowSeconds);
    } else if e.RunPosted? || e.Timeout? || e.Destroy? {
      UnattendedActs(u, e, nowSeconds);
    } else {
      OtherActs(u, e, nowSeconds);
    }
  }

  ghost predicate AskedIn(v: Screen, events: Log, n: nat) {
    exists i: nat :: i < n && AsksAt(v, events, i)
  }

  ghost predicate AskedTwiceIn(v: Screen, events: Log, n: nat) {
    exists i: nat, j: nat :: i < j < n && AsksAt(v, events, i) && AsksAt(v, events, j)
  }

  lemma {:induction false} CrashedAt(v: Screen, events: Log, n: nat)
    requires !v.handled && !v.crashed && n <= |events|
    ensures Played(v, events[..n]).handled <==> AskedIn(v, events, n)
    ensures Played(v, events[..n]).crashed <==> AskedTwiceIn(v, events, n)
  {
    hide Played, AsksAt, Screen.After, Screen.Asks;
    if n == 0 {
      PlayedNothing(v, events);
    } else {
      CrashedAt(v, events, n - 1);
      PlayedMore(v, events, n - 1);
      AsksNow(v, events, n - 1);
    }
  }

  lemma AsksNow(v: Screen, events: Log, i: nat)
    requires i < |events|
    ensures var u := Played(v, events[..i]);
            var t := u.After(events[i].0, events[i].1.nowSeconds);
            if u.crashed then !AsksAt(v, events, i)
            else t.handled == (u.handled || AsksAt(v, events, i)) && t.crashed == (u.handled && AsksAt(v, events, i))
  {
    hide Played, Screen.After, Screen.Asks;
    var u := Played(v, events[..i]);
    if !u.crashed { AskingActs(u, events[i].0, events[i].1.nowSeconds); }
  }

  /** An activity dies exactly when some event asks for an answer after an earlier one did, and it has answered exactly
      when one did. */
  lemma CrashIff(events: Log)
    ensures Played(OPENED, events).crashed
            <==> exists i: nat, j: nat :: i < j < |events| && AsksAt(OPENED, events, i) && AsksAt(OPENED, events, j)
    ensures Played(OPENED, events).handled <==> exists i: nat :: i < |events| && AsksAt(OPENED, events, i)
  {
    hide Played, AsksAt;
    CrashedAt(OPENED, events, |events|);
    assert events[..|events|] == events;
  }

  /** It happens: a denial, a turn of the device, and a denial again. */
  lemma SecondDenialCrashes(w: World)
    ensures Played(OPENED, [(ClickDeny, w), (ConfigurationChanged(None), w), (ClickDeny, w)]).crashed
  {
    var events := [(ClickDeny, w), (ConfigurationChanged(None), w), (ClickDeny, w)];
    PlayedNothing(OPENED, events);
    PlayedMore(OPENED, events, 0);
    PlayedMore(OPENED, events, 1);
    PlayedMore(OPENED, events, 2);
    assert events[..3] == events;
  }

  /** The ten minutes wrap around at the end of the clock's range; the time stored is then negative, and not -1. */
  lemma GrantWraps()
    ensures JavaInt(JavaInt(0x7fff_ffff) + GRACE_PERIOD * 60) < -1
  {
  }

  // ----- su's end of the reply -----

  const SOCKET_RESPONSE := "socket:"

  /** What the received text decides. */
  function Decoded(result: string): P.Verdict {
    var answer := if SOCKET_RESPONSE <= result then result[|SOCKET_RESPONSE|..] else result;
    if answer == "ALLOW" then P.ALLOW else P.DENY
  }

  /** socket_receive_result and the comparison after it, over whatever part of the reply the single read returns;
      `got` is None when the read fails. */
  method ReceiveAnswer(available: string) returns (verdict: P.Verdict, ghost got: Option<string>)
    requires NulFree(available)
    ensures got.Some? ==> got.value <= available && |got.value| <= 63
    ensures verdict == if got.None? then P.DENY else Decoded(got.value)
    ensures verdict == P.DENY || (verdict == P.ALLOW && ("ALLOW" <= available || "socket:ALLOW" <= available))
  {
    var buf := new char[64];
    var len: int :| -1 <= len <= |available| && len <= buf.Length - 1;
    got := None;
    if len < 0 { return P.DENY, got; }
    forall i | 0 <= i < len { buf[i] := available[i]; }
    buf[len] := NUL;
    got := Some(available[..len]);
    var text := ReadCString(buf, 0, available[..len]);
    var result := 0;
    if SOCKET_RESPONSE <= text { result := |SOCKET_RESPONSE|; }
    if text[result..] == "DENY" { return P.DENY, got; }
    verdict := if text[result..] == "ALLOW" then P.ALLOW else P.DENY;
  }

  /** su allows exactly when the whole reply to an allowed request arrived; anything cut short is a denial. */
  lemma ReplyDecoded(allow: bool, got: string)
    requires got <= ReplyText(allow)
    ensures Decoded(got) == P.ALLOW <==> allow && got == ReplyText(allow)
    ensures got == ReplyText(allow) ==> Decoded(got) == if allow then P.ALLOW else P.DENY
  {
    var t := ReplyText(allow);
    assert got == t[..|got|];
    assert "socket:ALLOW"[7..] == "ALLOW" && "socket:DENY"[7..] == "DENY";
    if SOCKET_RESPONSE <= got {
      var answer := got[7..];
      assert answer == t[7..][..|answer|];
      assert |answer| == 5 ==> allow && got == t;
    } else {
      assert got == "" || got[0] == 's';
    }
  }

  // ----- The policy check that reads the table later -----

  /** The query's rows: those of the caller's uid, as texts. */
  function Query(rows: Rows, uid: int): seq<P.Row> {
    if rows == [] then []
    else
      var r := rows[0];
      (if r.uid == uid then [RowOf(r)] else []) + Query(rows[1..], uid)
  }

  function RowOf(r: UidPolicy): P.Row {
    P.Row(r.policy, Some(FormatInt(r.until)), r.command)
  }

  lemma {:induction false} QueryHas(rows: Rows, uid: int, q: P.Row)
    ensures q in Query(rows, uid) <==> exists r :: r in rows && r.uid == uid && RowOf(r) == q
  {
    if rows != [] {
      QueryHas(rows[1..], uid, q);
      assert forall r :: r in rows <==> r == rows[0] || r in rows[1..];
    }
  }

  /** A stored row as the check sees it. */
  predicate LiveFor(r: UidPolicy, uid: int, cmd: string, now: int) {
    && r.uid == uid
    && (r.command.None? || r.command.value == "" || r.command.value == cmd)
    && (r.until == 0 || r.until > now)
  }

  predicate Denying(r: UidPolicy) {
    r.policy != "allow" && r.policy != "interactive"
  }

  /** Some row denies the request. */
  ghost predicate DeniedBy(rows: Rows, uid: int, cmd: string, now: int) {
    exists r :: r in rows && LiveFor(r, uid, cmd, now) && Denying(r)
  }

  lemma RowsAgree(r: UidPolicy, uid: int, cmd: string, now: int)
    requires r.uid == uid
    ensures RowOf(r).Live(cmd, now) == LiveFor(r, uid, cmd, now) && RowOf(r).Denies() == Denying(r)
  {
    AtoiInverts(r.until);
  }

  /** A live row of the query, denying if asked for, comes from such a row of the table, and the other way round. */
  lemma QueryLive(rows: Rows, uid: int, cmd: string, now: int, deny: bool)
    ensures (exists k :: 0 <= k < |Query(rows, uid)| && Query(rows, uid)[k].Live(cmd, now)
                         && (deny ==> Query(rows, uid)[k].Denies()))
            <==> exists r :: r in rows && LiveFor(r, uid, cmd, now) && (deny ==> Denying(r))
  {
    hide Query, RowOf, P.Row.Live, P.Row.Denies, Denying;
    var qs := Query(rows, uid);
    if k :| 0 <= k < |qs| && qs[k].Live(cmd, now) && (deny ==> qs[k].Denies()) {
      assert qs[k] in qs;
      QueryHas(rows, uid, qs[k]);
      var r :| r in rows && r.uid == uid && RowOf(r) == qs[k];
      RowsAgree(r, uid, cmd, now);
    }
    if r :| r in rows && LiveFor(r, uid, cmd, now) && (deny ==> Denying(r)) {
      QueryHas(rows, uid, RowOf(r));
      var k :| 0 <= k < |qs| && qs[k] == RowOf(r);
      RowsAgree(r, uid, cmd, now);
    }
  }

  /** The native check, stated on the app's table. */
  lemma CheckOnTable(rows: Rows, uid: int, cmd: string, now: int)
    ensures P.Rule(Query(rows, uid), cmd, now)
         == if DeniedBy(rows, uid, cmd, now) then P.DENY
            else if exists r :: r in rows && LiveFor(r, uid, cmd, now) then P.ALLOW
            else P.INTERACTIVE
  {
    hide Query, P.Row.Live, P.Row.Denies, LiveFor, Denying;
    QueryLive(rows, uid, cmd, now, true);
    QueryLive(rows, uid, cmd, now, false);
  }

  /** After an answer is stored and while its row is live: a denial is final, and an allowance stands unless another
      live matching row of the caller denies. */
  lemma StoredAnswerDecides(start: Rows, d: Decision, info: Info, cmd: string, now: int)
    requires d.until == 0 || d.until > now
    ensures var rows := Put(start, PolicyOf(d, info));
            P.Rule(Query(rows, d.uid), cmd, now)
            == if !d.allow || (exists r :: r in start && LiveFor(r, d.uid, cmd, now) && Denying(r)
                                           && !PolicyOf(d, info).Normalised().SameKey(r))
               then P.DENY else P.ALLOW
  {
    hide Query, P.Rule;
    var p := PolicyOf(d, info).Normalised();
    var rows := Put(start, PolicyOf(d, info));
    forall r
      ensures r in rows <==> r == p || (r in start && !p.SameKey(r))
    {
      RemoveKeeps(start, Key(p), r);
    }
    CheckOnTable(rows, d.uid, cmd, now);
    assert p in rows && LiveFor(p, d.uid, cmd, now);
  }

  /** Calls of the database helper, in any number and order. */
  method Perform(db: SuDatabase, ops: seq<Op>)
    modifies db
    ensures db.rows == PolicyTable.Run(old(db.rows), ops)
  {
    hide Put, Remove;
    for i := 0 to |ops|
      invariant PolicyTable.Run(db.rows, ops[i..]) == PolicyTable.Run(old(db.rows), ops)
    {
      assert ops[i..][1..] == ops[i + 1..];
      match ops[i] {
        case DoSet(p) => db.SetPolicy(p);
        case DoDelete(p) => var _ := db.Delete(p);
        case DoList(now) => var _ := db.GetPolicies(now);
      }
    }
  }

  /** The whole way: a request is answered, su reads whatever part of the reply arrives, the app goes on using its
      table, and su checks it later. su allows only what was allowed, and follows a reply that arrived whole. A stored
      answer that no operation touched decides the later check while its row is live: a denial denies, and an allowance
      allows unless another live matching row denies. */
  method AnswerThenCheck(db: SuDatabase, events: Log, ops: seq<Op>, cmd: string, now: int)
    returns (reply: P.Verdict, later: P.Verdict,
             ghost d: Option<Decision>, ghost stored: Option<UidPolicy>, ghost whole: bool, ghost at: nat)
    modifies db
    ensures reply == P.ALLOW ==> d.Some? && d.value.allow && FirstAnswer(events, at, true)
    ensures if d.Some? then FirstAnswer(events, at, d.value.allow) else NoAnswer(events, |events|)
    ensures if d.Some? then Decides(events, at, d.value) else Silent(events)
    ensures whole && d.Some? ==> reply == if d.value.allow then P.ALLOW else P.DENY
    ensures stored.Some? ==> d.Some? && stored.value == PolicyOf(d.value, stored.value.info)
    ensures db.rows == PolicyTable.Run(if stored.Some? then Put(old(db.rows), stored.value) else old(db.rows), ops)
    ensures stored.Some? && (d.value.until == 0 || d.value.until > now) && AllSpare(ops, stored.value.Normalised()) ==>
              later == if !d.value.allow || DeniedBy(db.rows, d.value.uid, cmd, now) then P.DENY else P.ALLOW
  {
    hide Put, Query, Decoded, P.Rule, P.RuleOver, PolicyTable.Run, AllSpare, FirstAnswer, NoAnswer, Decides, Silent;
    var a := new Activity(db);
    at := a.Run(events);
    d, stored := a.decision, a.stored;
    ghost var got;
    var text := if a.sent == [] then "" else a.sent[0];
    reply, got := ReceiveAnswer(text);
    whole := a.sent != [] && got == Some(text);
    if got.Some? { Answered(d, a.sent, got.value); }
    Perform(db, ops);
    var rows := Query(db.rows, a.mCallerUid);
    var clock := seq(|rows|, _ => now);
    later := P.DatabaseCheck(P.Engine(false, None), rows, cmd, clock);
    P.SteadyClock(rows, cmd, clock, now);
    if stored.Some? && (d.value.until == 0 || d.value.until > now) && AllSpare(ops, stored.value.Normalised()) {
      StoredAnswerLasts(a.start, d.value, stored.value.info, ops, cmd, now);
    }
  }

  /** A stored row that a run spares decides the check after it, in the same way as right after the answer. */
  lemma StoredAnswerLasts(start: Rows, d: Decision, info: Info, ops: seq<Op>, cmd: string, now: int)
    requires d.until == 0 || d.until > now
    requires AllSpare(ops, PolicyOf(d, info).Normalised())
    ensures var rows := PolicyTable.Run(Put(start, PolicyOf(d, info)), ops);
            P.Rule(Query(rows, d.uid), cmd, now)
            == if !d.allow || DeniedBy(rows, d.uid, cmd, now) then P.DENY else P.ALLOW
  {
    hide Query, P.Rule, PolicyTable.Run, AllSpare;
    var p := PolicyOf(d, info).Normalised();
    var rows := PolicyTable.Run(Put(start, PolicyOf(d, info)), ops);
    assert p in Put(start, PolicyOf(d, info));
    RowStays(Put(start, PolicyOf(d, info)), ops, p);
    CheckOnTable(rows, d.uid, cmd, now);
    assert LiveFor(p, d.uid, cmd, now) && (Denying(p) <==> !d.allow);
  }

  lemma Answered(d: Option<Decision>, sent: seq<string>, got: string)
    requires sent == [] || (d.Some? && sent == [ReplyText(d.value.allow)])
    requires got <= if sent == [] then "" else sent[0]
    ensures Decoded(got) == P.ALLOW ==> d.Some? && d.value.allow
    ensures sent != [] && got == sent[0] ==> Decoded(got) == if d.value.allow then P.ALLOW else P.DENY
  {
    if sent != [] { ReplyDecoded(d.value.allow, got); }
  }
}
