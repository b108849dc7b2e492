/** What the user typed is what greetd is told, and what greetd said is what the screen shows, in every run. */
module GreeterText {
  import opened Basics
  import opened TerminalOutput
  import opened LoginScreen
  import opened GreeterProtocol

  /** The events that empty the input line. */
  predicate Clears(w: World, e: Event) {
    match e
    case Enter => w.screen.phase.EnteringUsername? || w.screen.phase.EnteringResponse? || w.screen.phase.Failed?
    case Escape =>
      || w.screen.phase.EnteringUsername? || w.screen.phase.Failed?
      || (!w.alive && (w.screen.phase.EnteringResponse? || w.screen.phase.Authenticating?))
    case Deliver => w.screen.phase.Cancelling?
    case _ => false
  }

  /** The text in the line after an event. */
  function TypedNext(text: string, w: World, e: Event): string {
    match e
    case Key(c) => text + [c]
    case Backspace => if text == "" then "" else text[..|text| - 1]
    case _ => if Clears(w, e) then "" else text
  }

  /** The text typed since the line was last emptied, told from the keys. */
  ghost function Typed(ws: seq<World>, es: seq<Event>, n: nat): string
    requires IsRun(ws, es) && n <= |es|
  {
    if n == 0 then "" else TypedNext(Typed(ws, es, n - 1), ws[n - 1], es[n - 1])
  }

  lemma StepTypes(w: World, e: Event)
    requires Enabled(w, e)
    ensures Step(w, e).screen.input == TypedNext(w.screen.input, w, e)
  {
  }

  lemma {:induction false} InputIsTyped(ws: seq<World>, es: seq<Event>, n: nat)
    requires IsRun(ws, es) && n <= |es|
    ensures ws[n].screen.input == Typed(ws, es, n)
  {
    hide Step, TypedNext, Enabled;
    if n > 0 {
      InputIsTyped(ws, es, n - 1);
      StepTypes(ws[n - 1], es[n - 1]);
    }
  }

  /** u is the text without the blanks at its edges. */
  ghost predicate Trimmed(text: string, u: string) {
    exists a: nat, b: nat :: a <= b <= |text| && TrimmedAt(text, u, a, b)
  }

  predicate TrimmedAt(text: string, u: string, a: nat, b: nat)
    requires a <= b <= |text|
  {
    && u == text[a..b] && (forall k | 0 <= k < a :: IsSpace(text[k])) && (forall k | b <= k < |text| :: IsSpace(text[k]))
    && (u != "" ==> !IsSpace(u[0]) && !IsSpace(u[|u| - 1]))
  }

  lemma {:induction false} StartTrims(s: string)
    ensures var t := TrimStart(s);
      && |t| <= |s| && t == s[|s| - |t|..] && (t != "" ==> !IsSpace(t[0]))
      && forall k | 0 <= k < |s| - |t| :: IsSpace(s[k])
  {
    hide IsSpace;
    if s != "" && IsSpace(s[0]) {
      StartTrims(s[1..]);
      forall k | 0 <= k < |s| - |TrimStart(s)| ensures IsSpace(s[k]) {
        if k > 0 { assert s[1..][k - 1] == s[k]; }
      }
    }
  }

  lemma {:induction false} EndTrims(s: string)
    ensures var t := TrimEnd(s);
      && |t| <= |s| && t == s[..|t|] && (t != "" ==> !IsSpace(t[|t| - 1]))
      && forall k | |t| <= k < |s| :: IsSpace(s[k])
  {
    hide IsSpace;
    if s != "" && IsSpace(s[|s| - 1]) { EndTrims(s[..|s| - 1]); }
  }

  lemma TrimTrims(text: string)
    ensures Trimmed(text, Trim(text))
  {
    hide IsSpace, TrimStart, TrimEnd;
    StartTrims(text);
    var left := TrimStart(text);
    EndTrims(left);
    var a := |text| - |left|;
    var b := a + |Trim(text)|;
    forall k | b <= k < |text| ensures IsSpace(text[k]) { assert left[k - a] == text[k]; }
    assert TrimmedAt(text, Trim(text), a, b);
  }

  /** How the request came about that was sent at event i. */
  ghost predicate SentAt(ws: seq<World>, es: seq<Event>, i: nat, r: Request)
    requires IsRun(ws, es) && i < |es|
  {
    match r
    case CreateSession(u) =>
      && es[i] == Enter && ws[i].screen.phase.EnteringUsername?
      && Trimmed(Typed(ws, es, i), u) && ws[i + 1].screen.username == u
    case PostAuthMessageResponse(x) =>
      && es[i] == Enter && ws[i].screen.phase.EnteringResponse?
      && x == Some(Typed(ws, es, i))
    case CancelSession =>
      es[i] == Escape && (ws[i].screen.phase.EnteringResponse? || ws[i].screen.phase.Authenticating?)
    case StartSession(cmd, env) =>
      && es[i] == Deliver && ws[i].delivered < |ws[i].replies| && ws[i].replies[ws[i].delivered] == Answer(Success)
      && cmd == ["/usr/local/bin/focaldesk-desktop"]
      && env == ["XDG_SESSION_TYPE=wayland", "XDG_CURRENT_DESKTOP=FocalDesk"]
  }

  lemma StepSends(ws: seq<World>, es: seq<Event>, i: nat)
    requires IsRun(ws, es) && i < |es|
    ensures ws[i].sent <= ws[i + 1].sent && |ws[i + 1].sent| <= |ws[i].sent| + 1
    ensures |ws[i + 1].sent| > |ws[i].sent| ==> SentAt(ws, es, i, ws[i + 1].sent[|ws[i].sent|])
  {
    hide Typed, Trim, Trimmed;
    assert Enabled(ws[i], es[i]) && ws[i + 1] == Step(ws[i], es[i]);
    InputIsTyped(ws, es, i);
    TrimTrims(ws[i].screen.input);
  }

  /** In every run: each answer that greetd is given is, to the letter, what was typed when Enter was pressed at the
      prompt; each login name what was typed at the username, without the blanks at its edges; a session is cancelled
      by Escape only, and started on a Success only. */
  lemma {:induction false} TellsWhatWasTyped(ws: seq<World>, es: seq<Event>, n: nat, j: nat)
    requires IsRun(ws, es) && n <= |es| && j < |ws[n].sent|
    ensures exists i | 0 <= i < n :: |ws[i].sent| == j < |ws[i + 1].sent| && SentAt(ws, es, i, ws[n].sent[j])
  {
    hide SentAt;
    if n > 0 {
      StepSends(ws, es, n - 1);
      if j < |ws[n - 1].sent| {
        TellsWhatWasTyped(ws, es, n - 1, j);
        assert ws[n].sent[j] == ws[n - 1].sent[j];
      } else {
        assert |ws[n - 1].sent| == j;
      }
    }
  }

  /** The reply delivered last. */
  function LastReply(w: World): Option<Reply>
  {
    if w.delivered == 0 || w.delivered > |w.replies| then None else Some(w.replies[w.delivered - 1])
  }

  /** What the screen says of that reply: the prompt and whether it is secret, or the message of the failure. */
  predicate Shows(w: World) {
    w.delivered <= |w.replies| &&
    match w.screen.phase
    case EnteringResponse(secret, prompt) =>
      || (secret && LastReply(w) == Some(Answer(AuthMessage(Secret, prompt))))
      || (!secret && exists kind :: kind != Secret && LastReply(w) == Some(Answer(AuthMessage(kind, prompt))))
    case Failed(message) => LastReply(w).Some? && message == Failure(LastReply(w).value)
    case Starting => LastReply(w) == Some(Answer(Success))
    case _ => true
  }

  /** A reply to a screen that is not cancelling moves it to where that reply belongs. */
  predicate Told(w: World) {
    match LastReply(w)
    case None => false
    case Some(Answer(AuthMessage(kind, prompt))) => w.screen.phase == EnteringResponse(kind == Secret, prompt)
    case Some(Answer(Success)) => w.screen.phase == Starting
    case Some(reply) => w.screen.phase == Failed(Failure(reply))
  }

  function Failure(reply: Reply): string {
    match reply
    case Broken(error) => "greetd IPC error: " + error
    case Answer(Failure(AuthError, description)) => "authentication failed: " + description
    case Answer(Failure(GeneralError, description)) => "greetd error: " + description
    case Answer(_) => ""
  }

  lemma StepShows(w: World, e: Event)
    requires Shows(w) && Enabled(w, e)
    ensures Shows(Step(w, e))
    ensures Step(w, e).exited && !w.exited ==> w.screen.phase.Starting? && LastReply(Step(w, e)) == Some(Answer(Success))
  {
  }

  lemma DeliveryTells(w: World)
    requires Enabled(w, Deliver) && !w.screen.phase.Cancelling?
    ensures Told(Step(w, Deliver))
  {
    hide Enabled;
    assert w.delivered < |w.replies| by { EnabledDelivery(w); }
    var reply := w.replies[w.delivered];
    assert LastReply(Step(w, Deliver)) == Some(reply);
  }

  lemma EnabledDelivery(w: World)
    ensures Enabled(w, Deliver) ==> w.delivered < |w.replies|
  {
  }

  /** In every state the prompt is the one that greetd asked last, hidden exactly when it is for a secret; a failure is
      told in its words; the session starts, and the process ends, on Success only. And each reply is told, unless the
      screen is cancelling. */
  lemma {:induction false} ShowsWhatWasSaid(ws: seq<World>, es: seq<Event>, n: nat)
    requires IsRun(ws, es) && n <= |es|
    ensures Shows(ws[n])
    ensures ws[n].exited ==> LastReply(ws[n]) == Some(Answer(Success))
    ensures n > 0 && es[n - 1] == Deliver && !ws[n - 1].screen.phase.Cancelling? ==> Told(ws[n])
  {
    if n > 0 {
      ShowsWhatWasSaid(ws, es, n - 1);
      StepShows(ws[n - 1], es[n - 1]);
      if es[n - 1] == Deliver && !ws[n - 1].screen.phase.Cancelling? { DeliveryTells(ws[n - 1]); }
    }
  }
}
