/** The conversation between the login screen and greetd, over every run.

    The screen and the IPC thread share two FIFO channels. A channel is the log of what was put into it
    and the number of items taken from it. The thread is serial: it takes a request only when it has
    replied to the one before, and it ends with the first transport error. */
module GreeterProtocol {
  import opened Basics
  import opened LoginScreen

  datatype World = World(
    screen: Screen,
    exited: bool,
    sent: seq<Request>,        // request channel: everything sent
    heard: seq<nat>,           // heard[i]: replies delivered when sent[i] was sent
    taken: nat,                // request channel: taken by the thread
    replies: seq<Reply>,       // response channel: replies[i] answers sent[i]
    delivered: nat,            // response channel: delivered to the screen
    alive: bool)               // the IPC thread is running

  datatype Event =
    | Key(c: char)
    | Backspace
    | Enter
    | Escape
    | Deliver                  // the event loop hands the next reply to the screen
    | Take                     // the thread receives the next request
    | Respond(reply: Reply)    // greetd answers it, or the socket fails

  const START: World := World(FRESH, false, [], [], 0, [], 0, true)

  predicate Enabled(w: World, e: Event) {
    && !w.exited
    && match e
       case Deliver => w.delivered < |w.replies|
       case Take => w.alive && w.taken == |w.replies| && w.taken < |w.sent|
       case Respond(_) => w.alive && w.taken == |w.replies| + 1
       case _ => true
  }

  function React(w: World, r: Reaction): World {
    var v := w.(screen := r.screen, exited := r.exits);
    if r.request.Some? && w.alive then v.(sent := w.sent + [r.request.value], heard := w.heard + [w.delivered]) else v
  }

  function Step(w: World, e: Event): World {
    match e
    case Key(c) => w.(screen := w.screen.(input := w.screen.input + [c]))
    case Backspace =>
      var input := w.screen.input;
      w.(screen := w.screen.(input := if input == "" then "" else input[..|input| - 1]))
    case Enter => React(w, OnSubmit(w.screen))
    case Escape => React(w, OnCancel(w.screen, w.alive))
    case Deliver =>
      if w.delivered < |w.replies| then
        React(w.(delivered := w.delivered + 1), OnReply(w.screen, w.replies[w.delivered]))
      else w
    case Take => w.(taken := w.taken + 1)
    case Respond(reply) => w.(replies := w.replies + [reply], alive := reply.Answer?)
  }

  /** The states of a run, first to last. */
  ghost predicate IsRun(ws: seq<World>, es: seq<Event>) {
    && |ws| == |es| + 1 && ws[0] == START
    && forall i | 0 <= i < |es| :: Enabled(ws[i], es[i]) && ws[i + 1] == Step(ws[i], es[i])
  }

  predicate Waiting(p: Phase) { p.Authenticating? || p.Cancelling? || p.Starting? }

  function Outstanding(w: World): int { |w.sent| - w.delivered }

  /** Exactly one request is unanswered while the screen waits for greetd, and none otherwise. */
  predicate Aligned(w: World) {
    Outstanding(w) == if Waiting(w.screen.phase) then 1 else 0
  }

  predicate EscapesWhileAuthenticating(w: World, e: Event) {
    e.Escape? && w.screen.phase.Authenticating?
  }

  // ---- Every run

  /** What holds in every reachable state, whatever keys are pressed and whatever the socket does. */
  predicate Sane(w: World) {
    && |w.heard| == |w.sent|
    && w.delivered <= |w.replies| <= w.taken <= |w.sent|
    && (w.alive ==> w.taken <= |w.replies| + 1)
    && (forall i | 0 <= i < |w.heard| :: w.heard[i] <= i && w.heard[i] <= w.delivered)
    && (forall i | 0 <= i < |w.replies| :: w.replies[i].Broken? ==> !w.alive && i == |w.replies| - 1)
    && (!w.alive ==> w.replies != [] && w.replies[|w.replies| - 1].Broken?)
    && (w.alive && Waiting(w.screen.phase) && !w.exited ==> Outstanding(w) >= 1)
    && (!w.alive && (w.screen.phase.Cancelling? || w.screen.phase.Starting?) && !w.exited ==> w.delivered < |w.replies|)
  }

  lemma StepSane(w: World, e: Event)
    requires Sane(w) && Enabled(w, e)
    ensures Sane(Step(w, e))
  {
  }

  lemma {:induction false} RunSane(ws: seq<World>, es: seq<Event>, i: nat)
    requires IsRun(ws, es) && i < |ws|
    ensures Sane(ws[i])
  {
    if i > 0 {
      RunSane(ws, es, i - 1);
      StepSane(ws[i - 1], es[i - 1]);
    }
  }

  /** A reply is in the response channel, or the thread will put one there. */
  predicate ReplyPending(w: World) {
    w.delivered < |w.replies| || (w.alive && w.delivered < |w.sent|)
  }

  /** In every run the screen never waits in vain while cancelling or starting; while authenticating it
      does exactly when the thread is gone and everything it said has been delivered. */
  lemma NeverWaitsInVain(ws: seq<World>, es: seq<Event>, i: nat)
    requires IsRun(ws, es) && i < |ws| && !ws[i].exited
    ensures ws[i].screen.phase.Cancelling? || ws[i].screen.phase.Starting? ==> ReplyPending(ws[i])
    ensures ws[i].screen.phase.Authenticating? ==>
              (!ReplyPending(ws[i]) <==> !ws[i].alive && ws[i].delivered == |ws[i].replies|)
  {
    RunSane(ws, es, i);
  }

  /** From every phase but Starting, Escape and at most one reply lead back to the username; from a failure Enter does
      so as well, and greetd is told nothing. */
  lemma EscapeReturnsToUsername(w: World)
    requires !w.exited && !w.screen.phase.Starting?
    ensures var v := Step(w, Escape);
      && (v.screen.phase.EnteringUsername? || v.screen.phase.Cancelling?)
      && (v.screen.phase.Cancelling? && Enabled(v, Deliver) ==> Step(v, Deliver).screen == FRESH)
      && (!w.alive && !w.screen.phase.Cancelling? ==> v.screen.phase.EnteringUsername?)
    ensures w.screen.phase.Failed? ==> Step(w, Escape) == Step(w, Enter) == w.(screen := FRESH)
    ensures w.screen.phase.EnteringUsername? ==> Step(w, Escape) == w.(screen := w.screen.(input := ""))
  {
  }

  // ---- The balance of requests and replies

  /** Escapes pressed while authenticating, in the first n events of a run. */
  ghost function Escapes(ws: seq<World>, es: seq<Event>, n: nat): nat
    requires IsRun(ws, es) && n <= |es|
  {
    if n == 0 then 0
    else Escapes(ws, es, n - 1) + if EscapesWhileAuthenticating(ws[n - 1], es[n - 1]) then 1 else 0
  }

  /** Replies delivered to a screen that was not waiting for one, in the first n events of a run. */
  ghost function Strays(ws: seq<World>, es: seq<Event>, n: nat): nat
    requires IsRun(ws, es) && n <= |es|
  {
    if n == 0 then 0
    else Strays(ws, es, n - 1) + if es[n - 1].Deliver? && !Waiting(ws[n - 1].screen.phase) then 1 else 0
  }

  lemma StepBalance(w: World, e: Event)
    requires Sane(w) && Enabled(w, e)
    requires var v := Step(w, e); v.alive && !v.exited
    ensures var v := Step(w, e);
      Outstanding(v) - (if Waiting(v.screen.phase) then 1 else 0) ==
      Outstanding(w) - (if Waiting(w.screen.phase) then 1 else 0)
      + (if EscapesWhileAuthenticating(w, e) then 1 else 0)
      - (if e.Deliver? && !Waiting(w.screen.phase) then 1 else 0)
  {
  }

  /** The law behind alignment: while the thread lives, the requests in excess of the one the screen waits
      for are the Escapes pressed while authenticating less the stray replies. */
  lemma {:induction false} Balance(ws: seq<World>, es: seq<Event>, n: nat)
    requires IsRun(ws, es) && n <= |es| && ws[n].alive && !ws[n].exited
    ensures Outstanding(ws[n]) == (if Waiting(ws[n].screen.phase) then 1 else 0) + Escapes(ws, es, n) - Strays(ws, es, n)
  {
    if n > 0 {
      RunSane(ws, es, n - 1);
      StepBalance(ws[n - 1], es[n - 1]);
      Balance(ws, es, n - 1);
    }
  }

  lemma StepAligned(w: World, e: Event)
    requires Sane(w) && Aligned(w) && Enabled(w, e)
    requires var v := Step(w, e); v.alive && !v.exited
    ensures Aligned(Step(w, e)) <==> !EscapesWhileAuthenticating(w, e)
  {
    StepBalance(w, e);
  }

  /** A run stays aligned in every state exactly when Escape is never pressed while authenticating. */
  lemma AlignedExactlyWithoutEscape(ws: seq<World>, es: seq<Event>)
    requires IsRun(ws, es) && ws[|es|].alive && !ws[|es|].exited
    ensures (forall i | 0 <= i < |ws| :: Aligned(ws[i])) <==>
            (forall i | 0 <= i < |es| :: !EscapesWhileAuthenticating(ws[i], es[i]))
  {
    forall i | 0 <= i < |ws| ensures Sane(ws[i]) && ws[i].alive && !ws[i].exited {
      RunSane(ws, es, i);
      AliveBefore(ws, es, i);
    }
    if forall i | 0 <= i < |es| :: !EscapesWhileAuthenticating(ws[i], es[i]) {
      forall i | 0 <= i < |ws| ensures Aligned(ws[i]) { AlignedBefore(ws, es, i); }
    }
    if forall i | 0 <= i < |ws| :: Aligned(ws[i]) {
      forall i | 0 <= i < |es| ensures !EscapesWhileAuthenticating(ws[i], es[i]) {
        assert ws[i + 1] == Step(ws[i], es[i]);
        StepAligned(ws[i], es[i]);
        assert Aligned(ws[i + 1]);
      }
    }
  }

  lemma {:induction false} AliveBefore(ws: seq<World>, es: seq<Event>, i: nat)
    requires IsRun(ws, es) && i < |ws| && ws[|es|].alive && !ws[|es|].exited
    ensures ws[i].alive && !ws[i].exited
    decreases |ws| - i
  {
    if i < |es| { AliveBefore(ws, es, i + 1); }
  }

  lemma {:induction false} AlignedBefore(ws: seq<World>, es: seq<Event>, i: nat)
    requires IsRun(ws, es) && i < |ws|
    requires forall j | 0 <= j < |ws| :: Sane(ws[j]) && ws[j].alive && !ws[j].exited
    requires forall j | 0 <= j < |es| :: !EscapesWhileAuthenticating(ws[j], es[j])
    ensures Aligned(ws[i])
  {
    if i > 0 {
      AlignedBefore(ws, es, i - 1);
      assert ws[i] == Step(ws[i - 1], es[i - 1]);
      StepAligned(ws[i - 1], es[i - 1]);
    }
  }

  // ---- What greetd is told in an aligned run

  predicate Login(r: Request) { r.CreateSession? || r.PostAuthMessageResponse? }

  /** Whether r may follow the exchange that ended the conversation so far. */
  predicate MayFollow(r: Request, last: Option<(Request, Reply)>) {
    match r
    case CreateSession(_) =>
      last.None? || last.value.0.CancelSession? || last.value.1.Broken? || last.value.1.response.Failure?
    case PostAuthMessageResponse(_) => last.Some? && last.value.1.Answer? && last.value.1.response.AuthMessage?
    case CancelSession => last.Some? && last.value.1.Answer? && last.value.1.response.AuthMessage?
    case StartSession(_, _) => last.Some? && Login(last.value.0) && last.value.1 == Answer(Success)
  }

  /** The exchange that sent[i] reacted to: the last one delivered when it was sent. */
  function Cause(w: World, i: nat): Option<(Request, Reply)>
    requires Sane(w) && i < |w.sent|
  {
    if w.heard[i] == 0 then None else Some((w.sent[w.heard[i] - 1], w.replies[w.heard[i] - 1]))
  }

  /** The last exchange delivered to the screen. */
  function Last(w: World): Option<(Request, Reply)>
    requires Sane(w)
  {
    if w.delivered == 0 then None else Some((w.sent[w.delivered - 1], w.replies[w.delivered - 1]))
  }

  /** sent[i] was sent when all requests before it had been answered, and may follow the last answer. */
  predicate InTurn(w: World, i: nat)
    requires Sane(w) && i < |w.sent|
  {
    w.heard[i] == i <= |w.replies| && MayFollow(w.sent[i], Cause(w, i))
  }

  predicate Orderly(w: World)
    requires Sane(w)
  {
    forall i | 0 <= i < |w.sent| :: InTurn(w, i)
  }

  /** What the phase says of the conversation in an aligned run. */
  predicate PhaseFits(w: World)
    requires Sane(w)
  {
    var last := Last(w);
    match w.screen.phase
    case EnteringUsername => MayFollow(CreateSession(""), last)
    case EnteringResponse(_, _) => MayFollow(CancelSession, last)
    case Failed(_) => MayFollow(CreateSession(""), last)
    case Authenticating => w.delivered < |w.sent| && Login(w.sent[w.delivered])
    case Cancelling => w.delivered < |w.sent| && w.sent[w.delivered].CancelSession?
    case Starting => w.delivered < |w.sent| && w.sent[w.delivered].StartSession?
  }

  predicate InOrder(w: World) { Sane(w) && Orderly(w) && Aligned(w) && PhaseFits(w) }

  /** The logs of v are those of w, perhaps longer. */
  predicate Extends(w: World, v: World)
    requires |w.heard| == |w.sent| && |v.heard| == |v.sent|
  {
    && |w.sent| <= |v.sent| && |w.replies| <= |v.replies|
    && (forall i | 0 <= i < |w.sent| :: v.sent[i] == w.sent[i] && v.heard[i] == w.heard[i])
    && (forall i | 0 <= i < |w.replies| :: v.replies[i] == w.replies[i])
  }

  /** Sending keeps the conversation orderly when everything before has been answered. */
  lemma SendOrderly(w: World, v: World)
    requires Sane(w) && Orderly(w) && Sane(v) && Extends(w, v)
    requires |v.sent| <= |w.sent| + 1
    requires |v.sent| == |w.sent| + 1 ==>
               v.heard[|w.sent|] == v.delivered == |w.sent| && MayFollow(v.sent[|w.sent|], Last(v))
    ensures Orderly(v)
  {
    hide Sane, MayFollow;
    SizesOf(w);
    SizesOf(v);
    forall i | 0 <= i < |v.sent| ensures InTurn(v, i) {
      if i < |w.sent| {
        assert InTurn(w, i);
        KeepsInTurn(w, v, i);
      }
    }
  }

  lemma KeepsInTurn(w: World, v: World, i: nat)
    requires Sane(w) && Sane(v) && i < |w.sent| && InTurn(w, i) && Extends(w, v)
    ensures |w.sent| <= |v.sent| && InTurn(v, i)
  {
    hide Sane, MayFollow;
    SizesOf(w);
    SizesOf(v);
    assert v.sent[i] == w.sent[i] && v.heard[i] == w.heard[i];
    if i > 0 { assert v.sent[i - 1] == w.sent[i - 1] && v.replies[i - 1] == w.replies[i - 1]; }
  }

  lemma SizesOf(w: World)
    requires Sane(w)
    ensures |w.heard| == |w.sent| && w.delivered <= |w.replies| <= w.taken <= |w.sent|
  {
  }

  lemma StepInOrder(w: World, e: Event)
    requires InOrder(w) && Enabled(w, e) && !EscapesWhileAuthenticating(w, e)
    requires var v := Step(w, e); v.alive && !v.exited
    ensures InOrder(Step(w, e))
  {
    hide Sane, Orderly, PhaseFits, Aligned;
    var v := Step(w, e);
    StepSane(w, e);
    StepAligned(w, e);
    StepFits(w, e);
    SendOrderly(w, v);
  }

  lemma StepFits(w: World, e: Event)
    requires Sane(w) && Aligned(w) && PhaseFits(w) && Enabled(w, e) && !EscapesWhileAuthenticating(w, e)
    requires var v := Step(w, e); v.alive && !v.exited && Sane(v) && Aligned(v)
    ensures var v := Step(w, e);
      && PhaseFits(v) && Extends(w, v)
      && |v.sent| <= |w.sent| + 1
      && (|v.sent| == |w.sent| + 1 ==>
            v.heard[|w.sent|] == v.delivered == |w.sent| && MayFollow(v.sent[|w.sent|], Last(v)))
  {
  }

  /** While the thread lives and Escape is not pressed during authentication, greetd hears an orderly
      conversation: each request is sent in reaction to the answer to the one before, and a session is
      started only on the Success that answers the login request sent last. */
  lemma {:induction false} ConversationIsOrderly(ws: seq<World>, es: seq<Event>, n: nat)
    requires IsRun(ws, es) && n <= |es| && ws[n].alive && !ws[n].exited
    requires forall i | 0 <= i < n :: !EscapesWhileAuthenticating(ws[i], es[i])
    ensures InOrder(ws[n])
  {
    if n > 0 {
      ConversationIsOrderly(ws, es, n - 1);
      StepInOrder(ws[n - 1], es[n - 1]);
    }
  }


  /** Why the hypothesis is needed: Escape while authenticating leaves a second request unanswered; its
      reply arrives at a fresh screen, which takes it for a login and starts a session. */
  lemma EscapeWhileAuthenticatingStartsASession()
    ensures var ok := Answer(Success);
      var es := [Enter, Escape, Take, Respond(ok), Deliver, Take, Respond(ok), Deliver];
      exists ws: seq<World> ::
        && IsRun(ws, es) && Sane(ws[8]) && ws[8].alive
        && ws[5].screen == FRESH && !Aligned(ws[5])
        && ws[8].sent == [CreateSession(""), CancelSession, START_SESSION]
        && ws[8].heard[2] == 2 && Cause(ws[8], 2) == Some((CancelSession, ok))
  {
    var ok := Answer(Success);
    var es := [Enter, Escape, Take, Respond(ok), Deliver, Take, Respond(ok), Deliver];
    var w0 := START;
    var w1 := Step(w0, Enter);
    var w2 := Step(w1, Escape);
    var w3 := Step(w2, Take);
    var w4 := Step(w3, Respond(ok));
    var w5 := Step(w4, Deliver);
    var w6 := Step(w5, Take);
    var w7 := Step(w6, Respond(ok));
    var w8 := Step(w7, Deliver);
    var ws := [w0, w1, w2, w3, w4, w5, w6, w7, w8];
    assert w1.sent == [CreateSession("")] && w2.sent == [CreateSession(""), CancelSession];
    assert w5.screen == FRESH && w8.sent == [CreateSession(""), CancelSession, START_SESSION];
    assert IsRun(ws, es);
    hide Step, Enabled;
    RunSane(ws, es, 8);
  }
}
