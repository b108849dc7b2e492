/** The greeter's login screen: its state, and what a key or a reply from greetd does to it. */
module LoginScreen {
  import opened Basics
  import opened TerminalOutput

  datatype Phase =
    | EnteringUsername
    | EnteringResponse(secret: bool, prompt: string)
    | Authenticating
    | Cancelling
    | Failed(message: string)
    | Starting

  datatype Request =
    | CreateSession(username: string)
    | PostAuthMessageResponse(response: Option<string>)
    | StartSession(cmd: seq<string>, env: seq<string>)
    | CancelSession

  datatype AuthMessageType = Visible | Secret | Info | AuthProblem

  datatype ErrorType = AuthError | GeneralError

  datatype Response =
    | Success
    | Failure(errorType: ErrorType, description: string)
    | AuthMessage(kind: AuthMessageType, text: string)

  /** What arrives from the IPC thread: a response of greetd, or the error that ended the thread. */
  datatype Reply = Answer(response: Response) | Broken(error: string)

  const SESSION_CMD: string := "/usr/local/bin/focaldesk-desktop"
  const START_SESSION: Request :=
    StartSession([SESSION_CMD], ["XDG_SESSION_TYPE=wayland", "XDG_CURRENT_DESKTOP=FocalDesk"])

  datatype Screen = Screen(username: string, input: string, phase: Phase)

  const FRESH: Screen := Screen("", "", EnteringUsername)

  /** A screen, the request to send if there is one, and whether the process exits. */
  datatype Reaction = Reaction(screen: Screen, request: Option<Request>, exits: bool)

  function OnSubmit(s: Screen): Reaction {
    match s.phase
    case EnteringUsername =>
      var username := Trim(s.input);
      Reaction(Screen(username, "", Authenticating), Some(CreateSession(username)), false)
    case EnteringResponse(_, _) =>
      Reaction(Screen(s.username, "", Authenticating), Some(PostAuthMessageResponse(Some(s.input))), false)
    case Failed(_) => Reaction(FRESH, None, false)
    case _ => Reaction(s, None, false)
  }

  /** `connected` says whether the IPC thread is still there to take a request. */
  function OnCancel(s: Screen, connected: bool): Reaction {
    match s.phase
    case EnteringUsername => Reaction(s.(input := ""), None, false)
    case EnteringResponse(_, _) => Reaction(if connected then s.(phase := Cancelling) else FRESH, Some(CancelSession), false)
    case Authenticating => Reaction(if connected then s.(phase := Cancelling) else FRESH, Some(CancelSession), false)
    case Failed(_) => Reaction(FRESH, None, false)
    case _ => Reaction(s, None, false)
  }

  function OnReply(s: Screen, reply: Reply): Reaction {
    if s.phase == Cancelling then Reaction(FRESH, None, false)
    else match reply
      case Answer(AuthMessage(kind, text)) =>
        Reaction(s.(phase := EnteringResponse(kind == Secret, text)), None, false)
      case Answer(Success) =>
        if s.phase == Starting then Reaction(s, None, true)
        else Reaction(s.(phase := Starting), Some(START_SESSION), false)
      case Answer(Failure(kind, description)) =>
        var message := (if kind == AuthError then "authentication failed: " else "greetd error: ") + description;
        Reaction(s.(phase := Failed(message)), None, false)
      case Broken(error) => Reaction(s.(phase := Failed("greetd IPC error: " + error)), None, false)
  }

  // ---- The screen and its request channel as the program holds them

  class Sender {
    var sent: seq<Request>
    var connected: bool

    constructor ()
      ensures sent == [] && connected
    {
      sent, connected := [], true;
    }

    method Send(r: Request) returns (ok: bool)
      modifies `sent
      ensures ok == connected
      ensures sent == if connected then old(sent) + [r] else old(sent)
    {
      ok := connected;
      if connected { sent := sent + [r]; }
    }
  }

  class LoginState {
    var username: string
    var input: string
    var phase: Phase

    constructor ()
      ensures Value() == FRESH
    {
      username, input, phase := "", "", EnteringUsername;
    }

    function Value(): Screen
      reads this
    {
      Screen(username, input, phase)
    }

    method PushChar(ch: char)
      modifies `input
      ensures input == old(input) + [ch]
    {
      input := input + [ch];
    }

    method Backspace()
      modifies `input
      ensures input == if old(input) == "" then "" else old(input)[..|old(input)| - 1]
    {
      if input != "" { input := input[..|input| - 1]; }
    }

    method ResetForRetry()
      modifies this
      ensures Value() == FRESH
    {
      username := "";
      input := "";
      phase := EnteringUsername;
    }

    /** Enter. The error of a send whose receiver is gone is returned; the screen has moved on by then. */
    method Submit(tx: Sender) returns (ok: bool)
      modifies this, tx`sent
      ensures Value() == OnSubmit(old(Value())).screen
      ensures tx.sent == Sent(old(tx.sent), tx.connected, OnSubmit(old(Value())))
      ensures ok == (OnSubmit(old(Value())).request.None? || tx.connected)
    {
      ok := true;
      match phase {
        case EnteringUsername =>
          username := Trim(input);
          input := "";
          phase := Authenticating;
          ok := tx.Send(CreateSession(username));
        case EnteringResponse(_, _) =>
          var answer := input;
          input := "";
          phase := Authenticating;
          ok := tx.Send(PostAuthMessageResponse(Some(answer)));
        case Failed(_) => ResetForRetry();
        case Authenticating =>
        case Cancelling =>
        case Starting =>
      }
    }

    method Cancel(tx: Sender)
      modifies this, tx`sent
      ensures Value() == OnCancel(old(Value()), tx.connected).screen
      ensures tx.sent == Sent(old(tx.sent), tx.connected, OnCancel(old(Value()), tx.connected))
    {
      match phase {
        case EnteringUsername => input := "";
        case EnteringResponse(_, _) =>
          phase := Cancelling;
          var ok := tx.Send(CancelSession);
          if !ok { ResetForRetry(); }
        case Authenticating =>
          phase := Cancelling;
          var ok := tx.Send(CancelSession);
          if !ok { ResetForRetry(); }
        case Failed(_) => ResetForRetry();
        case Cancelling =>
        case Starting =>
      }
    }

    method OnResponse(tx: Sender, result: Reply) returns (exits: bool)
      modifies this, tx`sent
      ensures Value() == OnReply(old(Value()), result).screen && exits == OnReply(old(Value()), result).exits
      ensures tx.sent == Sent(old(tx.sent), tx.connected, OnReply(old(Value()), result))
    {
      exits := false;
      if phase.Cancelling? {
        ResetForRetry();
        return;
      }
      match result {
        case Answer(AuthMessage(kind, text)) =>
          phase := EnteringResponse(kind.Secret?, text);
        case Answer(Success) =>
          if phase.Starting? { return true; }
          phase := Starting;
          var _ := tx.Send(START_SESSION);
        case Answer(Failure(kind, description)) =>
          var message := (if kind.AuthError? then "authentication failed: " else "greetd error: ") + description;
          phase := Failed(message);
        case Broken(error) =>
          phase := Failed("greetd IPC error: " + error);
      }
    }
  }

  function Sent(sent: seq<Request>, connected: bool, r: Reaction): seq<Request> {
    if r.request.Some? && connected then sent + [r.request.value] else sent
  }
}
