// The outer container's view mode: a welcome panel with the register and
// log-in buttons, the log-in panel, the booking form, and a user-data mode
// whose panel is switched off.

module AuthContainer {
  import opened JsValues

  datatype Mode = Buttons | Login | Register | UserData

  /** The container's state: the view mode and the signed-in user, if any. */
  datatype State = State(mode: Mode, userEmailOrPhone: Option<string>)

  /** What the container reacts to. */
  datatype Event = LoginClick | RegisterClick | LoginSuccess(emailOrPhone: string) | LoginFail

  function Initial(): (s: State)
    ensures s.mode == Buttons && s.userEmailOrPhone.None?
  {
    State(Buttons, None)
  }

  /** The four handlers: the two clicks and the log-in failure only change
      the mode, whatever it was; a log-in success records who signed in
      and moves to the user-data mode. */
  function Step(s: State, e: Event): (r: State)
    ensures e == LoginClick ==> r == s.(mode := Login)
    ensures e == RegisterClick ==> r == s.(mode := Register)
    ensures e == LoginFail ==> r == s.(mode := Login)
    ensures e.LoginSuccess? ==> r == State(UserData, Some(e.emailOrPhone))
  {
    match e
    case LoginClick => s.(mode := Login)
    case RegisterClick => s.(mode := Register)
    case LoginSuccess(who) => State(UserData, Some(who))
    case LoginFail => s.(mode := Login)
  }

  /** What the container can render. */
  datatype Panel = ButtonsPanel | LoginPanel | RegisterPanel

  /** The panels rendered in each mode. */
  function Panels(mode: Mode): (r: set<Panel>)
    ensures mode != UserData ==> |r| == 1
    ensures mode == UserData ==> r == {}
  {
    match mode
    case Buttons => {ButtonsPanel}
    case Login => {LoginPanel}
    case Register => {RegisterPanel}
    case UserData => {}
  }

  /** The events a panel can raise: the welcome panel's two buttons, and
      the log-in panel's failure callback (it is given no success
      callback). The booking form raises none. */
  predicate Raises(panel: Panel, e: Event) {
    match panel
    case ButtonsPanel => e == LoginClick || e == RegisterClick
    case LoginPanel => e == LoginFail
    case RegisterPanel => false
  }

  /** An event some rendered panel can raise. */
  predicate Offered(s: State, e: Event) {
    exists panel :: panel in Panels(s.mode) && Raises(panel, e)
  }

  /** The state after a run of events. */
  function Run(s: State, events: seq<Event>): State
    decreases |events|
  {
    if events == [] then s else Run(Step(s, events[0]), events[1..])
  }

  /** Every event of the run is offered when it happens. */
  predicate OfferedRun(s: State, events: seq<Event>)
    decreases |events|
  {
    events == [] || (Offered(s, events[0]) && OfferedRun(Step(s, events[0]), events[1..]))
  }

  /** No offered event leads to the user-data mode or records a user. */
  lemma OfferedStep(s: State, e: Event)
    requires Offered(s, e)
    ensures !e.LoginSuccess?
    ensures Step(s, e).mode != UserData
    ensures Step(s, e).userEmailOrPhone == s.userEmailOrPhone
  {
    var panel :| panel in Panels(s.mode) && Raises(panel, e);
  }

  /** From the welcome panel, the user-data mode is never reached and no
      user is ever recorded: the log-in success handler is wired to
      nothing. */
  lemma {:induction false} UserDataUnreachable(s: State, events: seq<Event>)
    requires s.mode != UserData && s.userEmailOrPhone.None?
    requires OfferedRun(s, events)
    ensures Run(s, events).mode != UserData
    ensures Run(s, events).userEmailOrPhone.None?
    decreases |events|
  {
    if events != [] {
      OfferedStep(s, events[0]);
      UserDataUnreachable(Step(s, events[0]), events[1..]);
    }
  }

  /** In particular from the initial state. */
  lemma InitialNeverShowsUserData(events: seq<Event>)
    requires OfferedRun(Initial(), events)
    ensures Run(Initial(), events).mode != UserData
  {
    UserDataUnreachable(Initial(), events);
  }
}
