/**
 The login: runAuth with its nested retry loops on one side, HTTP handlers submitting values on the other,
 three one-slot channels between them. Each RPC, each publication of the state, each channel operation is
 one atomic step; steps interleave freely.
 */
module LoginProtocol {
  import opened Prelude

  datatype AuthState = Idle | NeedPhone | NeedCode | NeedPassword | Authorized | Failed

  datatype RpcError = Telegram(kind: string) | PasswordAuthNeeded | PasswordInvalid | OtherError

  /** Errors that ask for another phone number instead of ending the login. */
  const RECOVERABLE := {
    "PHONE_NUMBER_INVALID", "PHONE_NUMBER_BANNED", "PHONE_NUMBER_FLOOD", "PHONE_NUMBER_OCCUPIED",
    "PHONE_NUMBER_UNOCCUPIED", "PHONE_PASSWORD_FLOOD", "PHONE_CODE_EXPIRED", "PHONE_CODE_EMPTY", "AUTH_RESTART"
  }

  const CODE_INVALID := Telegram("PHONE_CODE_INVALID")

  predicate Recoverable(e: RpcError) { e.Telegram? && e.kind in RECOVERABLE }

  datatype SentCode = SentCode(hash: string) | OtherSentCode

  datatype Rpc =
    | StatusCall(authorized: Result<bool, RpcError>)
    | SendCode(phone: string, sent: Result<SentCode, RpcError>)
    | SignIn(phone: string, code: string, hash: string, reply: Result<(), RpcError>)
    | CheckPassword(password: string, reply: Result<(), RpcError>)

  /** lastErr: the rejection of a submitted value, or the error that ended the login. */
  datatype Failure =
    | Rejected(err: RpcError)
    | StatusFailed(err: RpcError)
    | SendCodeFailed(err: RpcError)
    | UnexpectedSentCode
    | SignInFailed(err: RpcError)
    | PasswordFailed(err: RpcError)
    | Cancelled(chan: Chan)

  datatype Chan = PhoneChan | CodeChan | PasswordChan

  datatype PerChan<T> = PerChan(phone: T, code: T, password: T) {
    function Get(ch: Chan): T {
      match ch case PhoneChan => phone case CodeChan => code case PasswordChan => password
    }

    function Set(ch: Chan, v: T): (r: PerChan<T>)
      ensures forall c :: r.Get(c) == if c == ch then v else Get(c)
    {
      match ch
      case PhoneChan => this.(phone := v)
      case CodeChan => this.(code := v)
      case PasswordChan => this.(password := v)
    }
  }

  datatype Prompt = ForPhone | ForCode(phone: string, hash: string) | ForPassword

  function ChanOf(p: Prompt): Chan {
    match p case ForPhone => PhoneChan case ForCode(_, _) => CodeChan case ForPassword => PasswordChan
  }

  function StateOf(p: Prompt): AuthState {
    match p case ForPhone => NeedPhone case ForCode(_, _) => NeedCode case ForPassword => NeedPassword
  }

  datatype Pc =
    | AtStatus
    | Publish(state: AuthState, err: Option<Failure>, next: Pc)
    | Select(prompt: Prompt)      // about to select on the channel
    | Parked(prompt: Prompt)      // blocked in the select
    | AtSendCode(phone: string)
    | AtSignIn(phone: string, hash: string, code: string)
    | AtPassword(password: string)
    | Stopped

  /** What the login does next when a prompt has got its value. */
  function Consume(p: Prompt, v: string): Pc {
    match p
    case ForPhone => AtSendCode(v)
    case ForCode(phone, hash) => AtSignIn(phone, hash, v)
    case ForPassword => AtPassword(v)
  }

  function Ask(p: Prompt): Pc { Publish(StateOf(p), None, Select(p)) }

  function Reject(e: RpcError, p: Prompt): Pc { Publish(StateOf(p), Some(Rejected(e)), Ask(p)) }

  function Succeed(): Pc { Publish(Authorized, None, Stopped) }

  function GiveUp(f: Failure): Pc { Publish(Failed, Some(f), Stopped) }

  datatype Event = Called(rpc: Rpc) | Published(state: AuthState, err: Option<Failure>)

  /** `log` is the history of RPCs and publications, `accepted` and `consumed` those of the channels. */
  datatype State = State(
    pc: Pc,
    slots: PerChan<Option<string>>,
    status: AuthState,
    lastErr: Option<Failure>,
    log: seq<Event>,
    accepted: PerChan<seq<string>>,
    consumed: PerChan<seq<string>>)

  const INIT := State(AtStatus, PerChan(None, None, None), Idle, None, [],
                      PerChan([], [], []), PerChan([], [], []))

  datatype Step =
    | StatusReturns(authorized: Result<bool, RpcError>)
    | SendCodeReturns(sent: Result<SentCode, RpcError>)
    | SignInReturns(reply: Result<(), RpcError>)
    | PasswordReturns(reply: Result<(), RpcError>)
    | DoPublish
    | Receive
    | Park
    | Cancel
    | Submit(chan: Chan, value: string)

  predicate Enabled(s: State, step: Step) {
    match step
    case StatusReturns(_) => s.pc.AtStatus?
    case SendCodeReturns(_) => s.pc.AtSendCode?
    case SignInReturns(_) => s.pc.AtSignIn?
    case PasswordReturns(_) => s.pc.AtPassword?
    case DoPublish => s.pc.Publish?
    case Receive => s.pc.Select? && s.slots.Get(ChanOf(s.pc.prompt)).Some?
    case Park => s.pc.Select? && s.slots.Get(ChanOf(s.pc.prompt)).None?
    case Cancel => s.pc.Select? || s.pc.Parked?
    case Submit(_, _) => true
  }

  function AfterStatus(r: Result<bool, RpcError>): Pc {
    match r
    case Err(e) => GiveUp(StatusFailed(e))
    case Ok(authorized) => if authorized then Succeed() else Ask(ForPhone)
  }

  function AfterSendCode(phone: string, r: Result<SentCode, RpcError>): Pc {
    match r
    case Err(e) => if Recoverable(e) then Reject(e, ForPhone) else GiveUp(SendCodeFailed(e))
    case Ok(OtherSentCode) => GiveUp(UnexpectedSentCode)
    case Ok(SentCode(hash)) => Ask(ForCode(phone, hash))
  }

  function AfterSignIn(phone: string, hash: string, r: Result<(), RpcError>): Pc {
    match r
    case Ok(_) => Succeed()
    case Err(e) =>
      if e == CODE_INVALID then Reject(e, ForCode(phone, hash))
      else if e == PasswordAuthNeeded then Ask(ForPassword)
      else if Recoverable(e) then Reject(e, ForPhone)
      else GiveUp(SignInFailed(e))
  }

  function AfterPassword(r: Result<(), RpcError>): Pc {
    match r
    case Ok(_) => Succeed()
    case Err(e) => if e == PasswordInvalid then Reject(e, ForPassword) else GiveUp(PasswordFailed(e))
  }

  /** The RPC that a returning call adds to the log, and where the login goes. */
  function Return(s: State, rpc: Rpc, next: Pc): State {
    s.(pc := next, log := s.log + [Called(rpc)])
  }

  /** trySend: a full slot refuses; a parked receiver gets the value directly; otherwise the slot keeps it. */
  function TrySend(s: State, ch: Chan, v: string): State {
    if s.slots.Get(ch).Some? then s
    else
      var s' := s.(accepted := s.accepted.Set(ch, s.accepted.Get(ch) + [v]));
      if s.pc.Parked? && ChanOf(s.pc.prompt) == ch then
        s'.(pc := Consume(s.pc.prompt, v), consumed := s.consumed.Set(ch, s.consumed.Get(ch) + [v]))
      else s'.(slots := s.slots.Set(ch, Some(v)))
  }

  function Apply(s: State, step: Step): State
    requires Enabled(s, step)
  {
    match step
    case StatusReturns(r) => Return(s, StatusCall(r), AfterStatus(r))
    case SendCodeReturns(r) => Return(s, SendCode(s.pc.phone, r), AfterSendCode(s.pc.phone, r))
    case SignInReturns(r) => Return(s, SignIn(s.pc.phone, s.pc.code, s.pc.hash, r), AfterSignIn(s.pc.phone, s.pc.hash, r))
    case PasswordReturns(r) => Return(s, CheckPassword(s.pc.password, r), AfterPassword(r))
    case DoPublish =>
      s.(pc := s.pc.next, status := s.pc.state, lastErr := s.pc.err, log := s.log + [Published(s.pc.state, s.pc.err)])
    case Receive =>
      var ch := ChanOf(s.pc.prompt);
      var v := s.slots.Get(ch).value;
      s.(pc := Consume(s.pc.prompt, v), slots := s.slots.Set(ch, None), consumed := s.consumed.Set(ch, s.consumed.Get(ch) + [v]))
    case Park => s.(pc := Parked(s.pc.prompt))
    case Cancel => s.(pc := GiveUp(Cancelled(ChanOf(s.pc.prompt))))
    case Submit(ch, v) => TrySend(s, ch, v)
  }

  // ----- what the log says

  function LastRpc(log: seq<Event>): Option<Rpc> {
    if log == [] then None
    else
      var last := log[|log| - 1];
      if last.Called? then Some(last.rpc) else LastRpc(log[..|log| - 1])
  }

  /** The latest SendCode call. */
  function LatestSendCode(log: seq<Event>): Option<Rpc> {
    if log == [] then None
    else
      var last := log[|log| - 1];
      if last.Called? && last.rpc.SendCode? then Some(last.rpc) else LatestSendCode(log[..|log| - 1])
  }

  ghost predicate AsksPassword(e: Event) {
    e.Called? && e.rpc.SignIn? && e.rpc.reply == Err(PasswordAuthNeeded)
  }

  /** Telegram has asked for the second factor. */
  ghost predicate PasswordAsked(log: seq<Event>) {
    exists i :: 0 <= i < |log| && AsksPassword(log[i])
  }

  /** The values of a channel that have reached Telegram, in order. */
  function Used(log: seq<Event>, ch: Chan): seq<string> {
    if log == [] then []
    else
      var before := Used(log[..|log| - 1], ch);
      match log[|log| - 1]
      case Called(SendCode(phone, _)) => if ch == PhoneChan then before + [phone] else before
      case Called(SignIn(_, code, _, _)) => if ch == CodeChan then before + [code] else before
      case Called(CheckPassword(password, _)) => if ch == PasswordChan then before + [password] else before
      case _ => before
  }

  function InHand(pc: Pc, ch: Chan): seq<string> {
    match pc
    case AtSendCode(phone) => if ch == PhoneChan then [phone] else []
    case AtSignIn(_, _, code) => if ch == CodeChan then [code] else []
    case AtPassword(password) => if ch == PasswordChan then [password] else []
    case _ => []
  }

  /** A call that makes the account authorized, given what happened before. */
  ghost predicate Authorizes(before: seq<Event>, rpc: Rpc) {
    match rpc
    case StatusCall(r) => r == Ok(true)
    case SendCode(_, _) => false
    case SignIn(phone, _, hash, reply) => reply.Ok? && LatestSendCode(before) == Some(SendCode(phone, Ok(SentCode(hash))))
    case CheckPassword(_, reply) => reply.Ok? && PasswordAsked(before)
  }

  /** An error that the login must not survive, and no other. */
  ghost predicate Ends(rpc: Rpc, f: Failure) {
    match rpc
    case StatusCall(r) => r.Err? && f == StatusFailed(r.error)
    case SendCode(_, r) =>
      if r.Ok? then r.value.OtherSentCode? && f == UnexpectedSentCode
      else !Recoverable(r.error) && f == SendCodeFailed(r.error)
    case SignIn(_, _, _, r) =>
      r.Err? && r.error != CODE_INVALID && r.error != PasswordAuthNeeded && !Recoverable(r.error) && f == SignInFailed(r.error)
    case CheckPassword(_, r) => r.Err? && r.error != PasswordInvalid && f == PasswordFailed(r.error)
  }

  /** A wrong value: the state published with the error asks for exactly the value that was wrong. */
  ghost predicate Rejects(rpc: Rpc, st: AuthState, e: RpcError) {
    match rpc
    case StatusCall(_) => false
    case SendCode(_, r) => r == Err(e) && Recoverable(e) && st == NeedPhone
    case SignIn(_, _, _, r) =>
      r == Err(e) && if e == CODE_INVALID then st == NeedCode else Recoverable(e) && st == NeedPhone
    case CheckPassword(_, r) => r == Err(e) && e == PasswordInvalid && st == NeedPassword
  }

  /** A call after which the login asks for the next value: which state that is. */
  ghost predicate Continues(rpc: Rpc, st: AuthState) {
    match rpc
    case StatusCall(r) => r == Ok(false) && st == NeedPhone
    case SendCode(_, r) => r.Ok? && r.value.SentCode? && st == NeedCode
    case SignIn(_, _, _, r) => r == Err(PasswordAuthNeeded) && st == NeedPassword
    case CheckPassword(_, _) => false
  }

  /** Whether event `e` may follow this log. */
  ghost predicate MayFollow(log: seq<Event>, e: Event) {
    match e
    case Called(rpc) => MayCall(log, rpc)
    case Published(st, err) => MayPublish(log, st, err)
  }

  /** The last thing that happened is the publication of a prompt. */
  ghost predicate EndsWith(log: seq<Event>, st: AuthState) {
    log != [] && log[|log| - 1] == Published(st, None)
  }

  ghost predicate MayCall(log: seq<Event>, rpc: Rpc) {
    match rpc
    case StatusCall(_) => log == []
    case SendCode(_, _) =>
      && EndsWith(log, NeedPhone) && !PasswordAsked(log)
      && LastRpc(log).Some? && !(LastRpc(log).value.SignIn? && LastRpc(log).value.reply == Err(CODE_INVALID))
    case SignIn(phone, _, hash, _) =>
      && EndsWith(log, NeedCode) && !PasswordAsked(log)
      && LatestSendCode(log) == Some(SendCode(phone, Ok(SentCode(hash))))
    case CheckPassword(_, _) => EndsWith(log, NeedPassword) && PasswordAsked(log)
  }

  ghost predicate MayPublish(log: seq<Event>, st: AuthState, err: Option<Failure>) {
    && log != []
    && var last := log[|log| - 1];
       match err
       case Some(Rejected(e)) => last.Called? && Rejects(last.rpc, st, e)
       case Some(Cancelled(_)) => st == Failed && last.Published? && last.err == None
       case Some(f) => st == Failed && last.Called? && Ends(last.rpc, f)
       case None =>
         if st == Authorized then last.Called? && Authorizes(log[..|log| - 1], last.rpc)
         else if last.Called? then Continues(last.rpc, st)
         else last.err.Some? && last.err.value.Rejected? && st == last.state
  }

  /** The log obeys the rules event by event. */
  ghost predicate LogOk(log: seq<Event>) {
    forall n :: 0 <= n < |log| ==> MayFollow(log[..n], log[n])
  }

  // ----- the invariant

  /** The program counter fits the log. */
  ghost predicate PcOk(pc: Pc, log: seq<Event>)
    decreases pc
  {
    match pc
    case AtStatus => log == []
    case Publish(st, err, next) =>
      && MayPublish(log, st, err)
      && (next.Publish? || next.Stopped? || (next.Select? && err == None && st == StateOf(next.prompt)))
      && PcOk(next, log + [Published(st, err)])
    case Select(p) => Prompted(p, log)
    case Parked(p) => Prompted(p, log)
    case AtSendCode(phone) => MayCall(log, SendCode(phone, Err(OtherError)))
    case AtSignIn(phone, hash, code) => MayCall(log, SignIn(phone, code, hash, Err(OtherError)))
    case AtPassword(password) => MayCall(log, CheckPassword(password, Err(OtherError)))
    case Stopped => true
  }

  ghost predicate Prompted(p: Prompt, log: seq<Event>) {
    match p
    case ForPhone => MayCall(log, SendCode("", Err(OtherError)))
    case ForCode(phone, hash) => MayCall(log, SignIn(phone, "", hash, Err(OtherError)))
    case ForPassword => MayCall(log, CheckPassword("", Err(OtherError)))
  }

  ghost predicate MailOk(s: State) {
    forall ch :: s.accepted.Get(ch) == s.consumed.Get(ch) + (if s.slots.Get(ch).Some? then [s.slots.Get(ch).value] else [])
  }

  ghost predicate HandOk(s: State) {
    forall ch :: s.consumed.Get(ch) == Used(s.log, ch) + InHand(s.pc, ch)
  }

  /** The published status is the last publication; at a prompt it is the one of the prompt, without error. */
  ghost predicate StatusOk(s: State) {
    && (s.pc.Select? || s.pc.Parked? ==> s.status == StateOf(s.pc.prompt) && s.lastErr == None)
    && (s.pc.Parked? ==> s.slots.Get(ChanOf(s.pc.prompt)).None?)
  }

  ghost predicate Inv(s: State) {
    LogOk(s.log) && PcOk(s.pc, s.log) && MailOk(s) && HandOk(s) && StatusOk(s)
  }

  // ----- extending the log

  lemma Extended(log: seq<Event>, e: Event)
    ensures (log + [e])[..|log|] == log
    ensures LastRpc(log + [e]) == if e.Called? then Some(e.rpc) else LastRpc(log)
    ensures LatestSendCode(log + [e]) == if e.Called? && e.rpc.SendCode? then Some(e.rpc) else LatestSendCode(log)
    ensures PasswordAsked(log + [e]) <==> PasswordAsked(log) || AsksPassword(e)
  {
    assert (log + [e])[..|log|] == log;
    if i :| 0 <= i < |log| && AsksPassword(log[i]) {
      assert AsksPassword((log + [e])[i]);
    }
    assert AsksPassword(e) ==> AsksPassword((log + [e])[|log|]);
  }

  lemma ExtendedUsed(log: seq<Event>, e: Event, ch: Chan)
    ensures Used(log + [e], ch) == Used(log, ch) + Used([e], ch)
  {
    assert (log + [e])[..|log|] == log && [e][..0] == [];
  }

  lemma ExtendedLogOk(log: seq<Event>, e: Event)
    requires LogOk(log) && MayFollow(log, e)
    ensures LogOk(log + [e])
  {
    hide MayFollow;
    forall n | 0 <= n < |log + [e]| ensures MayFollow((log + [e])[..n], (log + [e])[n]) {
      assert (log + [e])[..n] == log[..n];
    }
  }

  /** Every reply leads to a publication that the rules allow, and on to a legal continuation. */
  lemma AskOk(p: Prompt, log: seq<Event>)
    requires MayPublish(log, StateOf(p), None)
    requires Prompted(p, log + [Published(StateOf(p), None)])
    ensures PcOk(Ask(p), log)
  {
    hide MayPublish, Prompted;
  }

  lemma PublishOk(st: AuthState, err: Failure, next: Pc, log: seq<Event>)
    requires MayPublish(log, st, Some(err)) && next.Publish? && PcOk(next, log + [Published(st, Some(err))])
    ensures PcOk(Publish(st, Some(err), next), log)
  {
    hide MayPublish, Prompted, MayCall;
  }

  lemma RejectOk(e: RpcError, p: Prompt, log: seq<Event>)
    requires log != [] && log[|log| - 1].Called? && Rejects(log[|log| - 1].rpc, StateOf(p), e)
    requires Prompted(p, log + [Published(StateOf(p), Some(Rejected(e)))] + [Published(StateOf(p), None)])
    ensures PcOk(Reject(e, p), log)
  {
    hide Prompted, PcOk, Rejects, Authorizes, Continues, Ends;
    var after := log + [Published(StateOf(p), Some(Rejected(e)))];
    AskOk(p, after);
    PublishOk(StateOf(p), Rejected(e), Ask(p), log);
  }

  lemma AfterStatusOk(r: Result<bool, RpcError>)
    ensures PcOk(AfterStatus(r), [Called(StatusCall(r))])
  {
    var log := [Called(StatusCall(r))];
    assert log[..0] == [];
    Extended([], Called(StatusCall(r)));
    Extended(log, Published(NeedPhone, None));
    assert [] + [Called(StatusCall(r))] == log;
  }

  lemma AfterSendCodeOk(log: seq<Event>, phone: string, r: Result<SentCode, RpcError>)
    requires MayCall(log, SendCode(phone, r))
    ensures PcOk(AfterSendCode(phone, r), log + [Called(SendCode(phone, r))])
  {
    hide LastRpc, LatestSendCode, PasswordAsked, RECOVERABLE;
    var after := log + [Called(SendCode(phone, r))];
    Extended(log, Called(SendCode(phone, r)));
    Extended(after, Published(NeedCode, None));
    if r.Err? {
      Extended(after, Published(NeedPhone, Some(Rejected(r.error))));
      Extended(after + [Published(NeedPhone, Some(Rejected(r.error)))], Published(NeedPhone, None));
    }
  }

  lemma AfterSignInOk(log: seq<Event>, phone: string, code: string, hash: string, r: Result<(), RpcError>)
    requires MayCall(log, SignIn(phone, code, hash, r))
    ensures PcOk(AfterSignIn(phone, hash, r), log + [Called(SignIn(phone, code, hash, r))])
  {
    hide LastRpc, LatestSendCode, PasswordAsked, RECOVERABLE, PcOk;
    var e := Called(SignIn(phone, code, hash, r));
    var after := log + [e];
    Extended(log, e);
    Extended(after, Published(NeedPassword, None));
    if r.Ok? || (r.error != CODE_INVALID && r.error != PasswordAuthNeeded && !Recoverable(r.error)) {
      EndOk(AfterSignIn(phone, hash, r), after);
    } else if r.error == PasswordAuthNeeded {
      AskOk(ForPassword, after);
    } else {
      var p := if r.error == CODE_INVALID then ForCode(phone, hash) else ForPhone;
      var rejected := after + [Published(StateOf(p), Some(Rejected(r.error)))];
      Extended(after, Published(StateOf(p), Some(Rejected(r.error))));
      Extended(rejected, Published(StateOf(p), None));
      RejectOk(r.error, p, after);
    }
  }

  lemma EndOk(pc: Pc, log: seq<Event>)
    requires pc.Publish? && pc.next.Stopped? && MayPublish(log, pc.state, pc.err)
    ensures PcOk(pc, log)
  {
  }

  lemma AfterPasswordOk(log: seq<Event>, password: string, r: Result<(), RpcError>)
    requires MayCall(log, CheckPassword(password, r))
    ensures PcOk(AfterPassword(r), log + [Called(CheckPassword(password, r))])
  {
    hide LastRpc, LatestSendCode, PasswordAsked;
    var e := Called(CheckPassword(password, r));
    var after := log + [e];
    Extended(log, e);
    if r.Err? {
      var rejected := after + [Published(NeedPassword, Some(Rejected(r.error)))];
      Extended(after, Published(NeedPassword, Some(Rejected(r.error))));
      Extended(rejected, Published(NeedPassword, None));
    }
  }

  // ----- the steps

  lemma ReturnInv(s: State, rpc: Rpc, next: Pc)
    requires Inv(s) && MayCall(s.log, rpc) && PcOk(next, s.log + [Called(rpc)]) && next.Publish?
    requires forall ch :: Used(s.log, ch) + InHand(s.pc, ch) == Used(s.log, ch) + Used([Called(rpc)], ch)
    ensures Inv(Return(s, rpc, next))
  {
    hide MayCall, PcOk, LogOk, Used;
    ExtendedLogOk(s.log, Called(rpc));
    forall ch { ExtendedUsed(s.log, Called(rpc), ch); }
  }

  lemma PublishInv(s: State)
    requires Inv(s) && s.pc.Publish?
    ensures Inv(Apply(s, DoPublish))
  {
    var e := Published(s.pc.state, s.pc.err);
    assert MayFollow(s.log, e);
    hide MayPublish, LogOk, Prompted, MayFollow;
    ExtendedLogOk(s.log, e);
    forall ch { ExtendedUsed(s.log, e, ch); }
    NotParked(s.pc, s.log);
  }

  /** What follows a publication is not a blocked or running call. */
  lemma NotParked(pc: Pc, log: seq<Event>)
    requires pc.Publish? && PcOk(pc, log)
    ensures forall ch :: InHand(pc.next, ch) == []
    ensures !pc.next.Parked?
  {
  }

  lemma ConsumedOk(p: Prompt, v: string, log: seq<Event>)
    requires Prompted(p, log)
    ensures PcOk(Consume(p, v), log)
    ensures forall ch :: InHand(Consume(p, v), ch) == if ch == ChanOf(p) then [v] else []
  {
    hide LastRpc, LatestSendCode, PasswordAsked, EndsWith;
  }

  lemma ReceiveInv(s: State)
    requires Inv(s) && Enabled(s, Receive)
    ensures Inv(Apply(s, Receive))
  {
    hide LogOk, MayCall;
    var ch := ChanOf(s.pc.prompt);
    ConsumedOk(s.pc.prompt, s.slots.Get(ch).value, s.log);
    hide PcOk;
  }

  lemma SubmitInv(s: State, ch: Chan, v: string)
    requires Inv(s)
    ensures Inv(TrySend(s, ch, v))
  {
    hide LogOk, MayCall, Prompted;
    if s.pc.Parked? {
      ConsumedOk(s.pc.prompt, v, s.log);
    }
    hide PcOk, Used, StateOf;
  }

  lemma CancelInv(s: State)
    requires Inv(s) && Enabled(s, Cancel)
    ensures Inv(Apply(s, Cancel))
  {
    hide LogOk, PasswordAsked, LastRpc, LatestSendCode;
    var c := GiveUp(Cancelled(ChanOf(s.pc.prompt)));
    assert EndsWith(s.log, StateOf(s.pc.prompt));
    EndOk(c, s.log);
  }

  lemma ParkInv(s: State)
    requires Inv(s) && Enabled(s, Park)
    ensures Inv(Apply(s, Park))
  {
    hide LogOk, Prompted;
  }

  lemma UsedOne(rpc: Rpc, ch: Chan)
    ensures Used([Called(rpc)], ch) ==
            match rpc
            case StatusCall(_) => []
            case SendCode(phone, _) => if ch == PhoneChan then [phone] else []
            case SignIn(_, code, _, _) => if ch == CodeChan then [code] else []
            case CheckPassword(password, _) => if ch == PasswordChan then [password] else []
  {
    assert [Called(rpc)][..0] == [];
  }

  /** Every step of every interleaving keeps the invariant. */
  lemma StepInv(s: State, step: Step)
    requires Inv(s) && Enabled(s, step)
    ensures Inv(Apply(s, step))
  {
    hide Inv, LogOk, PcOk, MailOk, HandOk, StatusOk;
    match step
    case StatusReturns(r) => StatusReturnsInv(s, r);
    case SendCodeReturns(r) => SendCodeReturnsInv(s, r);
    case SignInReturns(r) => SignInReturnsInv(s, r);
    case PasswordReturns(r) => PasswordReturnsInv(s, r);
    case DoPublish => PublishInv(s);
    case Receive => ReceiveInv(s);
    case Park => ParkInv(s);
    case Cancel => CancelInv(s);
    case Submit(ch, v) => SubmitInv(s, ch, v);
  }

  lemma StatusReturnsInv(s: State, r: Result<bool, RpcError>)
    requires Inv(s) && s.pc.AtStatus?
    ensures Inv(Return(s, StatusCall(r), AfterStatus(r)))
  {
    forall ch { UsedOne(StatusCall(r), ch); }
    AfterStatusOk(r);
    hide Used, LogOk, Inv;
    assert s.log == [] by { AtStatusEmpty(s); }
    assert [] + [Called(StatusCall(r))] == [Called(StatusCall(r))];
    ReturnInv(s, StatusCall(r), AfterStatus(r));
  }

  lemma AtStatusEmpty(s: State)
    requires Inv(s) && s.pc.AtStatus?
    ensures s.log == []
  {
  }

  lemma SendCodeReturnsInv(s: State, r: Result<SentCode, RpcError>)
    requires Inv(s) && s.pc.AtSendCode?
    ensures Inv(Return(s, SendCode(s.pc.phone, r), AfterSendCode(s.pc.phone, r)))
  {
    var rpc := SendCode(s.pc.phone, r);
    forall ch { UsedOne(rpc, ch); }
    hide Used, LogOk;
    AfterSendCodeOk(s.log, s.pc.phone, r);
    hide PcOk, MayCall, Inv;
    ReturnInv(s, rpc, AfterSendCode(s.pc.phone, r));
  }

  lemma SignInReturnsInv(s: State, r: Result<(), RpcError>)
    requires Inv(s) && s.pc.AtSignIn?
    ensures Inv(Return(s, SignIn(s.pc.phone, s.pc.code, s.pc.hash, r), AfterSignIn(s.pc.phone, s.pc.hash, r)))
  {
    var rpc := SignIn(s.pc.phone, s.pc.code, s.pc.hash, r);
    forall ch { UsedOne(rpc, ch); }
    hide Used, LogOk;
    AfterSignInOk(s.log, s.pc.phone, s.pc.code, s.pc.hash, r);
    hide PcOk, MayCall, Inv;
    ReturnInv(s, rpc, AfterSignIn(s.pc.phone, s.pc.hash, r));
  }

  lemma PasswordReturnsInv(s: State, r: Result<(), RpcError>)
    requires Inv(s) && s.pc.AtPassword?
    ensures Inv(Return(s, CheckPassword(s.pc.password, r), AfterPassword(r)))
  {
    var rpc := CheckPassword(s.pc.password, r);
    forall ch { UsedOne(rpc, ch); }
    hide Used, LogOk;
    AfterPasswordOk(s.log, s.pc.password, r);
    hide PcOk, MayCall, Inv;
    ReturnInv(s, rpc, AfterPassword(r));
  }

  // ----- whole runs

  ghost predicate IsRun(states: seq<State>, steps: seq<Step>) {
    && |states| == |steps| + 1 && states[0] == INIT
    && forall i :: 0 <= i < |steps| ==> Enabled(states[i], steps[i]) && states[i + 1] == Apply(states[i], steps[i])
  }

  lemma {:induction false} RunInv(states: seq<State>, steps: seq<Step>, n: nat)
    requires IsRun(states, steps) && n < |states|
    ensures Inv(states[n])
  {
    hide Enabled, Apply;
    if n > 0 {
      RunInv(states, steps, n - 1);
      hide Inv;
      StepInv(states[n - 1], steps[n - 1]);
    }
  }

  /** A state that some run reaches. */
  ghost predicate Reachable(s: State) {
    exists states, steps :: IsRun(states, steps) && states[|steps|] == s
  }

  lemma ReachableInv(s: State)
    requires Reachable(s)
    ensures Inv(s)
  {
    hide Inv;
    var states, steps :| IsRun(states, steps) && states[|steps|] == s;
    assert |states| == |steps| + 1 by { RunLength(states, steps); }
    RunInv(states, steps, |steps|);
  }

  lemma RunLength(states: seq<State>, steps: seq<Step>)
    requires IsRun(states, steps)
    ensures |states| == |steps| + 1
  {
  }

  /** `authorized` is published only right after a call that authorizes the account. */
  lemma AuthorizedIsJustified(s: State, k: nat)
    requires Reachable(s) && k < |s.log| && s.log[k].Published? && s.log[k].state == Authorized
    ensures s.log[k].err == None && k > 0 && s.log[k - 1].Called? && Authorizes(s.log[..k - 1], s.log[k - 1].rpc)
  {
    hide LatestSendCode, PasswordAsked, Reachable;
    ReachableInv(s);
    assert MayFollow(s.log[..k], s.log[k]);
    assert s.log[..k][..k - 1] == s.log[..k - 1];
  }

  /** The login ends in error only after an unrecoverable reply or a cancelled prompt. */
  lemma FailureIsJustified(s: State, k: nat)
    requires Reachable(s) && k < |s.log| && s.log[k].Published? && s.log[k].state == Failed
    ensures s.log[k].err.Some? && k > 0
    ensures if s.log[k].err.value.Cancelled? then s.log[k - 1].Published? && s.log[k - 1].err == None
            else s.log[k - 1].Called? && Ends(s.log[k - 1].rpc, s.log[k].err.value)
  {
    hide LatestSendCode, PasswordAsked, Reachable;
    ReachableInv(s);
    assert MayFollow(s.log[..k], s.log[k]);
  }

  /**
   What follows an error of SendCode, error by error: these nine errors of Telegram ask for a phone again, any other
   error ends the login.
   */
  lemma SendCodeErrorsExactly(s: State, k: nat, phone: string, e: RpcError)
    requires Reachable(s) && k + 1 < |s.log| && s.log[k] == Called(SendCode(phone, Err(e)))
    ensures s.log[k + 1] ==
            if e.Telegram?
               && e.kind in {"PHONE_NUMBER_INVALID", "PHONE_NUMBER_BANNED", "PHONE_NUMBER_FLOOD", "PHONE_NUMBER_OCCUPIED",
                             "PHONE_NUMBER_UNOCCUPIED", "PHONE_PASSWORD_FLOOD", "PHONE_CODE_EXPIRED", "PHONE_CODE_EMPTY", "AUTH_RESTART"}
            then Published(NeedPhone, Some(Rejected(e)))
            else Published(Failed, Some(SendCodeFailed(e)))
  {
    hide Reachable, LatestSendCode, PasswordAsked, LastRpc;
    ReachableInv(s);
    assert MayFollow(s.log[..k + 1], s.log[k + 1]);
  }

  /** And of SignIn: a mistyped code asks for the code again, a second factor for the password. */
  lemma SignInErrorsExactly(s: State, k: nat, phone: string, code: string, hash: string, e: RpcError)
    requires Reachable(s) && k + 1 < |s.log| && s.log[k] == Called(SignIn(phone, code, hash, Err(e)))
    ensures s.log[k + 1] ==
            if e == Telegram("PHONE_CODE_INVALID") then Published(NeedCode, Some(Rejected(e)))
            else if e == PasswordAuthNeeded then Published(NeedPassword, None)
            else if e.Telegram?
                    && e.kind in {"PHONE_NUMBER_INVALID", "PHONE_NUMBER_BANNED", "PHONE_NUMBER_FLOOD", "PHONE_NUMBER_OCCUPIED",
                                  "PHONE_NUMBER_UNOCCUPIED", "PHONE_PASSWORD_FLOOD", "PHONE_CODE_EXPIRED", "PHONE_CODE_EMPTY", "AUTH_RESTART"}
            then Published(NeedPhone, Some(Rejected(e)))
            else Published(Failed, Some(SignInFailed(e)))
  {
    hide Reachable, LatestSendCode, PasswordAsked, LastRpc;
    ReachableInv(s);
    assert MayFollow(s.log[..k + 1], s.log[k + 1]);
  }

  /** And of the password check: only a wrong password asks again. */
  lemma PasswordErrorsExactly(s: State, k: nat, password: string, e: RpcError)
    requires Reachable(s) && k + 1 < |s.log| && s.log[k] == Called(CheckPassword(password, Err(e)))
    ensures s.log[k + 1] == if e == PasswordInvalid then Published(NeedPassword, Some(Rejected(e)))
                            else Published(Failed, Some(PasswordFailed(e)))
  {
    hide Reachable, LatestSendCode, PasswordAsked, LastRpc;
    ReachableInv(s);
    assert MayFollow(s.log[..k + 1], s.log[k + 1]);
  }

  /** A wrong value never ends the login: the error is published, then the same prompt again without it. */
  lemma WrongValueAsksAgain(s: State, k: nat, st: AuthState, e: RpcError)
    requires Reachable(s) && k < |s.log| && s.log[k].Called? && Rejects(s.log[k].rpc, st, e)
    ensures k + 1 < |s.log| ==> s.log[k + 1] == Published(st, Some(Rejected(e)))
    ensures k + 2 < |s.log| ==> s.log[k + 2] == Published(st, None)
  {
    hide LatestSendCode, PasswordAsked, Reachable, LastRpc, RECOVERABLE;
    ReachableInv(s);
    assert k + 1 < |s.log| ==> MayFollow(s.log[..k + 1], s.log[k + 1]);
    assert k + 2 < |s.log| ==> MayFollow(s.log[..k + 2], s.log[k + 2]);
  }

  /** SignIn always uses the phone and the code hash of the latest SendCode. */
  lemma SignInUsesLatestCode(s: State, k: nat)
    requires Reachable(s) && k < |s.log| && s.log[k].Called? && s.log[k].rpc.SignIn?
    ensures var rpc := s.log[k].rpc;
            LatestSendCode(s.log[..k]) == Some(SendCode(rpc.phone, Ok(SentCode(rpc.hash))))
  {
    hide LatestSendCode, PasswordAsked, Reachable, LastRpc;
    ReachableInv(s);
    assert MayFollow(s.log[..k], s.log[k]);
  }

  /** Once Telegram has asked for the password, every further call checks a password. */
  lemma PasswordPhaseIsFinal(s: State, i: nat, j: nat)
    requires Reachable(s) && i < j < |s.log| && AsksPassword(s.log[i]) && s.log[j].Called?
    ensures s.log[j].rpc.CheckPassword?
  {
    hide LatestSendCode, Reachable, LastRpc;
    ReachableInv(s);
    assert MayFollow(s.log[..j], s.log[j]);
    assert AsksPassword(s.log[..j][i]);
  }

  /** Index of the last RPC. */
  lemma {:induction false} LastRpcAt(log: seq<Event>) returns (m: nat)
    requires LastRpc(log).Some?
    ensures m < |log| && log[m] == Called(LastRpc(log).value)
    ensures LatestSendCode(log) == if log[m].rpc.SendCode? then Some(log[m].rpc) else LatestSendCode(log[..m])
    ensures PasswordAsked(log) <==> PasswordAsked(log[..m]) || AsksPassword(log[m])
  {
    hide PasswordAsked, AsksPassword;
    var last := |log| - 1;
    assert log == log[..last] + [log[last]];
    Extended(log[..last], log[last]);
    if log[last].Called? {
      m := last;
    } else {
      m := LastRpcAt(log[..last]);
      assert log[..last][..m] == log[..m];
      assert !AsksPassword(log[last]) by { NotAsking(log[last]); }
    }
  }

  lemma NotAsking(e: Event)
    requires e.Published?
    ensures !AsksPassword(e)
  {
  }

  /** After a mistyped code the next call is another SignIn with the same phone and code hash. */
  lemma MistypedCodeKeepsHash(s: State, k: nat)
    requires Reachable(s) && k < |s.log| && s.log[k].Called?
    requires LastRpc(s.log[..k]).Some? && LastRpc(s.log[..k]).value.SignIn?
    requires LastRpc(s.log[..k]).value.reply == Err(CODE_INVALID)
    ensures var tried := LastRpc(s.log[..k]).value;
            s.log[k].rpc.SignIn? && s.log[k].rpc.phone == tried.phone && s.log[k].rpc.hash == tried.hash
  {
    hide LatestSendCode, Reachable, LastRpc, PasswordAsked;
    ReachableInv(s);
    var m := LastRpcAt(s.log[..k]);
    assert s.log[..k][..m] == s.log[..m];
    assert MayFollow(s.log[..m], s.log[m]);
    assert MayFollow(s.log[..k], s.log[k]);
  }

  /** A call refused because of its phone or its expired code, after which the login asks for a phone again. */
  ghost predicate StartsOver(e: Event) {
    e.Called? && exists err :: Rejects(e.rpc, NeedPhone, err)
  }

  /** Every SendCode but the first follows, two publications later, a call that was refused with a recoverable error. */
  lemma SendCodeFollowsRefusal(s: State, j: nat)
    requires Reachable(s) && j < |s.log| && s.log[j].Called? && s.log[j].rpc.SendCode?
    ensures j >= 2 && s.log[j - 1].Published? && s.log[j - 1].err == None
    ensures if j == 2 then s.log[0] == Called(StatusCall(Ok(false)))
            else s.log[j - 2].Published? && StartsOver(s.log[j - 3])
  {
    hide LatestSendCode, PasswordAsked, Reachable, LastRpc, RECOVERABLE;
    ReachableInv(s);
    var log := s.log;
    assert MayFollow(log[..j], log[j]);
    assert log[j - 1] == Published(NeedPhone, None);
    assert MayFollow(log[..j - 1], log[j - 1]);
    if log[j - 2].Called? {
      assert MayFollow(log[..j - 2], log[j - 2]);
    } else {
      assert MayFollow(log[..j - 2], log[j - 2]);
      assert Rejects(log[j - 3].rpc, NeedPhone, log[j - 2].err.value.err);
    }
  }

  /**
   Over a whole run: between a SignIn refused as PHONE_CODE_INVALID and any later SendCode, some call was refused
   with a recoverable error; a mistyped code alone never makes Telegram send a new one.
   */
  lemma MistypedCodeSendsNoCode(s: State, i: nat, j: nat) returns (m: nat)
    requires Reachable(s) && i < j < |s.log| && s.log[j].Called? && s.log[j].rpc.SendCode?
    requires s.log[i].Called? && s.log[i].rpc.SignIn? && s.log[i].rpc.reply == Err(CODE_INVALID)
    ensures i < m < j && s.log[m].Called?
    ensures (s.log[m].rpc.SendCode? && s.log[m].rpc.sent.Err? && Recoverable(s.log[m].rpc.sent.error))
            || (s.log[m].rpc.SignIn? && s.log[m].rpc.reply.Err? && Recoverable(s.log[m].rpc.reply.error))
  {
    hide Reachable;
    SendCodeFollowsRefusal(s, j);
    m := j - 3;
  }

  /**
   Mailbox conservation, for each channel: what was accepted is what was consumed, then the value still in
   the slot; what was consumed is what reached Telegram, then the value in hand.
   */
  lemma MailboxConserves(s: State, ch: Chan)
    requires Reachable(s)
    ensures s.accepted.Get(ch) == s.consumed.Get(ch) + if s.slots.Get(ch).Some? then [s.slots.Get(ch).value] else []
    ensures s.consumed.Get(ch) == Used(s.log, ch) + InHand(s.pc, ch)
    ensures |InHand(s.pc, ch)| <= 1
  {
    hide Reachable, Used, LogOk, PcOk;
    ReachableInv(s);
  }

  /** A blocked prompt has an empty slot, and the status asks for its value and shows no error. */
  lemma BlockedPromptIsPublished(s: State)
    requires Reachable(s) && s.pc.Parked?
    ensures s.status == StateOf(s.pc.prompt) && s.lastErr == None
    ensures s.slots.Get(ChanOf(s.pc.prompt)).None?
  {
    hide Reachable, LogOk, PcOk, MailOk, HandOk;
    ReachableInv(s);
  }

  /** A submission is refused, changing nothing, exactly when the slot of its channel is full. */
  lemma RefusedExactlyWhenFull(s: State, ch: Chan, v: string)
    ensures TrySend(s, ch, v) == s <==> s.slots.Get(ch).Some?
    ensures s.slots.Get(ch).None? ==> TrySend(s, ch, v).accepted.Get(ch) == s.accepted.Get(ch) + [v]
  {
    assert |s.accepted.Get(ch) + [v]| == |s.accepted.Get(ch)| + 1;
  }

  /** Nothing that a channel has accepted or consumed is taken back. */
  lemma {:induction false} ChannelsGrow(states: seq<State>, steps: seq<Step>, ch: Chan, m: nat, n: nat)
    requires IsRun(states, steps) && m <= n < |states|
    ensures states[m].accepted.Get(ch) <= states[n].accepted.Get(ch)
    ensures states[m].consumed.Get(ch) <= states[n].consumed.Get(ch)
    decreases n
  {
    hide Enabled, Apply;
    if m < n {
      ChannelsGrow(states, steps, ch, m, n - 1);
      StepGrows(states[n - 1], steps[n - 1], ch);
    }
  }

  lemma StepGrows(s: State, step: Step, ch: Chan)
    requires Enabled(s, step)
    ensures s.accepted.Get(ch) <= Apply(s, step).accepted.Get(ch)
    ensures s.consumed.Get(ch) <= Apply(s, step).consumed.Get(ch)
  {
  }

  /**
   An accepted value is the next one consumed from its channel, whatever happens in between: a prompt blocked on
   the channel has it at once, and until a prompt takes it, it is what the slot holds.
   */
  lemma AcceptedValueIsNext(states: seq<State>, steps: seq<Step>, i: nat, n: nat)
    requires IsRun(states, steps) && i < n < |states| && steps[i].Submit? && states[i].slots.Get(steps[i].chan).None?
    ensures var ch, v := steps[i].chan, steps[i].value;
            var before, now := states[i].consumed.Get(ch), states[n].consumed.Get(ch);
            && (if |now| > |before| then before + [v] <= now else now == before && states[n].slots.Get(ch) == Some(v))
            && (states[i].pc.Parked? && ChanOf(states[i].pc.prompt) == ch ==> before + [v] <= now)
  {
    var ch, v := steps[i].chan, steps[i].value;
    var s, u, t := states[i], states[i + 1], states[n];
    assert u == TrySend(s, ch, v);
    hide LogOk, PcOk, HandOk, StatusOk, Enabled, Apply;
    RunInv(states, steps, i);
    RunInv(states, steps, n);
    ChannelsGrow(states, steps, ch, i + 1, n);
    hide IsRun, Inv;
    FirstInLine(s.consumed.Get(ch), t.consumed.Get(ch), t.accepted.Get(ch), v, t.slots.Get(ch));
  }

  lemma FirstInLine(before: seq<string>, now: seq<string>, accepted: seq<string>, v: string, slot: Option<string>)
    requires before <= now && before + [v] <= accepted
    requires accepted == now + if slot.Some? then [slot.value] else []
    ensures if |now| > |before| then before + [v] <= now else now == before && slot == Some(v)
  {
    assert accepted[|before|] == v;
  }

  /** A code submitted before any prompt waits is accepted, although the comment on Submit says otherwise. */
  lemma EarlyCodeIsAccepted()
    ensures Reachable(TrySend(INIT, CodeChan, "1"))
    ensures TrySend(INIT, CodeChan, "1").slots.code == Some("1") && INIT.pc.AtStatus?
  {
    var states, steps := [INIT, TrySend(INIT, CodeChan, "1")], [Submit(CodeChan, "1")];
    assert IsRun(states, steps) && states[|steps|] == TrySend(INIT, CodeChan, "1");
  }
}
