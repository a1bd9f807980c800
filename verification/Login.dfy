/**
 The login as the code writes it: nested retry loops over blocking prompts and RPCs. A script supplies what
 comes from outside (submissions, replies, cancellation) in its order of arrival; the login stops where the
 script gives it nothing to go on with. Every atomic action is a step of the protocol, so every theorem
 about reachable protocol states holds of the loops.
 */
module Login {
  import opened Prelude
  import opened LoginProtocol

  datatype Prompted = Got(value: string) | PromptCancelled | PromptBlocked

  datatype SignInOutcome = SignedIn | SignInRefused(err: RpcError) | CodeCancelled | SignInBlocked

  datatype Outcome = Succeeded | FailedWith(failure: Failure) | Blocked

  lemma ReachableStep(s: State, step: Step)
    requires Reachable(s) && Enabled(s, step)
    ensures Reachable(Apply(s, step))
  {
    hide Enabled, Apply;
    var states, steps :| IsRun(states, steps) && states[|steps|] == s;
    var states', steps' := states + [Apply(s, step)], steps + [step];
    assert IsRun(states', steps') && states'[|steps'|] == Apply(s, step);
  }

  lemma InitReachable()
    ensures Reachable(INIT)
  {
    assert IsRun([INIT], []) && [INIT][0] == INIT;
    var steps: seq<Step> := [];
    assert IsRun([INIT], steps) && [INIT][|steps|] == INIT;
  }

  class HttpAuthenticator {
    var state: AuthState
    var lastErr: Option<Failure>
    var slots: PerChan<Option<string>>
    var waiting: Option<Chan>     // the prompt blocked in its select
    var handed: Option<string>    // what a submission handed to it
    var script: seq<Step>
    ghost var at: State           // where the protocol is

    ghost predicate Valid()
      reads this
    {
      && Reachable(at)
      && at.status == state && at.lastErr == lastErr && at.slots == slots
      && waiting == if at.pc.Parked? then Some(ChanOf(at.pc.prompt)) else None
    }

    constructor (script: seq<Step>)
      ensures Valid() && at == INIT && this.script == script
    {
      state, lastErr, slots, waiting, handed := Idle, None, PerChan(None, None, None), None, None;
      this.script, at := script, INIT;
      new;
      InitReachable();
    }

    /** The protocol takes the step that the code has just made. */
    ghost method Did(step: Step)
      requires Reachable(at) && Enabled(at, step)
      modifies `at
      ensures at == Apply(old(at), step) && Reachable(at)
    {
      ReachableStep(at, step);
      at := Apply(at, step);
    }

    method SetState(s: AuthState, err: Option<Failure>)
      requires Valid() && at.pc.Publish? && at.pc.state == s && at.pc.err == err && !at.pc.next.Parked?
      modifies `state, `lastErr, `at
      ensures Valid() && at == Apply(old(at), DoPublish)
    {
      hide Reachable;
      state, lastErr := s, err;
      Did(DoPublish);
    }

    /** A submission of an HTTP handler. */
    method TrySend(ch: Chan, v: string) returns (ok: bool)
      requires Valid()
      modifies `slots, `waiting, `handed, `at
      ensures Valid() && at == LoginProtocol.TrySend(old(at), ch, v)
      ensures ok == old(slots).Get(ch).None?
      ensures old(waiting).Some? && waiting.None? ==> handed.Some? && at.pc == Consume(old(at).pc.prompt, handed.value)
    {
      hide Reachable;
      Did(Submit(ch, v));
      if slots.Get(ch).Some? {
        return false;
      }
      if waiting == Some(ch) {
        handed, waiting := Some(v), None;
      } else {
        slots := slots.Set(ch, Some(v));
      }
      return true;
    }

    /** Whatever handlers submit before the login moves on, up to waking it when it is blocked. */
    method Interleave()
      requires Valid()
      modifies `slots, `waiting, `handed, `script, `at
      ensures Valid() && |script| <= |old(script)|
      ensures old(waiting).None? ==> at.pc == old(at).pc
      ensures old(waiting).Some? ==>
                if waiting.Some? then at.pc == old(at).pc
                else handed.Some? && at.pc == Consume(old(at).pc.prompt, handed.value)
    {
      hide Reachable;
      var blocked := waiting.Some?;
      while script != [] && script[0].Submit? && (waiting.Some? || !blocked)
        invariant Valid() && |script| <= |old(script)|
        invariant !blocked ==> at.pc == old(at).pc
        invariant blocked ==> if waiting.Some? then at.pc == old(at).pc
                              else handed.Some? && at.pc == Consume(old(at).pc.prompt, handed.value)
        decreases |script|
      {
        var step := script[0];
        script := script[1..];
        var ok := TrySend(step.chan, step.value);
      }
    }

    /** Phone, Code and Password: publish the prompt, then select on the channel or on the context. */
    method Ask(p: Prompt) returns (r: Prompted)
      requires Valid() && at.pc == LoginProtocol.Ask(p)
      modifies this
      ensures Valid() && |script| <= |old(script)|
      ensures r.Got? ==> at.pc == Consume(p, r.value)
      ensures r.PromptCancelled? ==> at.pc == GiveUp(Cancelled(ChanOf(p)))
    {
      hide Reachable;
      var ch := ChanOf(p);
      SetState(StateOf(p), None);
      Interleave();
      if script != [] && script[0].Cancel? {
        script := script[1..];
        Did(Cancel);
        return PromptCancelled;
      }
      if slots.Get(ch).Some? {
        r := Got(slots.Get(ch).value);
        slots := slots.Set(ch, None);
        Did(Receive);
        return;
      }
      waiting := Some(ch);
      Did(Park);
      Interleave();
      if waiting.None? {
        return Got(handed.value);
      }
      if script != [] && script[0].Cancel? {
        script := script[1..];
        waiting := None;
        Did(Cancel);
        return PromptCancelled;
      }
      return PromptBlocked;
    }

    /** One reply from Telegram, if the script has it. */
    method CallStatus() returns (r: Option<Result<bool, RpcError>>)
      requires Valid() && at.pc.AtStatus?
      modifies this
      ensures Valid() && |script| <= |old(script)|
      ensures r.Some? ==> at.pc == AfterStatus(r.value)
    {
      hide Reachable;
      Interleave();
      if script == [] || !script[0].StatusReturns? {
        return None;
      }
      r := Some(script[0].authorized);
      Did(script[0]);
      script := script[1..];
    }

    method CallSendCode(phone: string) returns (r: Option<Result<SentCode, RpcError>>)
      requires Valid() && at.pc == AtSendCode(phone)
      modifies this
      ensures Valid() && |script| <= |old(script)|
      ensures r.Some? ==> |script| < |old(script)| && at.pc == AfterSendCode(phone, r.value)
    {
      hide Reachable;
      Interleave();
      if script == [] || !script[0].SendCodeReturns? {
        return None;
      }
      r := Some(script[0].sent);
      Did(script[0]);
      script := script[1..];
    }

    method CallSignIn(phone: string, code: string, hash: string) returns (r: Option<Result<(), RpcError>>)
      requires Valid() && at.pc == AtSignIn(phone, hash, code)
      modifies this
      ensures Valid() && |script| <= |old(script)|
      ensures r.Some? ==> |script| < |old(script)| && at.pc == AfterSignIn(phone, hash, r.value)
    {
      hide Reachable;
      Interleave();
      if script == [] || !script[0].SignInReturns? {
        return None;
      }
      r := Some(script[0].reply);
      Did(script[0]);
      script := script[1..];
    }

    method CallPassword(password: string) returns (r: Option<Result<(), RpcError>>)
      requires Valid() && at.pc == AtPassword(password)
      modifies this
      ensures Valid() && |script| <= |old(script)|
      ensures r.Some? ==> |script| < |old(script)| && at.pc == AfterPassword(r.value)
    {
      hide Reachable;
      Interleave();
      if script == [] || !script[0].PasswordReturns? {
        return None;
      }
      r := Some(script[0].reply);
      Did(script[0]);
      script := script[1..];
    }

    /** Loops on a mistyped code: same phone, same code hash. */
    method SignInWithCodeRetry(phone: string, hash: string) returns (r: SignInOutcome)
      requires Valid() && at.pc == LoginProtocol.Ask(ForCode(phone, hash))
      modifies this
      ensures Valid() && |script| <= |old(script)|
      ensures r.SignedIn? ==> at.pc == AfterSignIn(phone, hash, Ok(()))
      ensures r.SignInRefused? ==> r.err != CODE_INVALID && at.pc == AfterSignIn(phone, hash, Err(r.err))
      ensures r.CodeCancelled? ==> at.pc == GiveUp(Cancelled(CodeChan))
    {
      hide Reachable;
      while true
        invariant Valid() && |script| <= |old(script)|
        invariant at.pc == LoginProtocol.Ask(ForCode(phone, hash))
        decreases |script|
      {
        var code := Ask(ForCode(phone, hash));
        if !code.Got? {
          return if code.PromptCancelled? then CodeCancelled else SignInBlocked;
        }
        var reply := CallSignIn(phone, code.value, hash);
        if reply.None? {
          return SignInBlocked;
        }
        if reply.value.Ok? {
          return SignedIn;
        }
        var e := reply.value.error;
        if e == CODE_INVALID {
          SetState(NeedCode, Some(Rejected(e)));
          continue;
        }
        return SignInRefused(e);
      }
    }

    method PasswordLoop() returns (r: Outcome)
      requires Valid() && at.pc == LoginProtocol.Ask(ForPassword)
      modifies this
      ensures Valid() && |script| <= |old(script)|
      ensures r.Succeeded? ==> at.pc == Succeed()
      ensures r.FailedWith? ==> at.pc == GiveUp(r.failure)
      ensures r.FailedWith? ==> r.failure == Cancelled(PasswordChan)
                                || (r.failure.PasswordFailed? && r.failure.err != PasswordInvalid)
    {
      hide Reachable;
      while true
        invariant Valid() && |script| <= |old(script)|
        invariant at.pc == LoginProtocol.Ask(ForPassword)
        decreases |script|
      {
        var password := Ask(ForPassword);
        if !password.Got? {
          return if password.PromptCancelled? then FailedWith(Cancelled(PasswordChan)) else Blocked;
        }
        var reply := CallPassword(password.value);
        if reply.None? {
          return Blocked;
        }
        if reply.value.Ok? {
          return Succeeded;
        }
        var e := reply.value.error;
        if e == PasswordInvalid {
          SetState(NeedPassword, Some(Rejected(e)));
          continue;
        }
        return FailedWith(PasswordFailed(e));
      }
    }

    method RunAuth() returns (r: Outcome)
      requires Valid() && at == INIT
      modifies this
      ensures Valid()
      ensures r.Succeeded? ==> at.pc == Succeed()
      ensures r.FailedWith? ==> at.pc == GiveUp(r.failure)
      ensures r.FailedWith? && (r.failure.SendCodeFailed? || r.failure.SignInFailed?) && r.failure.err.Telegram? ==>
                r.failure.err.kind !in {"PHONE_NUMBER_INVALID", "PHONE_NUMBER_BANNED", "PHONE_NUMBER_FLOOD", "PHONE_NUMBER_OCCUPIED",
                                        "PHONE_NUMBER_UNOCCUPIED", "PHONE_PASSWORD_FLOOD", "PHONE_CODE_EXPIRED", "PHONE_CODE_EMPTY", "AUTH_RESTART"}
      ensures r.FailedWith? && r.failure.SignInFailed? ==> r.failure.err != Telegram("PHONE_CODE_INVALID")
    {
      hide Reachable;
      var status := CallStatus();
      if status.None? {
        return Blocked;
      }
      if status.value.Err? {
        return FailedWith(StatusFailed(status.value.error));
      }
      if status.value.value {
        return Succeeded;
      }
      while true
        invariant Valid() && at.pc == LoginProtocol.Ask(ForPhone)
        decreases |script|
      {
        var phone := Ask(ForPhone);
        if !phone.Got? {
          return if phone.PromptCancelled? then FailedWith(Cancelled(PhoneChan)) else Blocked;
        }
        var sent := CallSendCode(phone.value);
        if sent.None? {
          return Blocked;
        }
        if sent.value.Err? {
          var e := sent.value.error;
          if Recoverable(e) {
            SetState(NeedPhone, Some(Rejected(e)));
            continue;
          }
          return FailedWith(SendCodeFailed(e));
        }
        if sent.value.value.OtherSentCode? {
          return FailedWith(UnexpectedSentCode);
        }
        var signIn := SignInWithCodeRetry(phone.value, sent.value.value.hash);
        match signIn
        case SignedIn => return Succeeded;
        case CodeCancelled => return FailedWith(Cancelled(CodeChan));
        case SignInBlocked => return Blocked;
        case SignInRefused(e) =>
          if e == PasswordAuthNeeded {
            r := PasswordLoop();
            return;
          }
          if Recoverable(e) {
            SetState(NeedPhone, Some(Rejected(e)));
            continue;
          }
          return FailedWith(SignInFailed(e));
      }
    }

    /** The login part of Bridge.Run: publish how runAuth ended. */
    method Run() returns (r: Outcome)
      requires Valid() && at == INIT
      modifies this
      ensures Valid()
      ensures r.Succeeded? ==> state == Authorized && lastErr == None && at.pc == Stopped
      ensures r.FailedWith? ==> state == Failed && lastErr == Some(r.failure) && at.pc == Stopped
      ensures r.FailedWith? && (r.failure.SendCodeFailed? || r.failure.SignInFailed?) && r.failure.err.Telegram? ==>
                r.failure.err.kind !in {"PHONE_NUMBER_INVALID", "PHONE_NUMBER_BANNED", "PHONE_NUMBER_FLOOD", "PHONE_NUMBER_OCCUPIED",
                                        "PHONE_NUMBER_UNOCCUPIED", "PHONE_PASSWORD_FLOOD", "PHONE_CODE_EXPIRED", "PHONE_CODE_EMPTY", "AUTH_RESTART"}
      ensures !r.Blocked? ==> at.log != [] && at.log[|at.log| - 1] == Published(state, lastErr)
    {
      hide Reachable;
      r := RunAuth();
      match r
      case Blocked =>
      case FailedWith(f) => SetState(Failed, Some(f));
      case Succeeded => SetState(Authorized, None);
    }
  }
}
