/**
 * SwitchManager: the quick-access switcher's key dispatcher. Holding exactly
 * the configured modifier keys arms an automatic session start (through the
 * alarm, or at once while an old session is still fading away); any other key
 * or a key release disarms it. Starting a session disposes the current one; an
 * action other than a switch action disposes it too.
 *
 * The quick-access settings (enabled, the modifier key codes), the focus owner's
 * switch provider and the timers are inputs; scheduled work is counted, not run.
 */
module SwitchManagerModel {
  import opened Wrappers

  /** java.awt.event.KeyEvent key codes. */
  const VK_SHIFT: int := 16
  const VK_CONTROL: int := 17
  const VK_ALT: int := 18
  const VK_META: int := 157

  /** java.awt.event.InputEvent modifier masks. */
  const SHIFT_MASK: bv32 := 1
  const CTRL_MASK: bv32 := 2
  const META_MASK: bv32 := 4
  const ALT_MASK: bv32 := 8

  datatype KeyEventId = KeyPressed | KeyReleased | KeyTyped

  /**
   * A key event: its id, key code and modifiers, and the project of the IDE frame
   * that is the ultimate parent of its component (None when that parent is no IDE frame).
   */
  datatype KeyEvent = KeyEvent(id: KeyEventId, keyCode: int, modifiers: bv32, frameProject: Option<int>)

  /**
   * A switching session, as the manager looks at it: its switch provider, the key event that started
   * it (None when none was recorded), and its flags.
   */
  datatype Session = Session(id: int, provider: int, startEvent: Option<KeyEvent>,
                             finished: bool, showSpots: bool, selectionWasMoved: bool)

  /** The mask a single key code contributes. */
  function MaskBit(code: int): bv32 {
    if code == VK_SHIFT then SHIFT_MASK
    else if code == VK_CONTROL then CTRL_MASK
    else if code == VK_META then META_MASK
    else if code == VK_ALT then ALT_MASK
    else 0
  }

  /** The OR of the masks of the modifier keys among the codes. */
  function MaskOf(codes: set<int>): bv32 {
    (if VK_SHIFT in codes then SHIFT_MASK else 0)
    | (if VK_CONTROL in codes then CTRL_MASK else 0)
    | (if VK_META in codes then META_MASK else 0)
    | (if VK_ALT in codes then ALT_MASK else 0)
  }

  lemma MaskStep(codes: set<int>, code: int)
    ensures MaskOf(codes + {code}) == MaskOf(codes) | MaskBit(code)
  {
    if code == VK_SHIFT {
      assert VK_SHIFT in codes + {code};
    } else if code == VK_CONTROL {
      assert VK_CONTROL in codes + {code};
    } else if code == VK_META {
      assert VK_META in codes + {code};
    } else if code == VK_ALT {
      assert VK_ALT in codes + {code};
    } else {
      assert forall c :: c in {VK_SHIFT, VK_CONTROL, VK_META, VK_ALT} ==> (c in codes + {code} <==> c in codes);
    }
  }

  /** Codes other than the four modifier keys contribute nothing to the mask. */
  lemma OtherCodesContributeNothing(codes: set<int>)
    ensures MaskOf(codes) == MaskOf(codes * {VK_SHIFT, VK_CONTROL, VK_META, VK_ALT})
    ensures MaskOf(codes) & !(SHIFT_MASK | CTRL_MASK | META_MASK | ALT_MASK) == 0
  {
    assert VK_SHIFT in codes <==> VK_SHIFT in codes * {VK_SHIFT, VK_CONTROL, VK_META, VK_ALT};
    assert VK_CONTROL in codes <==> VK_CONTROL in codes * {VK_SHIFT, VK_CONTROL, VK_META, VK_ALT};
    assert VK_META in codes <==> VK_META in codes * {VK_SHIFT, VK_CONTROL, VK_META, VK_ALT};
    assert VK_ALT in codes <==> VK_ALT in codes * {VK_SHIFT, VK_CONTROL, VK_META, VK_ALT};
  }

  /** Each configured modifier key sets its own bit and only configured ones do. */
  lemma MaskBitsAreTheConfiguredKeys(codes: set<int>)
    ensures (MaskOf(codes) & SHIFT_MASK != 0) <==> VK_SHIFT in codes
    ensures (MaskOf(codes) & CTRL_MASK != 0) <==> VK_CONTROL in codes
    ensures (MaskOf(codes) & META_MASK != 0) <==> VK_META in codes
    ensures (MaskOf(codes) & ALT_MASK != 0) <==> VK_ALT in codes
  {
  }

  /** The four conditional ORs of the loop body add exactly the key's own bit. */
  lemma UpdateIsMaskBit(before: bv32, each: int, after: bv32)
    requires each == VK_SHIFT ==> after == before | SHIFT_MASK
    requires each == VK_CONTROL ==> after == before | CTRL_MASK
    requires each == VK_META ==> after == before | META_MASK
    requires each == VK_ALT ==> after == before | ALT_MASK
    requires each != VK_SHIFT && each != VK_CONTROL && each != VK_META && each != VK_ALT ==> after == before
    ensures after == before | MaskBit(each)
  {
    if each != VK_SHIFT && each != VK_CONTROL && each != VK_META && each != VK_ALT {
      OtherCodeHasNoBit(before, each);
    }
  }

  lemma OtherCodeHasNoBit(before: bv32, each: int)
    requires each != VK_SHIFT && each != VK_CONTROL && each != VK_META && each != VK_ALT
    ensures before | MaskBit(each) == before
  {
  }

  lemma PickOne(s: set<int>) returns (x: int)
    requires s != {}
    ensures x in s
  {
    if forall y :: y !in s {
      assert false;
    }
    x :| x in s;
  }

  /** The loop body of areAllModifiersPressed: one conditional OR per modifier key. */
  method AddModifierBit(mask: bv32, each: int) returns (r: bv32)
    ensures r == mask | MaskBit(each)
  {
    r := mask;
    ghost var bit := MaskBit(each);  // unfolds MaskBit once, before the case split
    if each == VK_SHIFT {
      r := r | SHIFT_MASK;
    }
    if each == VK_CONTROL {
      r := r | CTRL_MASK;
    }
    if each == VK_META {
      r := r | META_MASK;
    }
    if each == VK_ALT {
      r := r | ALT_MASK;
    }
    UpdateIsMaskBit(mask, each, r);
  }

  /**
   * areAllModifiersPressed: the mask is accumulated over the codes in iteration order, and
   * the modifiers must equal it exactly.
   */
  method AreAllModifiersPressed(modifiers: bv32, modifierCodes: set<int>) returns (r: bool)
    ensures r <==> modifiers == MaskOf(modifierCodes)
  {
    var mask: bv32 := 0;
    var remaining := modifierCodes;
    ghost var visited: set<int> := {};
    while remaining != {}
      invariant visited + remaining == modifierCodes
      invariant mask == MaskOf(visited)
      decreases |remaining|
    {
      ghost var some := PickOne(remaining);
      var each :| each in remaining;
      mask := AddModifierBit(mask, each);
      MaskStep(visited, each);
      visited := visited + {each};
      remaining := remaining - {each};
    }
    assert visited == modifierCodes;
    r := (modifiers ^ mask) == 0;
    XorZeroIsEqual(modifiers, mask);
  }

  lemma XorZeroIsEqual(a: bv32, b: bv32)
    ensures (a ^ b == 0) <==> a == b
  {
  }

  /** The manager's state, as one value. */
  datatype SwitchState = SwitchState(
    session: Option<Session>,
    waitingForAutoInitSession: bool,
    autoInitSessionEvent: Option<KeyEvent>,
    /** requests pending on the init-session alarm */
    alarmRequests: nat,
    /** init runnables run at once, waiting for the focus to settle */
    focusRequests: nat,
    fadingWay: set<int>,
    /** every session disposed, with the fade-away flag it was disposed with */
    disposed: seq<(Session, bool)>)

  predicate SessionActive(s: SwitchState) {
    s.session.Some? && !s.session.value.finished
  }

  /** cancelWaitingForAutoInit */
  function CancelWaiting(s: SwitchState): SwitchState {
    s.(waitingForAutoInitSession := false, alarmRequests := 0)
  }

  /** disposeCurrentSession */
  function DisposeCurrent(s: SwitchState, fadeAway: bool): SwitchState {
    if s.session.Some? then s.(session := None, disposed := s.disposed + [(s.session.value, fadeAway)]) else s
  }

  /** initSession */
  function SessionStarted(s: SwitchState, session: Session): SwitchState {
    DisposeCurrent(CancelWaiting(s), false).(session := Some(session))
  }

  /** dispatchKeyEvent's effect on the state (it always answers false). */
  function KeyEventEffect(s: SwitchState, e: KeyEvent, enabled: bool, modifierCodes: set<int>, project: int): SwitchState {
    if !enabled || SessionActive(s) then s
    else if e.frameProject.Some? && e.frameProject.value != project then s
    else if e.id != KeyPressed then (if s.waitingForAutoInitSession then CancelWaiting(s) else s)
    else if e.keyCode in modifierCodes then
      if e.modifiers == MaskOf(modifierCodes) then
        var armed := s.(waitingForAutoInitSession := true, autoInitSessionEvent := Some(e));
        if |s.fadingWay| == 0 then armed.(alarmRequests := s.alarmRequests + 1)
        else armed.(focusRequests := s.focusRequests + 1)
      else s
    else if s.waitingForAutoInitSession then CancelWaiting(s)
    else s
  }

  /** Disabled, or with a session under way, nothing happens. */
  lemma DispatchIgnoredWhenDisabledOrActive(s: SwitchState, e: KeyEvent, enabled: bool, modifierCodes: set<int>, project: int)
    requires !enabled || SessionActive(s)
    ensures KeyEventEffect(s, e, enabled, modifierCodes, project) == s
  {
  }

  /** A key release or typed key, or a press of a key that is no configured modifier, cancels a pending start. */
  lemma DispatchCancels(s: SwitchState, e: KeyEvent, modifierCodes: set<int>, project: int)
    requires !SessionActive(s) && (e.frameProject.None? || e.frameProject == Some(project))
    requires e.id != KeyPressed || e.keyCode !in modifierCodes
    ensures var r := KeyEventEffect(s, e, true, modifierCodes, project);
            !r.waitingForAutoInitSession
            && (s.waitingForAutoInitSession ==> r == CancelWaiting(s) && r.alarmRequests == 0)
            && (!s.waitingForAutoInitSession ==> r == s)
  {
  }

  /** Pressing a configured modifier with exactly the configured modifiers held arms the start and schedules it once. */
  lemma DispatchArms(s: SwitchState, e: KeyEvent, modifierCodes: set<int>, project: int)
    requires !SessionActive(s) && (e.frameProject.None? || e.frameProject == Some(project))
    requires e.id == KeyPressed && e.keyCode in modifierCodes
    ensures var r := KeyEventEffect(s, e, true, modifierCodes, project);
            (r.waitingForAutoInitSession && r.autoInitSessionEvent == Some(e)) <==>
              (e.modifiers == MaskOf(modifierCodes) || (s.waitingForAutoInitSession && s.autoInitSessionEvent == Some(e)))
    ensures var r := KeyEventEffect(s, e, true, modifierCodes, project);
            e.modifiers == MaskOf(modifierCodes) ==>
              r.alarmRequests + r.focusRequests == s.alarmRequests + s.focusRequests + 1
              && (r.alarmRequests == s.alarmRequests + 1 <==> |s.fadingWay| == 0)
    ensures var r := KeyEventEffect(s, e, true, modifierCodes, project);
            r.session == s.session && r.disposed == s.disposed && r.fadingWay == s.fadingWay
  {
  }

  /** The key dispatcher never starts, ends or disposes a session itself. */
  lemma DispatchKeepsSession(s: SwitchState, e: KeyEvent, enabled: bool, modifierCodes: set<int>, project: int)
    ensures var r := KeyEventEffect(s, e, enabled, modifierCodes, project);
            r.session == s.session && r.disposed == s.disposed && r.fadingWay == s.fadingWay
  {
  }

  /** Starting a session stops waiting, disposes the previous session without fading, and installs the new one. */
  lemma InitSessionReplaces(s: SwitchState, session: Session)
    ensures var r := SessionStarted(s, session);
            r.session == Some(session) && !r.waitingForAutoInitSession && r.alarmRequests == 0
            && r.disposed == s.disposed + (if s.session.Some? then [(s.session.value, false)] else [])
  {
  }

  /** Disposing leaves no session, and does nothing when there is none. */
  lemma DisposeLeavesNoSession(s: SwitchState, fadeAway: bool)
    ensures DisposeCurrent(s, fadeAway).session.None?
    ensures s.session.None? ==> DisposeCurrent(s, fadeAway) == s
    ensures DisposeCurrent(DisposeCurrent(s, fadeAway), fadeAway) == DisposeCurrent(s, fadeAway)
  {
  }

  /** The session tryToInitSessionFromFocus(null, false) creates: the focus's provider, the recorded event, no spots. */
  function AutoSession(s: SwitchState, provider: int, sessionId: int): Session {
    Session(sessionId, provider, s.autoInitSessionEvent, false, false, false)
  }

  /** The focus-settled callback: tryToInitSessionFromFocus while still waiting. */
  function AutoInit(s: SwitchState, provider: Option<int>, sessionId: int): SwitchState {
    if !s.waitingForAutoInitSession || SessionActive(s) || provider.None? then s
    else SessionStarted(s, AutoSession(s, provider.value, sessionId))
  }

  /**
   * An automatic start happens only while waiting, with no session under way and a switch provider at
   * the focus. It starts a session for that provider from the recorded key event, with no spots shown;
   * otherwise nothing changes.
   */
  lemma AutoInitStartsOnlyWhenArmed(s: SwitchState, provider: Option<int>, sessionId: int)
    ensures s.waitingForAutoInitSession && !SessionActive(s) && provider.Some? ==>
      var r := AutoInit(s, provider, sessionId);
      r.session.Some? && r.session.value.provider == provider.value
      && r.session.value.startEvent == s.autoInitSessionEvent
      && !r.session.value.showSpots && !r.session.value.finished
      && !r.waitingForAutoInitSession
    ensures !(s.waitingForAutoInitSession && !SessionActive(s) && provider.Some?) ==> AutoInit(s, provider, sessionId) == s
  {
  }

  class SwitchManager {
    var session: Option<Session>
    var waitingForAutoInitSession: bool
    var autoInitSessionEvent: Option<KeyEvent>
    var alarmRequests: nat
    var focusRequests: nat
    var fadingWay: set<int>
    var disposed: seq<(Session, bool)>
    /** The switch actions: up, down, left, right and apply. */
    const switchActions: set<int>
    const project: int

    function State(): SwitchState
      reads this
    {
      SwitchState(session, waitingForAutoInitSession, autoInitSessionEvent, alarmRequests, focusRequests, fadingWay, disposed)
    }

    constructor(project: int, switchUp: int, switchDown: int, switchLeft: int, switchRight: int, switchApply: int)
      ensures this.project == project
      ensures switchActions == {switchUp, switchDown, switchLeft, switchRight, switchApply}
      ensures State() == SwitchState(None, false, None, 0, 0, {}, [])
    {
      this.project := project;
      switchActions := {switchUp, switchDown, switchLeft, switchRight, switchApply};
      session := None;
      waitingForAutoInitSession := false;
      autoInitSessionEvent := None;
      alarmRequests := 0;
      focusRequests := 0;
      fadingWay := {};
      disposed := [];
    }

    /** isSessionActive */
    predicate IsSessionActive()
      reads this
      ensures IsSessionActive() <==> SessionActive(State())
    {
      session.Some? && !session.value.finished
    }

    /** canApplySwitch: an active session whose selection was moved. */
    predicate CanApplySwitch()
      reads this
      ensures CanApplySwitch() ==> IsSessionActive()
    {
      IsSessionActive() && session.value.selectionWasMoved
    }

    method CancelWaitingForAutoInit()
      modifies this
      ensures State() == CancelWaiting(old(State()))
    {
      waitingForAutoInitSession := false;
      alarmRequests := 0;
    }

    method DisposeCurrentSession(fadeAway: bool)
      modifies this
      ensures State() == DisposeCurrent(old(State()), fadeAway)
    {
      if session.Some? {
        disposed := disposed + [(session.value, fadeAway)];
        session := None;
      }
    }

    method InitSession(newSession: Session)
      modifies this
      ensures State() == SessionStarted(old(State()), newSession)
    {
      CancelWaitingForAutoInit();
      DisposeCurrentSession(false);
      session := Some(newSession);
    }

    /** beforeActionPerformed: an action other than a switch action disposes the session. */
    method BeforeActionPerformed(action: int)
      modifies this
      ensures action !in switchActions ==> State() == DisposeCurrent(old(State()), false)
      ensures action in switchActions ==> State() == old(State())
    {
      if action !in switchActions {
        DisposeCurrentSession(false);
      }
    }

    method DispatchKeyEvent(e: KeyEvent, enabled: bool, modifierCodes: set<int>) returns (consumed: bool)
      modifies this
      ensures !consumed
      ensures State() == KeyEventEffect(old(State()), e, enabled, modifierCodes, project)
    {
      consumed := false;
      if !enabled {
        return;
      }
      if session.Some? && !session.value.finished {
        return;
      }
      if e.frameProject.Some? && e.frameProject.value != project {
        return;
      }
      if e.id != KeyPressed {
        if waitingForAutoInitSession {
          CancelWaitingForAutoInit();
        }
        return;
      }
      if e.keyCode in modifierCodes {
        var allPressed := AreAllModifiersPressed(e.modifiers, modifierCodes);
        if allPressed {
          waitingForAutoInitSession := true;
          autoInitSessionEvent := Some(e);
          if |fadingWay| == 0 {
            alarmRequests := alarmRequests + 1;
          } else {
            focusRequests := focusRequests + 1;
          }
        }
      } else {
        if waitingForAutoInitSession {
          CancelWaitingForAutoInit();
        }
      }
    }

    /** The init runnable once the focus has settled: start a session from the focus owner's provider while still waiting. */
    method FocusSettled(provider: Option<int>, sessionId: int)
      modifies this
      ensures State() == AutoInit(old(State()), provider, sessionId)
    {
      if waitingForAutoInitSession {
        if session.Some? && !session.value.finished {
          return;
        }
        if provider.Some? {
          InitSession(Session(sessionId, provider.value, autoInitSessionEvent, false, false, false));
        }
      }
    }

    /** applySwitch: done at once when no session is active; otherwise the session's finish decides. */
    method ApplySwitch() returns (done: bool)
      modifies this
      ensures done <==> !old(IsSessionActive())
      ensures State() == old(State())
    {
      if IsSessionActive() {
        done := false;
      } else {
        done := true;
      }
    }

    method AddFadingAway(sessionId: int)
      modifies this
      ensures State() == old(State()).(fadingWay := old(fadingWay) + {sessionId})
    {
      fadingWay := fadingWay + {sessionId};
    }

    method RemoveFadingAway(sessionId: int)
      modifies this
      ensures State() == old(State()).(fadingWay := old(fadingWay) - {sessionId})
    {
      fadingWay := fadingWay - {sessionId};
    }
  }
}
