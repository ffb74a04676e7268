/** The capture driver (xtask/src/nvda.rs): steps run against an agent, whose
    every answer is the environment's, and what holds of every run. */
module Captures {
  import opened Basics

  datatype Window = Window(window: nat, image: string, title: string, hung: bool)

  datatype LaunchKind = Normal | Minimized | WithoutForeground

  datatype Step =
    | Key(keys: string)
    | Launch(program: string, args: seq<string>, how: LaunchKind)
    | WaitFile(path: string)
    | Front(image: string, title: Option<string>)
    | OpenMenu
    | Type(text: string)
    | Hold(key: string)
    | Release(key: string)

  /** What is asked of the agent (and of the speech source, to settle). */
  datatype Call =
    | ForegroundInfo
    | SendKeys(key: string)
    | TypeText(character: char)
    | PressKey(key: string)
    | ReleaseKey(key: string)
    | LaunchProcess(program: string, args: seq<string>, how: LaunchKind)
    | WaitForFile(path: string)
    | WaitForWindow(title: string)
    | SetForeground(window: nat)
    | OpenVerbatimMenu
    | Settle

  /** The answer to a call: whether it succeeded; whether what was waited for
      came about, or the window took the foreground; the windows. */
  datatype Reply = Reply(ok: bool, yes: bool, front: Option<Window>, windows: seq<Window>)

  datatype Event = Event(call: Call, reply: Reply)

  type Env = (seq<Event>, Call) -> Reply

  const ANY_IMAGE: string := "*"

  // ---- What holds of a run ----

  /** What reaches a window. */
  predicate IsInput(e: Event) {
    e.call.SendKeys? || e.call.TypeText? || e.call.PressKey?
  }

  /** A call, if it is not only a question or a window brought forward. */
  function Done(call: Call): seq<Call> {
    if call.ForegroundInfo? || call.WaitForWindow? || call.SetForeground? || call.Settle? then [] else [call]
  }

  function Acts(trace: seq<Event>): seq<Call> {
    if trace == [] then [] else Acts(trace[..|trace| - 1]) + Done(trace[|trace| - 1].call)
  }

  /** The window the keys are meant for, by the calls made: the one in front at
      the start, none after a launch, the one each set-foreground brought
      forward. */
  function TargetOf(trace: seq<Event>): Option<nat> {
    if trace == [] then None
    else
      var last := trace[|trace| - 1];
      if |trace| == 1 then Handle(last.reply.front)
      else if last.call.LaunchProcess? && last.reply.ok then None
      else if Brings(last) then Some(last.call.window)
      else TargetOf(trace[..|trace| - 1])
  }

  function Handle(front: Option<Window>): Option<nat> {
    if front.Some? then Some(front.value.window) else None
  }

  /** The window in front is the target, and responding. */
  predicate InFront(target: Option<nat>, front: Option<Window>) {
    target.Some? && front.Some? && front.value.window == target.value && !front.value.hung
  }

  /** An answer that shows the target in front and responding. */
  predicate Shows(e: Event, target: Option<nat>) {
    e.call.ForegroundInfo? && e.reply.ok && InFront(target, e.reply.front)
  }

  /** A window is brought forward. */
  predicate Brings(e: Event) {
    e.call.SetForeground? && e.reply.ok && e.reply.yes
  }

  /** A look that does not show the target in front and responding. */
  predicate Misses(e: Event, target: Option<nat>) {
    e.call.ForegroundInfo? && !Shows(e, target)
  }

  /** Some look after the first missed the target, and no window was brought
      forward since. */
  predicate Astray(trace: seq<Event>) {
    |trace| > 1
    && var before, last := trace[..|trace| - 1], trace[|trace| - 1];
       if Brings(last) then false else Misses(last, TargetOf(before)) || Astray(before)
  }

  ghost predicate GuardedAt(trace: seq<Event>, i: nat)
    requires i < |trace|
  {
    IsInput(trace[i]) ==> i > 0 && Shows(trace[i - 1], TargetOf(trace[..i])) && !Astray(trace[..i])
  }

  /** Every key and character sent comes just after such an answer, and none after
      a look that missed until a window is brought forward. */
  ghost predicate Guarded(trace: seq<Event>) {
    forall i :: 0 <= i < |trace| ==> GuardedAt(trace, i)
  }

  predicate Pressed(e: Event, key: string) {
    e.call == PressKey(key) && e.reply.ok
  }

  ghost predicate ReleasedAfter(trace: seq<Event>, i: nat, key: string) {
    exists j :: i < j < |trace| && trace[j].call == ReleaseKey(key)
  }

  /** Every key pressed was released since, or is in `held`. */
  ghost predicate AllHeld(trace: seq<Event>, held: seq<string>) {
    forall i, key :: 0 <= i < |trace| && Pressed(trace[i], key) ==> ReleasedAfter(trace, i, key) || key in held
  }

  /** A call that did not do what was asked of it. */
  predicate Failing(e: Event) {
    !e.reply.ok || ((e.call.WaitForFile? || e.call.SetForeground?) && !e.reply.yes)
  }

  ghost predicate Unfailing(trace: seq<Event>) {
    forall i :: 0 <= i < |trace| ==> !Failing(trace[i])
  }

  /** Nothing is sent after a call that failed. */
  ghost predicate Quiet(trace: seq<Event>) {
    forall i, j :: 0 <= i < j < |trace| && Failing(trace[i]) ==> !IsInput(trace[j])
  }

  /** The last calls did not do what was asked: a call failed, a look missed the
      target, or a window did not come forward, after which one looks. */
  ghost predicate Halts(trace: seq<Event>) {
    && |trace| > 1
    && var last := trace[|trace| - 1];
       || Failing(last) || Misses(last, TargetOf(trace[..|trace| - 1]))
       || (last.call.ForegroundInfo? && trace[|trace| - 2].call.SetForeground? && Failing(trace[|trace| - 2]))
  }

  // ---- One more call ----

  lemma ActsSnoc(trace: seq<Event>, e: Event)
    ensures Acts(trace + [e]) == Acts(trace) + Done(e.call)
  {
    assert (trace + [e])[..|trace|] == trace;
  }

  lemma GuardedSnoc(trace: seq<Event>, e: Event)
    requires Guarded(trace)
    requires IsInput(e) ==> trace != [] && Shows(trace[|trace| - 1], TargetOf(trace)) && !Astray(trace)
    ensures Guarded(trace + [e])
  {
    var more := trace + [e];
    forall i | 0 <= i < |more| ensures GuardedAt(more, i) {
      assert more[..i] == trace[..i];
      if i < |trace| {
        assert GuardedAt(trace, i);
      } else {
        assert trace[..i] == trace;
      }
    }
  }

  lemma TargetSnoc(trace: seq<Event>, e: Event)
    requires trace != []
    ensures TargetOf(trace + [e]) == TargetAfter(TargetOf(trace), e)
    ensures Astray(trace + [e]) <==> !Brings(e) && (Misses(e, TargetOf(trace)) || Astray(trace))
  {
    assert (trace + [e])[..|trace|] == trace;
  }

  lemma ReleasedStays(trace: seq<Event>, e: Event, i: nat, key: string)
    requires ReleasedAfter(trace, i, key)
    ensures ReleasedAfter(trace + [e], i, key)
  {
    var j :| i < j < |trace| && trace[j].call == ReleaseKey(key);
    assert (trace + [e])[j] == trace[j];
  }

  /** `more` are the keys held after `e`. */
  lemma AllHeldSnoc(trace: seq<Event>, held: seq<string>, e: Event, more: seq<string>)
    requires AllHeld(trace, held)
    requires forall key :: key in held && key !in more ==> e.call == ReleaseKey(key)
    requires forall key :: Pressed(e, key) ==> key in more
    ensures AllHeld(trace + [e], more)
  {
    var longer := trace + [e];
    forall i, key | 0 <= i < |longer| && Pressed(longer[i], key) ensures ReleasedAfter(longer, i, key) || key in more {
      if i < |trace| {
        if ReleasedAfter(trace, i, key) {
          ReleasedStays(trace, e, i, key);
        } else if key !in more {
          assert longer[|trace|].call == ReleaseKey(key);
        }
      }
    }
  }

  lemma QuietSnoc(trace: seq<Event>, e: Event)
    requires Quiet(trace) && (IsInput(e) ==> Unfailing(trace))
    ensures Quiet(trace + [e])
  {
  }

  /** A run so far: `acts` were done, no call failed. */
  ghost predicate Looking(trace: seq<Event>, target: Option<nat>, held: seq<string>, acts: seq<Call>) {
    && trace != [] && Guarded(trace) && TargetOf(trace) == target && AllHeld(trace, held) && Unfailing(trace)
    && Acts(trace) == acts
  }

  /** And no look missed its target since a window was brought forward. */
  ghost predicate Running(trace: seq<Event>, target: Option<nat>, held: seq<string>, acts: seq<Call>) {
    Looking(trace, target, held, acts) && !Astray(trace)
  }

  /** A run that stopped: beyond `acts` it did the start of what was `planned`. */
  ghost predicate Stopped(trace: seq<Event>, held: seq<string>, acts: seq<Call>, planned: seq<Call>) {
    && trace != [] && Guarded(trace) && AllHeld(trace, held) && Quiet(trace)
    && acts <= Acts(trace) && Acts(trace) <= planned
  }

  function TargetAfter(target: Option<nat>, e: Event): Option<nat> {
    if e.call.LaunchProcess? && e.reply.ok then None
    else if Brings(e) then Some(e.call.window)
    else target
  }

  function HeldAfter(held: seq<string>, e: Event): seq<string> {
    if e.call.PressKey? && e.reply.ok then held + [e.call.key]
    else if e.call.ReleaseKey? then Without(held, e.call.key)
    else held
  }

  /** A call made while all is well keeps the run safe, and the run goes on if
      the call did what was asked. */
  lemma Called(trace: seq<Event>, target: Option<nat>, held: seq<string>, acts: seq<Call>, e: Event)
    requires Looking(trace, target, held, acts) && (IsInput(e) ==> Shows(trace[|trace| - 1], target) && !Astray(trace))
    ensures Stopped(trace + [e], HeldAfter(held, e), acts, acts + Done(e.call))
    ensures !Failing(e) ==> Looking(trace + [e], TargetAfter(target, e), HeldAfter(held, e), acts + Done(e.call))
    ensures Astray(trace + [e]) <==> !Brings(e) && (Misses(e, target) || Astray(trace))
  {
    ActsSnoc(trace, e);
    GuardedSnoc(trace, e);
    TargetSnoc(trace, e);
    AllHeldSnoc(trace, held, e, HeldAfter(held, e));
    QuietSnoc(trace, e);
  }

  lemma StoppedWithin(trace: seq<Event>, held: seq<string>, acts: seq<Call>, planned: seq<Call>, less: seq<Call>, wider: seq<Call>)
    requires Stopped(trace, held, acts, planned) && less <= acts && planned <= wider
    ensures Stopped(trace, held, less, wider)
  {
  }

  /** Between a launch and the next window brought forward nothing is sent. */
  lemma {:induction false} SilentAfterLaunch(trace: seq<Event>, i: nat, j: nat)
    requires Guarded(trace) && i < j < |trace| && i > 0 && trace[i].call.LaunchProcess? && trace[i].reply.ok
    requires forall k :: i < k < j && trace[k].call.SetForeground? ==> !trace[k].reply.ok || !trace[k].reply.yes
    ensures !trace[j].call.SendKeys? && !trace[j].call.TypeText? && !trace[j].call.PressKey?
  {
    NoTargetAfterLaunch(trace, i, j);
    assert GuardedAt(trace, j);
  }

  lemma {:induction false} NoTargetAfterLaunch(trace: seq<Event>, i: nat, j: nat)
    requires 0 < i < j <= |trace| && trace[i].call.LaunchProcess? && trace[i].reply.ok
    requires forall k :: i < k < j ==> !Brings(trace[k])
    ensures TargetOf(trace[..j]) == None
  {
    assert trace[..j] == trace[..j - 1] + [trace[j - 1]];
    TargetSnoc(trace[..j - 1], trace[j - 1]);
    if j > i + 1 { NoTargetAfterLaunch(trace, i, j - 1); }
  }

  /** After a look, other than the first, that does not show the target in front
      and responding, nothing is sent until a window is brought forward. */
  lemma SilentAfterMiss(trace: seq<Event>, i: nat, j: nat)
    requires Guarded(trace) && 0 < i < j < |trace| && trace[i].call.ForegroundInfo?
    requires var look := trace[i].reply;
             !look.ok || look.front.None? || look.front.value.hung || TargetOf(trace[..i]) != Some(look.front.value.window)
    requires forall k :: i < k < j && trace[k].call.SetForeground? ==> !trace[k].reply.ok || !trace[k].reply.yes
    ensures !trace[j].call.SendKeys? && !trace[j].call.TypeText? && !trace[j].call.PressKey?
  {
    AstrayAfterMiss(trace, i, j);
    assert GuardedAt(trace, j);
  }

  lemma {:induction false} AstrayAfterMiss(trace: seq<Event>, i: nat, j: nat)
    requires 0 < i < j <= |trace| && Misses(trace[i], TargetOf(trace[..i]))
    requires forall k :: i < k < j ==> !Brings(trace[k])
    ensures Astray(trace[..j])
  {
    assert trace[..j] == trace[..j - 1] + [trace[j - 1]];
    TargetSnoc(trace[..j - 1], trace[j - 1]);
    if j > i + 1 { AstrayAfterMiss(trace, i, j - 1); }
  }

  // ---- In plain terms ----

  lemma {:induction false} ActsSum(a: seq<Event>, b: seq<Event>)
    ensures Acts(a + b) == Acts(a) + Acts(b)
    decreases |b|
  {
    if b == [] {
      assert a + b == a;
    } else {
      var before, last := b[..|b| - 1], b[|b| - 1];
      assert b == before + [last] && a + b == (a + before) + [last];
      ActsSum(a, before);
      ActsSnoc(a + before, last);
      ActsSnoc(before, last);
      Associate(Acts(a), Acts(before), Done(last.call));
    }
  }

  /** What is done is, call by call and in order, the keys, characters, holds and
      releases, the launches, the waits for files and the menu. */
  lemma ActsMean(a: seq<Event>, b: seq<Event>, e: Event)
    ensures Acts(a + b) == Acts(a) + Acts(b)
    ensures Acts([e]) == if e.call.SendKeys? || e.call.TypeText? || e.call.PressKey? || e.call.ReleaseKey?
                            || e.call.LaunchProcess? || e.call.WaitForFile? || e.call.OpenVerbatimMenu?
                         then [e.call] else []
  {
    ActsSum(a, b);
    ActsSnoc([], e);
    assert [] + [e] == [e];
  }

  /** What `Guarded` says of the call before an input. */
  lemma GuardedMeans(trace: seq<Event>)
    requires Guarded(trace)
    ensures forall i :: 0 <= i < |trace| && (trace[i].call.SendKeys? || trace[i].call.TypeText? || trace[i].call.PressKey?) ==>
              && i > 0 && trace[i - 1].call.ForegroundInfo? && trace[i - 1].reply.ok && trace[i - 1].reply.front.Some?
              && Some(trace[i - 1].reply.front.value.window) == TargetOf(trace[..i])
              && !trace[i - 1].reply.front.value.hung
  {
    forall i | 0 <= i < |trace| && (trace[i].call.SendKeys? || trace[i].call.TypeText? || trace[i].call.PressKey?)
      ensures && i > 0 && trace[i - 1].call.ForegroundInfo? && trace[i - 1].reply.ok && trace[i - 1].reply.front.Some?
              && Some(trace[i - 1].reply.front.value.window) == TargetOf(trace[..i])
              && !trace[i - 1].reply.front.value.hung
    {
      assert GuardedAt(trace, i);
    }
  }

  /** The target after a run: `k` is its first call or one that changed the target,
      and none after it did. */
  lemma {:induction false} TargetMeans(trace: seq<Event>, k: nat)
    requires k < |trace|
    requires forall j :: k < j < |trace| && trace[j].call.LaunchProcess? ==> !trace[j].reply.ok
    requires forall j :: k < j < |trace| && trace[j].call.SetForeground? ==> !trace[j].reply.ok || !trace[j].reply.yes
    ensures k == 0 ==>
              TargetOf(trace) == if trace[0].reply.front.None? then None else Some(trace[0].reply.front.value.window)
    ensures k > 0 && trace[k].call.LaunchProcess? && trace[k].reply.ok ==> TargetOf(trace) == None
    ensures k > 0 && trace[k].call.SetForeground? && trace[k].reply.ok && trace[k].reply.yes ==>
              TargetOf(trace) == Some(trace[k].call.window)
    decreases |trace|
  {
    if k < |trace| - 1 {
      var before := trace[..|trace| - 1];
      assert forall j :: 0 <= j < |before| ==> before[j] == trace[j];
      TargetMeans(before, k);
    }
  }
}
