/** The steps of a capture and the capture itself (xtask/src/nvda.rs). */
module CaptureDriver {
  import opened Basics
  import opened Captures
  import opened Texts

  // ---- What a step is to send ----

  function KeysSent(keys: seq<string>): (acts: seq<Call>)
    ensures |acts| == |keys| && forall k :: 0 <= k < |keys| ==> acts[k] == SendKeys(keys[k])
  {
    seq(|keys|, k requires 0 <= k < |keys| => SendKeys(keys[k]))
  }

  function CharsSent(text: string): (acts: seq<Call>)
    ensures |acts| == |text| && forall k :: 0 <= k < |text| ==> acts[k] == TypeText(text[k])
  {
    seq(|text|, k requires 0 <= k < |text| => TypeText(text[k]))
  }

  function Planned(step: Step): seq<Call> {
    match step
    case Key(keys) => KeysSent(Pieces(keys))
    case Type(text) => CharsSent(text)
    case Hold(key) => [PressKey(key)]
    case Release(key) => [ReleaseKey(key)]
    case Launch(program, args, how) => [LaunchProcess(program, args, how)]
    case WaitFile(path) => [WaitForFile(path)]
    case OpenMenu => [OpenVerbatimMenu]
    case Front(image, title) => []
  }

  function PlannedAll(steps: seq<Step>): seq<Call> {
    if steps == [] then [] else PlannedAll(steps[..|steps| - 1]) + Planned(steps[|steps| - 1])
  }

  /** The keys the steps leave held down. */
  function HeldBy(steps: seq<Step>): seq<string> {
    if steps == [] then [] else HeldOn(HeldBy(steps[..|steps| - 1]), steps[|steps| - 1])
  }

  function HeldOn(held: seq<string>, step: Step): seq<string> {
    match step
    case Hold(key) => held + [key]
    case Release(key) => Without(held, key)
    case _ => held
  }

  /** The releases of `held`, the last first. */
  function Releases(held: seq<string>): seq<Call> {
    ReleasesFrom(held, 0)
  }

  function ReleasesFrom(held: seq<string>, k: nat): seq<Call>
    requires k <= |held|
    decreases |held| - k
  {
    if k == |held| then [] else ReleasesFrom(held, k + 1) + [ReleaseKey(held[k])]
  }

  // ---- Calls ----

  method Ask(env: Env, trace: seq<Event>, call: Call) returns (more: seq<Event>, reply: Reply)
    ensures more == trace + [Event(call, reply)] && reply == env(trace, call)
  {
    reply := env(trace, call);
    more := trace + [Event(call, reply)];
  }

  /** A call that sends nothing. */
  method Do(env: Env, trace: seq<Event>, call: Call, ghost target: Option<nat>, ghost held: seq<string>, ghost acts: seq<Call>)
    returns (more: seq<Event>, reply: Reply)
    requires Looking(trace, target, held, acts) && !call.SendKeys? && !call.TypeText? && !call.PressKey?
    ensures ghost var e := Event(call, reply);
            && more == trace + [e] && Stopped(more, HeldAfter(held, e), acts, acts + Done(call))
            && (!Failing(e) ==> Looking(more, TargetAfter(target, e), HeldAfter(held, e), acts + Done(call)))
            && (Astray(more) <==> !Brings(e) && (Misses(e, target) || Astray(trace)))
  {
    more, reply := Ask(env, trace, call);
    Called(trace, target, held, acts, Event(call, reply));
  }

  /** A question, which leaves target and keys alone. */
  method AskQuietly(env: Env, trace: seq<Event>, call: Call,
                    ghost target: Option<nat>, ghost held: seq<string>, ghost acts: seq<Call>)
    returns (more: seq<Event>, reply: Reply)
    requires Running(trace, target, held, acts)
    requires call.ForegroundInfo? || call.WaitForWindow? || call.Settle?
    ensures more == trace + [Event(call, reply)] && Stopped(more, held, acts, acts)
    ensures !Failing(Event(call, reply)) ==> Looking(more, target, held, acts)
    ensures Astray(more) <==> Misses(Event(call, reply), target)
  {
    more, reply := Do(env, trace, call, target, held, acts);
    assert acts + [] == acts;
  }

  method RequireInFront(env: Env, trace: seq<Event>, target: Option<nat>,
                        ghost held: seq<string>, ghost acts: seq<Call>)
    returns (more: seq<Event>, ok: bool)
    requires Running(trace, target, held, acts)
    ensures |more| > 0 && Stopped(more, held, acts, acts)
    ensures |more| == |trace| + 1 && more[..|trace|] == trace && more[|trace|].call == ForegroundInfo
    ensures ok <==> Shows(more[|trace|], target)
    ensures ok <==> var look := more[|trace|].reply;
                    look.ok && look.front.Some? && target == Some(look.front.value.window) && !look.front.value.hung
    ensures ok ==> Running(more, target, held, acts)
    ensures !ok ==> Halts(more)
  {
    var reply;
    more, reply := AskQuietly(env, trace, ForegroundInfo, target, held, acts);
    assert more[..|trace|] == trace;
    ok := reply.ok && InFront(target, reply.front);
  }

  /** Sends one key or character, or presses one key down, once the target is
      known to be in front. */
  method Send(env: Env, trace: seq<Event>, call: Call, target: Option<nat>, held: seq<string>, ghost acts: seq<Call>)
    returns (more: seq<Event>, stillHeld: seq<string>, ok: bool)
    requires Running(trace, target, held, acts) && (call.SendKeys? || call.TypeText? || call.PressKey?)
    ensures Stopped(more, stillHeld, acts, acts + Done(call)) && (!call.PressKey? ==> stillHeld == held)
    ensures ok ==> Running(more, target, stillHeld, acts + Done(call)) && stillHeld == HeldAfter(held, Event(call, Reply(true, true, None, [])))
    ensures !ok ==> Halts(more)
    ensures |trace| < |more| <= |trace| + 2 && more[..|trace|] == trace && more[|trace|].call == ForegroundInfo
    ensures |more| == |trace| + 2 <==>
              var look := more[|trace|].reply;
              look.ok && look.front.Some? && target == Some(look.front.value.window) && !look.front.value.hung
    ensures |more| == |trace| + 2 ==> more[|trace| + 1].call == call && ok == more[|trace| + 1].reply.ok
    ensures |more| == |trace| + 1 ==> !ok
  {
    stillHeld := held;
    more, ok := RequireInFront(env, trace, target, held, acts);
    if !ok {
      StoppedWithin(more, held, acts, acts, acts, acts + Done(call));
      return;
    }
    var reply;
    var before := more;
    more, reply := Ask(env, more, call);
    Called(before, target, held, acts, Event(call, reply));
    ok := reply.ok;
    if ok && call.PressKey? { stillHeld := held + [call.key]; }
  }

  // ---- Steps ----

  function Lower(c: char): char {
    if 'A' <= c <= 'Z' then 'a' + (c - 'A') else c
  }

  predicate SameIgnoringCase(a: string, b: string) {
    |a| == |b| && forall k :: 0 <= k < |a| ==> Lower(a[k]) == Lower(b[k])
  }

  predicate Contains(text: string, part: string) {
    exists k :: 0 <= k <= |text| && StartsAt(text, part, k)
  }

  predicate StartsAt(text: string, part: string, k: nat) {
    k + |part| <= |text| && text[k..k + |part|] == part
  }

  predicate Matches(window: Window, image: string, title: Option<string>) {
    && (image == ANY_IMAGE || SameIgnoringCase(window.image, image))
    && (title.Some? ==> Contains(window.title, title.value))
  }

  /** The same letters, whichever of the two cases an ASCII letter is in. */
  ghost predicate EqualIgnoringCase(a: string, b: string) {
    && |a| == |b|
    && forall k :: 0 <= k < |a| ==>
         || a[k] == b[k]
         || ('A' <= a[k] <= 'Z' && b[k] as int == a[k] as int + 32)
         || ('A' <= b[k] <= 'Z' && a[k] as int == b[k] as int + 32)
  }

  /** A window matches when its image is the one asked for, or any will do, and its
      title has the text asked for in it. */
  lemma MatchesMeans(window: Window, image: string, title: Option<string>)
    ensures Matches(window, image, title) <==>
            && (image == "*" || EqualIgnoringCase(window.image, image))
            && (title.Some? ==> exists a, b :: window.title == a + title.value + b)
  {
    if title.Some? {
      var text, part := window.title, title.value;
      if Contains(text, part) {
        var k :| 0 <= k <= |text| && StartsAt(text, part, k);
        assert text == text[..k] + part + text[k + |part|..];
      }
      if exists a, b :: text == a + part + b {
        var a, b :| text == a + part + b;
        assert StartsAt(text, part, |a|);
      }
    }
  }

  ghost predicate FirstMatch(windows: seq<Window>, image: string, title: Option<string>, window: Window) {
    exists k :: 0 <= k < |windows| && windows[k] == window && Matches(window, image, title)
                && forall i :: 0 <= i < k ==> !Matches(windows[i], image, title)
  }

  /** The first window that matches. */
  method FindWindow(windows: seq<Window>, image: string, title: Option<string>) returns (found: Option<Window>)
    ensures found.Some? ==> FirstMatch(windows, image, title, found.value)
    ensures found.None? ==> forall k :: 0 <= k < |windows| ==> !Matches(windows[k], image, title)
    ensures found.Some? ==> exists k :: 0 <= k < |windows| && windows[k] == found.value
    ensures found.Some? ==> image == "*" || EqualIgnoringCase(found.value.image, image)
    ensures found.Some? && title.Some? ==> exists a, b :: found.value.title == a + title.value + b
  {
    for k := 0 to |windows|
      invariant forall i :: 0 <= i < k ==> !Matches(windows[i], image, title)
    {
      if Matches(windows[k], image, title) {
        MatchesMeans(windows[k], image, title);
        return Some(windows[k]);
      }
    }
    return None;
  }

  lemma PartSent(acts: seq<Call>, sent: seq<Call>, k: nat)
    requires k < |sent|
    ensures acts + sent[..k + 1] == acts + sent[..k] + [sent[k]]
    ensures acts <= acts + sent[..k] && acts + sent[..k] + [sent[k]] <= acts + sent
  {
    assert sent[..k + 1] == sent[..k] + [sent[k]];
    assert (acts + sent)[..|acts| + k + 1] == acts + sent[..k + 1];
  }

  /** After `trace` the first `n` of `calls` were made, each with its look before it. */
  ghost predicate SentEach(trace: seq<Event>, more: seq<Event>, calls: seq<Call>, n: nat) {
    && n <= |calls| && |more| == |trace| + 2 * n && more[..|trace|] == trace
    && forall k :: 0 <= k < n ==> LookThenCall(more, |trace| + 2 * k, calls[k])
  }

  ghost predicate LookThenCall(trace: seq<Event>, at: nat, call: Call) {
    at + 1 < |trace| && trace[at].call == ForegroundInfo && trace[at + 1].call == call
  }

  lemma SentOneMore(trace: seq<Event>, before: seq<Event>, more: seq<Event>, calls: seq<Call>, k: nat)
    requires SentEach(trace, before, calls, k) && k < |calls| && |more| == |before| + 2 && more[..|before|] == before
    requires LookThenCall(more, |before|, calls[k])
    ensures SentEach(trace, more, calls, k + 1)
  {
    assert more[..|trace|] == before[..|trace|];
    forall i | 0 <= i < k + 1 ensures LookThenCall(more, |trace| + 2 * i, calls[i]) {
      if i < k {
        assert LookThenCall(before, |trace| + 2 * i, calls[i]);
        assert forall j :: 0 <= j < |before| ==> more[j] == before[j];
      }
    }
  }

  method SendKeysOf(env: Env, trace: seq<Event>, keys: seq<string>, target: Option<nat>, held: seq<string>,
                    ghost acts: seq<Call>)
    returns (more: seq<Event>, ok: bool)
    requires Running(trace, target, held, acts)
    ensures Stopped(more, held, acts, acts + KeysSent(keys))
    ensures ok ==> Running(more, target, held, acts + KeysSent(keys))
    ensures !ok ==> Halts(more)
    ensures ok ==> SentEach(trace, more, KeysSent(keys), |keys|)
  {
    more, ok := trace, true;
    for k := 0 to |keys|
      invariant ok && Running(more, target, held, acts + KeysSent(keys)[..k])
      invariant SentEach(trace, more, KeysSent(keys), k)
    {
      ghost var soFar := acts + KeysSent(keys)[..k];
      ghost var before := more;
      var stillHeld;
      more, stillHeld, ok := Send(env, more, SendKeys(keys[k]), target, held, soFar);
      PartSent(acts, KeysSent(keys), k);
      if !ok {
        StoppedWithin(more, held, soFar, soFar + [SendKeys(keys[k])], acts, acts + KeysSent(keys));
        return;
      }
      SentOneMore(trace, before, more, KeysSent(keys), k);
    }
    assert KeysSent(keys)[..|keys|] == KeysSent(keys);
  }

  method TypeCharsOf(env: Env, trace: seq<Event>, text: string, target: Option<nat>, held: seq<string>,
                     ghost acts: seq<Call>)
    returns (more: seq<Event>, ok: bool)
    requires Running(trace, target, held, acts)
    ensures Stopped(more, held, acts, acts + CharsSent(text))
    ensures ok ==> Running(more, target, held, acts + CharsSent(text))
    ensures !ok ==> Halts(more)
    ensures ok ==> SentEach(trace, more, CharsSent(text), |text|)
  {
    more, ok := trace, true;
    for k := 0 to |text|
      invariant ok && Running(more, target, held, acts + CharsSent(text)[..k])
      invariant SentEach(trace, more, CharsSent(text), k)
    {
      ghost var soFar := acts + CharsSent(text)[..k];
      ghost var before := more;
      var stillHeld;
      more, stillHeld, ok := Send(env, more, TypeText(text[k]), target, held, soFar);
      PartSent(acts, CharsSent(text), k);
      if !ok {
        StoppedWithin(more, held, soFar, soFar + [TypeText(text[k])], acts, acts + CharsSent(text));
        return;
      }
      SentOneMore(trace, before, more, CharsSent(text), k);
    }
    assert CharsSent(text)[..|text|] == CharsSent(text);
  }

  /** The last call brought forward the first match among the windows of the
      answer before it. */
  ghost predicate Brought(trace: seq<Event>, image: string, title: Option<string>, target: Option<nat>) {
    && |trace| > 1 && trace[|trace| - 2].call.ForegroundInfo? && target.Some?
    && trace[|trace| - 1].call == SetForeground(target.value) && trace[|trace| - 1].reply.yes
    && exists window: Window :: window.window == target.value && FirstMatch(trace[|trace| - 2].reply.windows, image, title, window)
  }

  /** The last call listed the windows, and none of them matches. */
  ghost predicate NoneMatches(trace: seq<Event>, image: string, title: Option<string>) {
    && trace != [] && trace[|trace| - 1].call.ForegroundInfo?
    && var windows := trace[|trace| - 1].reply.windows; forall k :: 0 <= k < |windows| ==> !Matches(windows[k], image, title)
  }

  /** What stops a run in `step`. */
  ghost predicate Halted(trace: seq<Event>, step: Step) {
    Halts(trace) || (step.Front? && NoneMatches(trace, step.image, step.title))
  }

  /** Brings the first window of `image`, titled `title`, to the foreground. */
  method BringForward(env: Env, trace: seq<Event>, image: string, title: Option<string>, target: Option<nat>,
                      ghost held: seq<string>, ghost acts: seq<Call>)
    returns (more: seq<Event>, newTarget: Option<nat>, ok: bool)
    requires Running(trace, target, held, acts)
    ensures Stopped(more, held, acts, acts)
    ensures ok ==> Running(more, newTarget, held, acts) && Brought(more, image, title, newTarget)
    ensures ok <==> !Halts(more) && !NoneMatches(more, image, title)
    ensures ok ==> trace <= more && SentBy(more[|trace|..], Front(image, title))
  {
    var windows;
    newTarget := target;
    more, windows, ok := ListWindows(env, trace, title, target, held, acts);
    if !ok { return; }
    var found := FindWindow(windows, image, title);
    if found.None? { ok := false; return; }
    more, ok := TakeForeground(env, more, found.value.window, target, held, acts);
    if ok { newTarget := Some(found.value.window); }
  }

  /** The windows there are, once one titled `title` is. */
  method ListWindows(env: Env, trace: seq<Event>, title: Option<string>, ghost target: Option<nat>,
                     ghost held: seq<string>, ghost acts: seq<Call>)
    returns (more: seq<Event>, windows: seq<Window>, ok: bool)
    requires Running(trace, target, held, acts)
    ensures Stopped(more, held, acts, acts) && (!ok ==> Halts(more))
    ensures ok ==> && Looking(more, target, held, acts) && more[|more| - 1].call.ForegroundInfo?
                   && more[|more| - 1].reply.windows == windows
    ensures ok ==> && |more| == |trace| + (if title.Some? then 2 else 1) && more[..|trace|] == trace
                   && (title.Some? ==> more[|trace|].call == WaitForWindow(title.value))
  {
    more, windows := trace, [];
    var reply;
    if title.Some? {
      more, reply := AskQuietly(env, more, WaitForWindow(title.value), target, held, acts);
      if !reply.ok { ok := false; return; }
    }
    more, reply := AskQuietly(env, more, ForegroundInfo, target, held, acts);
    ok, windows := reply.ok, reply.windows;
  }

  /** Brings one window forward; if it does not come, looks at what is in front. */
  method TakeForeground(env: Env, trace: seq<Event>, window: nat, ghost target: Option<nat>,
                        ghost held: seq<string>, ghost acts: seq<Call>)
    returns (more: seq<Event>, ok: bool)
    requires Looking(trace, target, held, acts)
    ensures Stopped(more, held, acts, acts)
    ensures ok ==> && |more| == |trace| + 1 && more[..|trace|] == trace && Running(more, Some(window), held, acts)
                   && more[|trace|].call == SetForeground(window) && more[|trace|].reply.yes
    ensures !ok ==> Halts(more)
  {
    var reply;
    more, reply := Do(env, trace, SetForeground(window), target, held, acts);
    assert acts + [] == acts;
    ok := reply.ok && reply.yes;
    if reply.ok && !reply.yes {
      var before := more;
      more, reply := Ask(env, more, ForegroundInfo);
      StoppedQuietly(before, held, acts, Event(ForegroundInfo, reply));
    }
  }

  lemma StoppedQuietly(trace: seq<Event>, held: seq<string>, acts: seq<Call>, e: Event)
    requires Stopped(trace, held, acts, acts) && e.call.ForegroundInfo?
    ensures Stopped(trace + [e], held, acts, acts)
  {
    ActsSnoc(trace, e);
    GuardedSnoc(trace, e);
    AllHeldSnoc(trace, held, e, held);
    QuietSnoc(trace, e);
  }

  /** The calls of a step that went through: each key, character or hold has its
      look before it; the other steps are one call. */
  ghost predicate SentBy(calls: seq<Event>, step: Step) {
    match step
    case Key(keys) =>
      && |calls| == 2 * |Pieces(keys)|
      && forall k :: 0 <= k < |Pieces(keys)| ==> LookThenCall(calls, 2 * k, SendKeys(Pieces(keys)[k]))
    case Type(text) =>
      && |calls| == 2 * |text|
      && forall k :: 0 <= k < |text| ==> LookThenCall(calls, 2 * k, TypeText(text[k]))
    case Hold(key) => |calls| == 2 && calls[0].call == ForegroundInfo && calls[1].call == PressKey(key)
    case Release(key) => |calls| == 1 && calls[0].call == ReleaseKey(key)
    case Launch(program, args, how) => |calls| == 1 && calls[0].call == LaunchProcess(program, args, how)
    case WaitFile(path) => |calls| == 1 && calls[0].call == WaitForFile(path) && calls[0].reply.yes
    case OpenMenu => |calls| == 1 && calls[0].call == OpenVerbatimMenu
    case Front(image, title) =>
      var looks := if title.Some? then 2 else 1;
      && |calls| == looks + 1
      && (title.Some? ==> calls[0].call == WaitForWindow(title.value))
      && calls[looks - 1].call == ForegroundInfo && calls[looks].call.SetForeground? && calls[looks].reply.yes
  }

  lemma SentAfter(trace: seq<Event>, more: seq<Event>, calls: seq<Call>)
    requires SentEach(trace, more, calls, |calls|)
    ensures trace <= more && |more[|trace|..]| == 2 * |calls|
    ensures forall k :: 0 <= k < |calls| ==> LookThenCall(more[|trace|..], 2 * k, calls[k])
  {
    forall k | 0 <= k < |calls| ensures LookThenCall(more[|trace|..], 2 * k, calls[k]) {
      assert LookThenCall(more, |trace| + 2 * k, calls[k]);
    }
  }

  /** The steps that send keys or characters. */
  method SendStep(env: Env, trace: seq<Event>, target: Option<nat>, held: seq<string>, step: Step, ghost acts: seq<Call>)
    returns (more: seq<Event>, newHeld: seq<string>, ok: bool)
    requires Running(trace, target, held, acts) && (step.Key? || step.Type? || step.Hold?)
    ensures Stopped(more, newHeld, acts, acts + Planned(step))
    ensures ok ==> Running(more, target, newHeld, acts + Planned(step)) && newHeld == HeldOn(held, step)
    ensures !ok ==> Halts(more)
    ensures ok ==> trace <= more && SentBy(more[|trace|..], step)
  {
    newHeld := held;
    match step
    case Key(keys) =>
      more, ok := SendKeysOf(env, trace, Pieces(keys), target, held, acts);
      if ok { SentAfter(trace, more, KeysSent(Pieces(keys))); }
    case Type(text) =>
      more, ok := TypeCharsOf(env, trace, text, target, held, acts);
      if ok { SentAfter(trace, more, CharsSent(text)); }
    case Hold(key) =>
      more, newHeld, ok := Send(env, trace, PressKey(key), target, held, acts);
  }

  /** A launch, which leaves no target. */
  method LaunchStep(env: Env, trace: seq<Event>, target: Option<nat>, ghost held: seq<string>, step: Step, ghost acts: seq<Call>)
    returns (more: seq<Event>, newTarget: Option<nat>, ok: bool)
    requires Running(trace, target, held, acts) && step.Launch?
    ensures Stopped(more, held, acts, acts + Planned(step))
    ensures ok ==> Running(more, newTarget, held, acts + Planned(step)) && newTarget == None
    ensures !ok ==> Halts(more)
    ensures trace <= more && SentBy(more[|trace|..], step)
  {
    var reply;
    more, reply := Do(env, trace, LaunchProcess(step.program, step.args, step.how), target, held, acts);
    ok := reply.ok;
    newTarget := if ok then None else target;
  }

  /** The end of holding a key down. */
  method ReleaseStep(env: Env, trace: seq<Event>, target: Option<nat>, held: seq<string>, step: Step, ghost acts: seq<Call>)
    returns (more: seq<Event>, newHeld: seq<string>, ok: bool)
    requires Running(trace, target, held, acts) && step.Release?
    ensures Stopped(more, newHeld, acts, acts + Planned(step)) && newHeld == HeldOn(held, step)
    ensures ok ==> Running(more, target, newHeld, acts + Planned(step))
    ensures !ok ==> Halts(more)
    ensures trace <= more && SentBy(more[|trace|..], step)
  {
    newHeld := Without(held, step.key);
    var reply;
    more, reply := Do(env, trace, ReleaseKey(step.key), target, held, acts);
    ok := reply.ok;
  }

  /** A wait for a file, or Verbatim's menu. */
  method WaitStep(env: Env, trace: seq<Event>, target: Option<nat>, ghost held: seq<string>, step: Step, ghost acts: seq<Call>)
    returns (more: seq<Event>, ok: bool)
    requires Running(trace, target, held, acts) && (step.WaitFile? || step.OpenMenu?)
    ensures Stopped(more, held, acts, acts + Planned(step))
    ensures ok ==> Running(more, target, held, acts + Planned(step))
    ensures !ok ==> Halts(more)
    ensures ok ==> trace <= more && SentBy(more[|trace|..], step)
  {
    var reply;
    if step.WaitFile? {
      more, reply := Do(env, trace, WaitForFile(step.path), target, held, acts);
      ok := reply.ok && reply.yes;
    } else {
      more, reply := Do(env, trace, OpenVerbatimMenu, target, held, acts);
      ok := reply.ok;
    }
  }

  method RunStep(env: Env, trace: seq<Event>, target: Option<nat>, held: seq<string>, step: Step, ghost acts: seq<Call>)
    returns (more: seq<Event>, newTarget: Option<nat>, newHeld: seq<string>, ok: bool)
    requires Running(trace, target, held, acts)
    ensures Stopped(more, newHeld, acts, acts + Planned(step))
    ensures ok ==> Running(more, newTarget, newHeld, acts + Planned(step)) && newHeld == HeldOn(held, step)
    ensures ok <==> !Halted(more, step)
    ensures ok ==> trace <= more && SentBy(more[|trace|..], step)
    ensures ok && step.Front? ==> Brought(more, step.image, step.title, newTarget)
    ensures ok && step.Launch? ==> newTarget == None
    ensures ok && !step.Front? && !step.Launch? ==> newTarget == target
    ensures ok ==> newHeld == if step.Hold? then held + [step.key] else if step.Release? then Without(held, step.key) else held
  {
    newTarget, newHeld := target, held;
    match step
    case Front(image, title) =>
      more, newTarget, ok := BringForward(env, trace, image, title, target, held, acts);
      assert acts + [] == acts;
    case Key(_) | Type(_) | Hold(_) =>
      more, newHeld, ok := SendStep(env, trace, target, held, step, acts);
    case Launch(_, _, _) =>
      more, newTarget, ok := LaunchStep(env, trace, target, held, step, acts);
    case Release(_) =>
      more, newHeld, ok := ReleaseStep(env, trace, target, held, step, acts);
    case WaitFile(_) | OpenMenu =>
      more, ok := WaitStep(env, trace, target, held, step, acts);
    if ok { RunningGoesOn(more, newTarget, newHeld, acts + Planned(step), step); }
  }

  /** A run that goes on has no reason to stop. */
  lemma RunningGoesOn(trace: seq<Event>, target: Option<nat>, held: seq<string>, acts: seq<Call>, step: Step)
    requires Running(trace, target, held, acts) && (step.Front? ==> !trace[|trace| - 1].call.ForegroundInfo?)
    ensures !Halted(trace, step)
  {
  }

  /** A step, then the wait until speech settles. */
  method StepAndSettle(env: Env, trace: seq<Event>, target: Option<nat>, held: seq<string>, step: Step,
                       ghost acts: seq<Call>)
    returns (more: seq<Event>, newTarget: Option<nat>, newHeld: seq<string>, ok: bool)
    requires Running(trace, target, held, acts)
    ensures Stopped(more, newHeld, acts, acts + Planned(step))
    ensures ok ==> Running(more, newTarget, newHeld, acts + Planned(step)) && newHeld == HeldOn(held, step)
    ensures ok <==> !Halted(more, step)
  {
    more, newTarget, newHeld, ok := RunStep(env, trace, target, held, step, acts);
    if ok {
      var reply;
      more, reply := AskQuietly(env, more, Settle, newTarget, newHeld, acts + Planned(step));
      ok := reply.ok;
      if ok { RunningGoesOn(more, newTarget, newHeld, acts + Planned(step), step); }
    }
  }

  // ---- The capture ----

  /** The run stops in step `k`: the steps before it were done, none after it
      begun, and there is a reason. */
  ghost predicate HaltedIn(trace: seq<Event>, steps: seq<Step>, k: nat) {
    && k < |steps| && Halted(trace, steps[k])
    && PlannedAll(steps[..k]) <= Acts(trace) && Acts(trace) <= PlannedAll(steps[..k + 1])
  }

  method RunSteps(env: Env, trace: seq<Event>, target: Option<nat>, steps: seq<Step>)
    returns (more: seq<Event>, newTarget: Option<nat>, held: seq<string>, ok: bool)
    requires Running(trace, target, [], [])
    ensures Stopped(more, held, [], PlannedAll(steps)) && more != []
    ensures ok ==> Running(more, newTarget, held, PlannedAll(steps)) && held == HeldBy(steps)
    ensures !ok ==> exists k :: HaltedIn(more, steps, k)
  {
    more, newTarget, held, ok := trace, target, [], true;
    for k := 0 to |steps|
      invariant ok && Running(more, newTarget, held, PlannedAll(steps[..k])) && held == HeldBy(steps[..k])
    {
      PlannedSnoc(steps, k);
      more, newTarget, held, ok := StepAndSettle(env, more, newTarget, held, steps[k], PlannedAll(steps[..k]));
      if !ok {
        PlannedGrows(steps, k + 1);
        assert HaltedIn(more, steps, k);
        StoppedWithin(more, held, PlannedAll(steps[..k]), PlannedAll(steps[..k + 1]), [], PlannedAll(steps));
        return;
      }
    }
    assert steps[..|steps|] == steps;
  }

  lemma PlannedSnoc(steps: seq<Step>, k: nat)
    requires k < |steps|
    ensures PlannedAll(steps[..k + 1]) == PlannedAll(steps[..k]) + Planned(steps[k])
    ensures HeldBy(steps[..k + 1]) == HeldOn(HeldBy(steps[..k]), steps[k])
  {
    assert steps[..k + 1][..k] == steps[..k];
  }

  lemma {:induction false} PlannedGrows(steps: seq<Step>, k: nat)
    requires k <= |steps|
    ensures PlannedAll(steps[..k]) <= PlannedAll(steps)
  {
    if k == |steps| {
      assert steps[..k] == steps;
    } else {
      var before := steps[..|steps| - 1];
      PlannedGrows(before, k);
      assert before[..k] == steps[..k];
    }
  }

  /** Every key pressed is released, whatever was done before it. */
  ghost predicate Safe(trace: seq<Event>, held: seq<string>) {
    Guarded(trace) && Quiet(trace) && AllHeld(trace, held)
  }

  lemma ReleasesStep(held: seq<string>, k: nat, acts: seq<Call>)
    requires k < |held|
    ensures (acts + ReleasesFrom(held, k + 1)) + [ReleaseKey(held[k])] == acts + ReleasesFrom(held, k)
  {
  }

  /** `trace`, and after it nothing but releases. */
  ghost predicate ThenReleases(more: seq<Event>, trace: seq<Event>) {
    trace <= more && forall i :: |trace| <= i < |more| ==> more[i].call.ReleaseKey?
  }

  lemma ReleasedMore(before: seq<Event>, trace: seq<Event>, more: seq<Event>)
    requires ThenReleases(before, trace) && |more| == |before| + 1 && more[..|before|] == before
    requires more[|before|].call.ReleaseKey?
    ensures ThenReleases(more, trace)
  {
    assert more[..|before|][..|trace|] == more[..|trace|];
  }

  ghost predicate StoppedInStep(trace: seq<Event>, steps: seq<Step>) {
    exists before, k :: ThenReleases(trace, before) && HaltedIn(before, steps, k)
  }

  /** Why a capture fails: the first look did; or a step was stopped, after which
      keys were only released; or all was done and the last look missed. */
  ghost predicate Reason(trace: seq<Event>, steps: seq<Step>) {
    || (|trace| == 1 && Failing(trace[0]))
    || StoppedInStep(trace, steps)
    || (&& |trace| > 1 && Misses(trace[|trace| - 1], TargetOf(trace[..|trace| - 1]))
        && Acts(trace) == PlannedAll(steps) + Releases(HeldBy(steps)))
  }

  method ReleaseOne(env: Env, trace: seq<Event>, held: seq<string>, k: nat) returns (more: seq<Event>)
    requires k < |held| && Safe(trace, held[..k + 1]) && trace != []
    ensures Safe(more, held[..k]) && more != [] && TargetOf(more) == TargetOf(trace)
    ensures Acts(more) == Acts(trace) + [ReleaseKey(held[k])]
    ensures |more| == |trace| + 1 && more[..|trace|] == trace && more[|trace|].call.ReleaseKey?
  {
    var reply;
    more, reply := Ask(env, trace, ReleaseKey(held[k]));
    ghost var e := Event(ReleaseKey(held[k]), reply);
    ActsSnoc(trace, e);
    GuardedSnoc(trace, e);
    AllHeldSnoc(trace, held[..k + 1], e, held[..k]);
    QuietSnoc(trace, e);
    TargetSnoc(trace, e);
  }

  method ReleaseAll(env: Env, trace: seq<Event>, held: seq<string>) returns (more: seq<Event>)
    requires Safe(trace, held) && trace != []
    ensures Safe(more, []) && more != [] && TargetOf(more) == TargetOf(trace)
    ensures Acts(more) == Acts(trace) + Releases(held) && ThenReleases(more, trace)
  {
    more := trace;
    assert held[..|held|] == held;
    for k := |held| downto 0
      invariant Safe(more, held[..k]) && more != [] && TargetOf(more) == TargetOf(trace)
      invariant Acts(more) == Acts(trace) + ReleasesFrom(held, k) && ThenReleases(more, trace)
    {
      ReleasesStep(held, k, Acts(trace));
      ghost var before := more;
      more := ReleaseOne(env, more, held, k);
      ReleasedMore(before, trace, more);
    }
    assert held[..0] == [];
  }

  /** Every key, character and hold a capture sends comes just after an answer
      that shows its window in front and responding, and none after an answer that
      does not until a window is brought forward; nothing is sent after a call that
      failed; every key pressed down is released; and what is done is what the
      steps say, as far as the run got, then the release of the keys held, the
      last first. It succeeds only when all was done and its window is in front
      at the end. */
  method Capture(env: Env, steps: seq<Step>)
    returns (trace: seq<Event>, ok: bool, ghost done: seq<Call>, ghost held: seq<string>)
    ensures Guarded(trace) && Quiet(trace)
    ensures forall i, key :: 0 <= i < |trace| && Pressed(trace[i], key) ==> ReleasedAfter(trace, i, key)
    ensures Acts(trace) == done + Releases(held) && done <= PlannedAll(steps)
    ensures ok ==> done == PlannedAll(steps) && held == HeldBy(steps)
    ensures ok ==> |trace| > 1 && Shows(trace[|trace| - 1], TargetOf(trace[..|trace| - 1]))
    ensures !ok ==> Reason(trace, steps)
    ensures forall i :: 0 <= i < |trace| && (trace[i].call.SendKeys? || trace[i].call.TypeText? || trace[i].call.PressKey?) ==>
              && i > 0 && trace[i - 1].call.ForegroundInfo? && trace[i - 1].reply.ok && trace[i - 1].reply.front.Some?
              && Some(trace[i - 1].reply.front.value.window) == TargetOf(trace[..i])
              && !trace[i - 1].reply.front.value.hung
    ensures ok ==> && trace[|trace| - 1].call.ForegroundInfo?
                   && var look := trace[|trace| - 1].reply;
                      && look.ok && look.front.Some? && !look.front.value.hung
                      && Some(look.front.value.window) == TargetOf(trace[..|trace| - 1])
    ensures forall i, j :: 0 <= i < j < |trace| && (trace[j].call.SendKeys? || trace[j].call.TypeText? || trace[j].call.PressKey?) ==>
              && trace[i].reply.ok
              && (trace[i].call.WaitForFile? || trace[i].call.SetForeground? ==> trace[i].reply.yes)
    ensures forall i :: 0 <= i < |trace| && trace[i].call.PressKey? && trace[i].reply.ok ==>
              exists j :: i < j < |trace| && trace[j].call == ReleaseKey(trace[i].call.key)
  {
    trace, ok, done, held := RunCapture(env, steps);
    GuardedMeans(trace);
    PressedMeans(trace);
  }

  /** The look at the start, the steps, the releases and the look at the end. */
  method RunCapture(env: Env, steps: seq<Step>)
    returns (trace: seq<Event>, ok: bool, ghost done: seq<Call>, ghost held: seq<string>)
    ensures Guarded(trace) && Quiet(trace)
    ensures AllHeld(trace, [])
    ensures Acts(trace) == done + Releases(held) && done <= PlannedAll(steps)
    ensures ok ==> done == PlannedAll(steps) && held == HeldBy(steps)
    ensures ok ==> |trace| > 1 && Shows(trace[|trace| - 1], TargetOf(trace[..|trace| - 1]))
    ensures !ok ==> Reason(trace, steps)
  {
    var reply;
    trace, reply := Ask(env, [], ForegroundInfo);
    Started(reply);
    done, held := [], [];
    if !reply.ok { return trace, false, [], []; }
    var target := Handle(reply.front);
    trace, target, ok, done, held := RunAndRelease(env, trace, target, steps);
    if ok { trace, ok := CheckEnd(env, trace, target); }
  }

  lemma PressedMeans(trace: seq<Event>)
    requires AllHeld(trace, [])
    ensures forall i :: 0 <= i < |trace| && trace[i].call.PressKey? && trace[i].reply.ok ==>
              exists j :: i < j < |trace| && trace[j].call == ReleaseKey(trace[i].call.key)
  {
    forall i | 0 <= i < |trace| && trace[i].call.PressKey? && trace[i].reply.ok
      ensures exists j :: i < j < |trace| && trace[j].call == ReleaseKey(trace[i].call.key)
    {
      var key := trace[i].call.key;
      assert Pressed(trace[i], key) && ReleasedAfter(trace, i, key);
      var j :| i < j < |trace| && trace[j].call == ReleaseKey(key);
    }
  }

  /** The steps, as far as they go, and the release of the keys held. */
  method RunAndRelease(env: Env, trace: seq<Event>, target: Option<nat>, steps: seq<Step>)
    returns (more: seq<Event>, newTarget: Option<nat>, ok: bool, ghost done: seq<Call>, ghost held: seq<string>)
    requires Running(trace, target, [], [])
    ensures Safe(more, []) && more != []
    ensures Acts(more) == done + Releases(held) && done <= PlannedAll(steps)
    ensures ok ==> TargetOf(more) == newTarget && done == PlannedAll(steps) && held == HeldBy(steps)
    ensures !ok ==> StoppedInStep(more, steps)
  {
    var stillHeld;
    more, newTarget, stillHeld, ok := RunSteps(env, trace, target, steps);
    done, held := Acts(more), stillHeld;
    ghost var before := more;
    more := ReleaseAll(env, more, stillHeld);
    if !ok {
      ghost var k :| HaltedIn(before, steps, k);
      assert ThenReleases(more, before) && HaltedIn(before, steps, k);
    }
  }

  /** The last look at the window in front. */
  method CheckEnd(env: Env, trace: seq<Event>, target: Option<nat>) returns (more: seq<Event>, ok: bool)
    requires Safe(trace, []) && trace != []
    ensures Safe(more, []) && Acts(more) == Acts(trace)
    ensures |more| > 1 && more[..|more| - 1] == trace && more[|more| - 1].call.ForegroundInfo?
    ensures ok <==> Shows(more[|more| - 1], target)
    ensures ok <==> var look := more[|more| - 1].reply;
                    look.ok && look.front.Some? && target == Some(look.front.value.window) && !look.front.value.hung
  {
    var reply;
    more, reply := Ask(env, trace, ForegroundInfo);
    ghost var e := Event(ForegroundInfo, reply);
    ActsSnoc(trace, e);
    GuardedSnoc(trace, e);
    AllHeldSnoc(trace, [], e, []);
    QuietSnoc(trace, e);
    ok := reply.ok && InFront(target, reply.front);
  }

  lemma Started(reply: Reply)
    ensures ghost var trace := [Event(ForegroundInfo, reply)];
            && Stopped(trace, [], [], [])
            && (reply.ok ==> Running(trace, Handle(reply.front), [], []))
  {
    var trace := [Event(ForegroundInfo, reply)];
    assert Guarded(trace) by {
      assert GuardedAt(trace, 0);
    }
    assert trace[..0] == [];
    assert Acts(trace) == [];
  }
}
