/**
 * The frame-dispatch protocol of the render farm, as a state machine over values.
 *
 * The command loop keeps one frame counter (`renderFrame`, -1 before the first
 * grant) and answers four kinds of request: `getBsz` (the scene file),
 * `readyImage` (the counter), `getFragment` (advance the counter and grant that
 * frame, with its camera transform) and anything else (a SHA-256 checksum of
 * the scene file). Every reply echoes the requester's identity and an empty
 * delimiter frame. The image loop stores each received image as `<id>.png`,
 * answers "ok" and stamps a finish time under its own counter, which stays -1.
 *
 * The class in networking.dfy is proved to follow these functions; the lemmas
 * here state what the protocol promises.
 */
module Dispatch {
  import opened Wrappers
  import opened Formatting

  const MaxWorkers := 10
  const MaxFrames := 10
  /** `new Guid(byte[])` accepts exactly this many bytes. */
  const GuidLength := 16
  const NotAssigned := "not assigned"
  const Standby := "standby"
  const SendingBsz := "Sending .bsz"
  const FragmentTrailer := "ee: "
  const ImageAck := "ok"
  const PngExtension := ".png"
  /** The image loop's own frame counter: set to -1 and never advanced. */
  const ImageLoopFrame := -1
  const CommandChannelCrash := "Exception in CommandChannel"

  /** One part of a multi-part message. */
  datatype Frame = Text(text: string) | Blob(bytes: seq<byte>)

  /** What one turn of a loop does: nothing (farm off), send a reply, or end the process. */
  datatype Outcome = Idle | Sent(frames: seq<Frame>) | Crash(context: string)

  /** Worker id, start time and end time, each keyed by frame. */
  datatype Ledger = Ledger(workers: map<int, string>, starts: map<int, int>, ends: map<int, int>)

  datatype DispatchState = DispatchState(
    renderFrame: int32,
    renderfarm: bool,
    ledger: Ledger,
    files: map<string, seq<byte>>)

  /**
   * What the loops see of the world: the scene file's path, the serialised
   * camera transform of each frame, the SHA-256 digest and the text of a Guid.
   */
  datatype Environment = Environment(
    bellaFile: string,
    transform: int -> string,
    sha256: seq<byte> -> seq<byte>,
    guid: seq<byte> -> string)

  /** The frames 0..n-1, each mapped to `v`. */
  function Slots<V>(n: nat, v: V): (m: map<int, V>)
    ensures forall k :: k in m <==> 0 <= k < n
    ensures forall k | k in m :: m[k] == v
  {
    if n == 0 then map[] else Slots(n - 1, v)[n - 1 := v]
  }

  function InitialLedger(): Ledger {
    Ledger(Slots(MaxWorkers, NotAssigned), Slots(MaxWorkers, 0), Slots(MaxWorkers, 0))
  }

  /** A new dispatcher over the files on `disk`: farm off, no frame granted. */
  function InitialState(disk: map<string, seq<byte>>): DispatchState {
    DispatchState(-1, false, InitialLedger(), disk)
  }

  /** After construction each ledger has exactly the frames 0..9, unassigned and with zero times. */
  lemma InitialLedgerShape()
    ensures forall k :: k in InitialLedger().workers <==> 0 <= k < MaxWorkers
    ensures forall k :: k in InitialLedger().starts <==> 0 <= k < MaxWorkers
    ensures forall k :: k in InitialLedger().ends <==> 0 <= k < MaxWorkers
    ensures forall k | 0 <= k < MaxWorkers ::
      && InitialLedger().workers[k] == NotAssigned
      && InitialLedger().starts[k] == 0
      && InitialLedger().ends[k] == 0
  {
  }

  // ---------------------------------------------------------------------
  // The handlers

  /** The routing prefix of every command reply: the requester's identity, then an empty frame. */
  function Header(identity: seq<byte>): seq<Frame> {
    [Blob(identity), Text("")]
  }

  function StandbyReply(identity: seq<byte>): Outcome {
    Sent(Header(identity) + [Text(Standby)])
  }

  /** The reply granting `frame`: its number, its camera transform and a trailer. */
  function GrantReply(identity: seq<byte>, frame: int, transform: int -> string): Outcome {
    Sent(Header(identity) + [Text(IntToString(frame)), Text(transform(frame)), Text(FragmentTrailer + IntToString(frame))])
  }

  /** `getBsz`: standby once the counter has reached the frame count, else the scene file read afresh. */
  function GetBszReply(identity: seq<byte>, renderFrame: int, files: map<string, seq<byte>>, bellaFile: string): Outcome {
    if renderFrame >= MaxFrames then StandbyReply(identity)
    else if bellaFile in files then Sent(Header(identity) + [Text(SendingBsz), Blob(files[bellaFile])])
    else Crash(CommandChannelCrash)
  }

  /** `readyImage`: the counter as decimal text. */
  function ReadyImageReply(identity: seq<byte>, renderFrame: int): Outcome {
    Sent(Header(identity) + [Text(IntToString(renderFrame))])
  }

  /** `getFragment`, given the counter after its increment. */
  function FragmentReply(identity: seq<byte>, frame: int, transform: int -> string): Outcome {
    if frame > MaxFrames then StandbyReply(identity) else GrantReply(identity, frame, transform)
  }

  /** Any other command: standby once the counter has reached the frame count, else the scene file's checksum. */
  function ChecksumReply(
    identity: seq<byte>, renderFrame: int, files: map<string, seq<byte>>, bellaFile: string,
    sha256: seq<byte> -> seq<byte>): Outcome
  {
    if renderFrame >= MaxFrames then StandbyReply(identity)
    else if bellaFile in files then Sent(Header(identity) + [Text(HexDigest(sha256(files[bellaFile])))])
    else Crash(CommandChannelCrash)
  }

  /** The counter after one `getFragment`: one more, except that the largest `int` wraps to the smallest. */
  function NextFrame(renderFrame: int32): int32 {
    if renderFrame < Int32Max then renderFrame + 1 else Int32Min
  }

  /** `NextFrame` is `renderFrame += 1` on a 32-bit `int` in an unchecked context. */
  lemma NextFrameIsUncheckedIncrement(renderFrame: int32)
    ensures NextFrame(renderFrame) == Wrap32(renderFrame + 1)
  {
    if renderFrame == Int32Max {
      var r := Wrap32(renderFrame + 1);
      assert (r - Int32Min) % TwoTo32 == 0;
    }
  }

  /** Records that `workerUuid` started `frame` at `now`. */
  function Assign(ledger: Ledger, frame: int, workerUuid: string, now: int): Ledger {
    ledger.(workers := ledger.workers[frame := workerUuid], starts := ledger.starts[frame := now])
  }

  /**
   * One turn of the command loop. With the farm off the loop only sleeps and
   * reads nothing, so an idle turn stands for a poll that receives nothing; a
   * request sent meanwhile waits in the socket queue and appears as a
   * `Command` event after the toggle.
   */
  function CommandStep(s: DispatchState, env: Environment, identity: seq<byte>, command: string, now: int): (DispatchState, Outcome) {
    if !s.renderfarm then (s, Idle)
    else if |identity| != GuidLength then (s, Crash(CommandChannelCrash))
    else if command == "getBsz" then (s, GetBszReply(identity, s.renderFrame, s.files, env.bellaFile))
    else if command == "readyImage" then (s, ReadyImageReply(identity, s.renderFrame))
    else if command == "getFragment" then
      var frame := NextFrame(s.renderFrame);
      var ledger := if frame > MaxFrames then s.ledger else Assign(s.ledger, frame, env.guid(identity), now);
      (s.(renderFrame := frame, ledger := ledger), FragmentReply(identity, frame, env.transform))
    else (s, ChecksumReply(identity, s.renderFrame, s.files, env.bellaFile, env.sha256))
  }

  /** One turn of the image loop. */
  function ImageStep(s: DispatchState, sframe: string, png: seq<byte>, now: int): (DispatchState, Outcome) {
    var files := s.files[sframe + PngExtension := png];
    var ledger := s.ledger.(ends := s.ledger.ends[ImageLoopFrame := now]);
    (s.(files := files, ledger := ledger), Sent([Text(ImageAck)]))
  }

  /** The operator's "Send to renderfarm" button. */
  function ToggleRenderfarm(s: DispatchState): DispatchState {
    s.(renderfarm := !s.renderfarm)
  }

  /** Whatever can happen next to the dispatcher. */
  datatype Event =
    | Toggle
    | Command(identity: seq<byte>, command: string, now: int)
    | Image(sframe: string, png: seq<byte>, now: int)

  function Step(s: DispatchState, env: Environment, e: Event): (DispatchState, Outcome) {
    match e
    case Toggle => (ToggleRenderfarm(s), Idle)
    case Command(identity, command, now) => CommandStep(s, env, identity, command, now)
    case Image(sframe, png, now) => ImageStep(s, sframe, png, now)
  }

  /** Runs the events in order; a crash ends the process, so nothing after it happens. */
  function Execute(s: DispatchState, env: Environment, events: seq<Event>): (DispatchState, seq<Outcome>)
    decreases |events|
  {
    if events == [] then (s, [])
    else
      var (next, out) := Step(s, env, events[0]);
      if out.Crash? then (next, [out])
      else
        var (last, outs) := Execute(next, env, events[1..]);
        (last, [out] + outs)
  }

  // ---------------------------------------------------------------------
  // One request

  /** Every command reply starts with the requester's identity and an empty frame, and has a payload. */
  lemma ReplyFraming(s: DispatchState, env: Environment, identity: seq<byte>, command: string, now: int)
    ensures CommandStep(s, env, identity, command, now).1.Idle? <==> !s.renderfarm
    ensures CommandStep(s, env, identity, command, now).1.Sent? ==>
      var frames := CommandStep(s, env, identity, command, now).1.frames;
      |frames| >= 3 && frames[..2] == Header(identity)
  {
  }

  /**
   * Only `getFragment` moves the counter, by one (32-bit) step; every other
   * command, and any request while the farm is off, changes no state at all.
   */
  lemma OnlyFragmentMovesCounter(s: DispatchState, env: Environment, identity: seq<byte>, command: string, now: int)
    ensures var next := CommandStep(s, env, identity, command, now).0;
      if s.renderfarm && |identity| == GuidLength && command == "getFragment" then
        && next.renderFrame == NextFrame(s.renderFrame)
        && (s.renderFrame < Int32Max ==> next.renderFrame == s.renderFrame + 1)
        && next.renderfarm && next.files == s.files && next.ledger.ends == s.ledger.ends
      else next == s
  {
    if s.renderfarm && |identity| == GuidLength && command == "getFragment" {
      var frame := NextFrame(s.renderFrame);
      var ledger := if frame > MaxFrames then s.ledger else Assign(s.ledger, frame, env.guid(identity), now);
      assert ledger.ends == s.ledger.ends;
      assert CommandStep(s, env, identity, command, now).0 == s.(renderFrame := frame, ledger := ledger);
    }
  }

  /**
   * The counter keeps growing after the frames run out: below the largest `int`,
   * a `getFragment` past the end still advances it by one.
   */
  lemma CounterGrowsAfterExhaustion(s: DispatchState, env: Environment, identity: seq<byte>, now: int)
    requires s.renderfarm && |identity| == GuidLength
    requires MaxFrames < s.renderFrame < Int32Max
    ensures CommandStep(s, env, identity, "getFragment", now).0.renderFrame == s.renderFrame + 1
    ensures CommandStep(s, env, identity, "getFragment", now).1 == StandbyReply(identity)
    ensures CommandStep(s, env, identity, "getFragment", now).0.ledger == s.ledger
  {
  }

  /**
   * `getFragment` grants the incremented counter while it is at most the frame
   * count, recording the worker and start time under that frame and nothing
   * else; past the frame count it answers standby and leaves the ledger alone.
   */
  lemma FragmentGrant(s: DispatchState, env: Environment, identity: seq<byte>, now: int)
    requires s.renderfarm && |identity| == GuidLength
    ensures var (next, out) := CommandStep(s, env, identity, "getFragment", now);
      var frame := next.renderFrame;
      if frame > MaxFrames then
        out == StandbyReply(identity) && next.ledger == s.ledger
      else
        && out == GrantReply(identity, frame, env.transform)
        && next.ledger.workers == s.ledger.workers[frame := env.guid(identity)]
        && next.ledger.starts == s.ledger.starts[frame := now]
        && next.ledger.ends == s.ledger.ends
  {
  }

  /** A grant changes no ledger entry except the granted frame's. */
  lemma GrantTouchesOnlyItsFrame(s: DispatchState, env: Environment, identity: seq<byte>, now: int, k: int)
    requires s.renderfarm && |identity| == GuidLength
    requires k != CommandStep(s, env, identity, "getFragment", now).0.renderFrame
    ensures var l := CommandStep(s, env, identity, "getFragment", now).0.ledger;
      && (k in l.workers <==> k in s.ledger.workers)
      && (k in l.workers ==> l.workers[k] == s.ledger.workers[k])
      && (k in l.starts <==> k in s.ledger.starts)
      && (k in l.starts ==> l.starts[k] == s.ledger.starts[k])
  {
  }

  /** A reply is standby, rather than a grant, exactly when the incremented counter exceeds the frame count. */
  lemma FragmentStandbyIff(identity: seq<byte>, frame: int, transform: int -> string)
    ensures FragmentReply(identity, frame, transform) == StandbyReply(identity) <==> frame > MaxFrames
  {
    if frame <= MaxFrames {
      assert |GrantReply(identity, frame, transform).frames| != |StandbyReply(identity).frames|;
    }
  }

  /** `getBsz` and the checksum command answer standby exactly when the counter has reached the frame count. */
  lemma SceneRepliesStandbyIff(
    identity: seq<byte>, renderFrame: int, files: map<string, seq<byte>>, bellaFile: string,
    sha256: seq<byte> -> seq<byte>)
    ensures GetBszReply(identity, renderFrame, files, bellaFile) == StandbyReply(identity) <==> renderFrame >= MaxFrames
    ensures ChecksumReply(identity, renderFrame, files, bellaFile, sha256) == StandbyReply(identity) <==> renderFrame >= MaxFrames
    ensures renderFrame < MaxFrames && bellaFile in files ==>
      GetBszReply(identity, renderFrame, files, bellaFile).frames[2..] == [Text(SendingBsz), Blob(files[bellaFile])]
    ensures renderFrame < MaxFrames && bellaFile in files ==>
      ChecksumReply(identity, renderFrame, files, bellaFile, sha256).frames[2..] == [Text(HexDigest(sha256(files[bellaFile])))]
    ensures renderFrame < MaxFrames && bellaFile !in files ==>
      GetBszReply(identity, renderFrame, files, bellaFile).Crash? &&
      ChecksumReply(identity, renderFrame, files, bellaFile, sha256).Crash?
  {
    if renderFrame < MaxFrames && bellaFile in files {
      var bsz := GetBszReply(identity, renderFrame, files, bellaFile);
      var sum := ChecksumReply(identity, renderFrame, files, bellaFile, sha256);
      assert bsz.frames[2] != Text(Standby);
      assert sum.frames[2] != Text(Standby) by {
        var hex := HexDigest(sha256(files[bellaFile]));
        HexDigestRoundTrip(sha256(files[bellaFile]));
        assert HexValue(Standby[0]).None?;
        assert ParseHex(Standby).None?;
        assert hex != Standby;
      }
    }
  }

  /**
   * The boundary off by one: from counter 9, `getFragment` still grants frame
   * 10 (a key the ledger did not have), while afterwards `getBsz` and the
   * checksum command already answer standby, and so does the next `getFragment`.
   */
  lemma FrameTenGrantedAfterStandbyBoundary(
    s: DispatchState, env: Environment, identity: seq<byte>, other: string, now: int, later: int)
    requires s.renderfarm && |identity| == GuidLength
    requires s.renderFrame == MaxFrames - 1
    requires other != "getBsz" && other != "readyImage" && other != "getFragment"
    ensures var (next, out) := CommandStep(s, env, identity, "getFragment", now);
      && next.renderFrame == MaxFrames
      && out == GrantReply(identity, MaxFrames, env.transform)
      && out.frames[2] == Text("10")
      && MaxFrames in next.ledger.workers
      && CommandStep(next, env, identity, "getBsz", later).1 == StandbyReply(identity)
      && CommandStep(next, env, identity, other, later).1 == StandbyReply(identity)
      && CommandStep(next, env, identity, "getFragment", later).1 == StandbyReply(identity)
  {
    assert IntToString(10) == "10" by {
      assert NatToString(10) == NatToString(1) + [DigitChar(0)];
    }
  }

  /** `readyImage` answers the counter as text; before any grant that text is "-1". */
  lemma ReadyImageReportsCounter(s: DispatchState, env: Environment, identity: seq<byte>, now: int)
    requires s.renderfarm && |identity| == GuidLength
    ensures CommandStep(s, env, identity, "readyImage", now).1.frames[2..] == [Text(IntToString(s.renderFrame))]
    ensures s.renderFrame == -1 ==> CommandStep(s, env, identity, "readyImage", now).1.frames[2] == Text("-1")
  {
    assert IntToString(-1) == "-" + NatToString(1);
  }

  /** A request whose identity is not 16 bytes cannot be turned into a Guid: the loop throws and the process ends. */
  lemma MalformedIdentityCrashes(s: DispatchState, env: Environment, identity: seq<byte>, command: string, now: int)
    requires s.renderfarm && |identity| != GuidLength
    ensures CommandStep(s, env, identity, command, now) == (s, Crash(CommandChannelCrash))
  {
  }

  /**
   * An image is stored verbatim under "<id>.png" and answered "ok"; the finish
   * time goes under key -1 and no other ledger entry changes, so the received
   * frame's own entry never gets one.
   */
  lemma ImageStampsOnlyMinusOne(s: DispatchState, sframe: string, png: seq<byte>, now: int, k: int)
    requires k != ImageLoopFrame
    ensures var (next, out) := ImageStep(s, sframe, png, now);
      && out == Sent([Text(ImageAck)])
      && next.files == s.files[sframe + PngExtension := png]
      && ImageLoopFrame in next.ledger.ends && next.ledger.ends[ImageLoopFrame] == now
      && (k in next.ledger.ends <==> k in s.ledger.ends)
      && (k in next.ledger.ends ==> next.ledger.ends[k] == s.ledger.ends[k])
      && next.ledger.workers == s.ledger.workers && next.ledger.starts == s.ledger.starts
      && next.renderFrame == s.renderFrame && next.renderfarm == s.renderfarm
  {
  }

  /**
   * Past the largest `int` the counter wraps to the smallest one, which passes
   * the `> MaxFrames` test: the dispatcher grants a negative frame.
   */
  lemma CounterWrapsToNegativeGrant(s: DispatchState, env: Environment, identity: seq<byte>, now: int)
    requires s.renderfarm && |identity| == GuidLength && s.renderFrame == Int32Max
    ensures var (next, out) := CommandStep(s, env, identity, "getFragment", now);
      && next.renderFrame == Int32Min
      && out == GrantReply(identity, Int32Min, env.transform)
      && Int32Min in next.ledger.workers
  {
  }

  // ---------------------------------------------------------------------
  // Sequences of requests

  /** Events that are all `getFragment` requests with well-formed identities. */
  ghost predicate AllFragmentRequests(events: seq<Event>) {
    forall i | 0 <= i < |events| ::
      events[i].Command? && events[i].command == "getFragment" && |events[i].identity| == GuidLength
  }

  /** One well-formed `getFragment` request with the farm on advances the counter by one and replies for the new frame. */
  lemma FragmentStepAdvances(s: DispatchState, env: Environment, e: Event)
    requires s.renderfarm && e.Command? && e.command == "getFragment" && |e.identity| == GuidLength
    requires s.renderFrame < Int32Max
    ensures Step(s, env, e).0.renderFrame == s.renderFrame + 1 && Step(s, env, e).0.renderfarm
    ensures Step(s, env, e).1 == FragmentReply(e.identity, s.renderFrame + 1, env.transform)
  {
  }

  /** Running a non-empty list whose first event does not crash: that event's reply, then the rest. */
  lemma ExecuteUnfold(s: DispatchState, env: Environment, events: seq<Event>)
    requires events != [] && !Step(s, env, events[0]).1.Crash?
    ensures var next := Step(s, env, events[0]).0;
      && Execute(s, env, events).0 == Execute(next, env, events[1..]).0
      && Execute(s, env, events).1 == [Step(s, env, events[0]).1] + Execute(next, env, events[1..]).1
  {
  }

  lemma AllFragmentRequestsTail(events: seq<Event>)
    requires events != [] && AllFragmentRequests(events)
    ensures AllFragmentRequests(events[1..])
  {
    forall i | 0 <= i < |events[1..]| ensures events[1..][i] == events[i + 1] { }
  }

  /** `outs` are the replies to the `getFragment` requests `events`, the first for frame `first`. */
  ghost predicate RepliesInOrder(outs: seq<Outcome>, events: seq<Event>, first: int, transform: int -> string)
    requires AllFragmentRequests(events)
  {
    && |outs| == |events|
    && forall i | 0 <= i < |events| :: outs[i] == FragmentReply(events[i].identity, first + i, transform)
  }

  lemma RepliesInOrderCons(out: Outcome, outs: seq<Outcome>, events: seq<Event>, first: int, transform: int -> string)
    requires events != [] && AllFragmentRequests(events)
    requires AllFragmentRequests(events[1..])
    requires out == FragmentReply(events[0].identity, first, transform)
    requires RepliesInOrder(outs, events[1..], first + 1, transform)
    ensures RepliesInOrder([out] + outs, events, first, transform)
  {
    forall i | 1 <= i < |events|
      ensures ([out] + outs)[i] == FragmentReply(events[i].identity, first + i, transform)
    {
      assert ([out] + outs)[i] == outs[i - 1];
      assert events[1..][i - 1] == events[i];
    }
  }

  /**
   * With the farm on, and as long as the counter cannot pass the largest `int`,
   * successive `getFragment` requests receive consecutive frames, each granted
   * or standby by the frame count.
   */
  lemma {:induction false} FragmentsInOrder(s: DispatchState, env: Environment, events: seq<Event>)
    requires s.renderfarm && AllFragmentRequests(events)
    requires s.renderFrame + |events| <= Int32Max
    ensures Execute(s, env, events).0.renderFrame == s.renderFrame + |events|
    ensures Execute(s, env, events).0.renderfarm
    ensures RepliesInOrder(Execute(s, env, events).1, events, s.renderFrame + 1, env.transform)
    decreases |events|
  {
    if events != [] {
      FragmentStepAdvances(s, env, events[0]);
      var next := Step(s, env, events[0]).0;
      AllFragmentRequestsTail(events);
      FragmentsInOrder(next, env, events[1..]);
      ExecuteUnfold(s, env, events);
      RepliesInOrderCons(Step(s, env, events[0]).1, Execute(next, env, events[1..]).1, events, s.renderFrame + 1, env.transform);
    }
  }

  /**
   * With the farm switched on, a new dispatcher grants frames 0, 1, ..., 10 in
   * order and then only standby, for runs of at most 2^31 - 1 requests; the next
   * one wraps the counter (`CounterWrapsToNegativeGrant`).
   */
  lemma FreshDispatcherGrantsZeroToTen(disk: map<string, seq<byte>>, env: Environment, events: seq<Event>)
    requires AllFragmentRequests(events) && |events| <= Int32Max
    ensures var outs := Execute(ToggleRenderfarm(InitialState(disk)), env, events).1;
      && |outs| == |events|
      && forall i | 0 <= i < |events| ::
           outs[i] == if i <= MaxFrames then GrantReply(events[i].identity, i, env.transform)
                      else StandbyReply(events[i].identity)
  {
    FragmentsInOrder(ToggleRenderfarm(InitialState(disk)), env, events);
  }

  // ---------------------------------------------------------------------
  // Invariants of every reachable state

  /**
   * The ledger's shape: worker and start maps share their keys, frames 0..9 are
   * always present, the end map only ever gains key -1, and the end time of a
   * real frame is never set by the loops.
   */
  ghost predicate LedgerShape(l: Ledger) {
    && l.workers.Keys == l.starts.Keys
    && (forall k | 0 <= k < MaxWorkers :: k in l.workers && k in l.ends)
    && (forall k | k in l.ends :: ImageLoopFrame <= k < MaxWorkers)
    && (forall k | 0 <= k < MaxWorkers :: l.ends[k] == 0)
  }

  /**
   * How far granting has got: the counter is at least -1, the worker keys are
   * 0..9 plus 10 once it has been granted, and frames beyond the counter are
   * still unassigned with a zero start time.
   */
  ghost predicate GrantProgress(s: DispatchState) {
    && -1 <= s.renderFrame
    && (forall k :: k in s.ledger.workers <==> 0 <= k < MaxWorkers || (k == MaxFrames && s.renderFrame >= MaxFrames))
    && (forall k | k in s.ledger.workers && k > s.renderFrame ::
          s.ledger.workers[k] == NotAssigned && k in s.ledger.starts && s.ledger.starts[k] == 0)
  }

  lemma InitialStateInvariants(disk: map<string, seq<byte>>)
    ensures LedgerShape(InitialState(disk).ledger) && GrantProgress(InitialState(disk))
  {
  }

  /** Every step keeps the ledger's shape. */
  lemma StepKeepsLedgerShape(s: DispatchState, env: Environment, e: Event)
    requires LedgerShape(s.ledger)
    ensures LedgerShape(Step(s, env, e).0.ledger)
  {
    if e.Command? && s.renderfarm && |e.identity| == GuidLength && e.command == "getFragment" {
      var frame := NextFrame(s.renderFrame);
      if frame <= MaxFrames {
        var l := Assign(s.ledger, frame, env.guid(e.identity), e.now);
        assert l.workers.Keys == s.ledger.workers.Keys + {frame};
        assert l.starts.Keys == s.ledger.starts.Keys + {frame};
      }
    }
  }

  /** Every step keeps the grant progress while the counter has not reached the largest `int`. */
  lemma StepKeepsGrantProgress(s: DispatchState, env: Environment, e: Event)
    requires LedgerShape(s.ledger) && GrantProgress(s) && s.renderFrame < Int32Max
    ensures GrantProgress(Step(s, env, e).0)
  {
    if e.Command? && s.renderfarm && |e.identity| == GuidLength && e.command == "getFragment" {
      var next := Step(s, env, e).0;
      assert next.renderFrame == s.renderFrame + 1;
      if next.renderFrame <= MaxFrames {
        assert next.ledger.workers.Keys == s.ledger.workers.Keys + {next.renderFrame};
      }
    }
  }

  /** The ledger keeps its shape through any run. */
  lemma {:induction false} ExecuteKeepsLedgerShape(s: DispatchState, env: Environment, events: seq<Event>)
    requires LedgerShape(s.ledger)
    ensures LedgerShape(Execute(s, env, events).0.ledger)
    decreases |events|
  {
    if events != [] {
      StepKeepsLedgerShape(s, env, events[0]);
      ExecuteKeepsLedgerShape(Step(s, env, events[0]).0, env, events[1..]);
    }
  }

  /** Grant progress holds through any run too short to take the counter past the largest `int`. */
  lemma {:induction false} ExecuteKeepsGrantProgress(s: DispatchState, env: Environment, events: seq<Event>)
    requires LedgerShape(s.ledger) && GrantProgress(s)
    requires s.renderFrame + |events| <= Int32Max
    ensures GrantProgress(Execute(s, env, events).0)
    ensures Execute(s, env, events).0.renderFrame <= s.renderFrame + |events|
    decreases |events|
  {
    if events != [] {
      var next := Step(s, env, events[0]).0;
      StepKeepsLedgerShape(s, env, events[0]);
      StepKeepsGrantProgress(s, env, events[0]);
      assert next.renderFrame <= s.renderFrame + 1;
      ExecuteKeepsGrantProgress(next, env, events[1..]);
    }
  }

  /**
   * From a new dispatcher, whatever happens, neither loop gives frames 0..9 a
   * finish time; and for runs of at most 2^31 - 1 events the worker ledger
   * holds exactly frames 0..9, plus frame 10 once the counter reaches it.
   */
  lemma ReachableLedger(disk: map<string, seq<byte>>, env: Environment, events: seq<Event>)
    ensures var l := Execute(InitialState(disk), env, events).0.ledger;
      forall k | 0 <= k < MaxWorkers :: k in l.ends && l.ends[k] == 0
    ensures |events| <= Int32Max ==>
      var last := Execute(InitialState(disk), env, events).0;
      forall k :: k in last.ledger.workers <==> 0 <= k < MaxWorkers || (k == MaxFrames && last.renderFrame >= MaxFrames)
  {
    InitialStateInvariants(disk);
    ExecuteKeepsLedgerShape(InitialState(disk), env, events);
    if |events| <= Int32Max {
      ExecuteKeepsGrantProgress(InitialState(disk), env, events);
    }
  }
}
