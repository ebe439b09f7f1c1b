/**
 * The `Networking` object: the frame counter of the command loop, the
 * render-farm switch, the three worker ledgers (updated in place) and the files
 * the loops read and write. Each method is one turn of a loop, or one handler,
 * and is proved to do what the `Dispatch` state machine says.
 */
module Networking {
  import opened Wrappers
  import opened Formatting
  import opened Dispatch

  class Networking {
    /** The command loop's frame counter; -1 until the first grant. */
    var renderFrame: int32
    /** Whether the command loop serves requests (the GUI's "Send to renderfarm" button). */
    var renderfarm: bool
    var workerDictionary: map<int, string>
    var workerStart: map<int, int>
    var workerEnd: map<int, int>
    /** The working directory: file name to contents. */
    var files: map<string, seq<byte>>

    /** The scene file the command loop serves. */
    const bellaFile: string
    /** The serialised camera transform of a frame, computed by the camera animation. */
    const transform: int -> string
    const sha256: seq<byte> -> seq<byte>
    /** `new Guid(identity).ToString()`. */
    const guid: seq<byte> -> string

    ghost function State(): DispatchState
      reads this
    {
      DispatchState(renderFrame, renderfarm, Ledger(workerDictionary, workerStart, workerEnd), files)
    }

    function Env(): Environment {
      Environment(bellaFile, transform, sha256, guid)
    }

    /**
     * The object invariant: the worker ledgers keep their shape (frames 0..9
     * present, finish times only under -1). The constructor establishes it and
     * every loop turn and the toggle keep it.
     */
    ghost predicate Valid()
      reads this
    {
      LedgerShape(State().ledger)
    }

    /** Fills each ledger with frames 0..9: "not assigned" and zero times. */
    constructor (
      bellaFile: string, transform: int -> string, sha256: seq<byte> -> seq<byte>,
      guid: seq<byte> -> string, disk: map<string, seq<byte>>)
      ensures State() == InitialState(disk) && Valid()
      ensures this.bellaFile == bellaFile && this.transform == transform
      ensures this.sha256 == sha256 && this.guid == guid
      ensures forall k :: k in workerDictionary <==> 0 <= k < MaxWorkers
      ensures forall k | k in workerDictionary :: workerDictionary[k] == NotAssigned
      ensures workerStart == workerEnd && forall k | k in workerStart :: workerStart[k] == 0
      ensures workerStart.Keys == workerDictionary.Keys
    {
      this.bellaFile := bellaFile;
      this.transform := transform;
      this.sha256 := sha256;
      this.guid := guid;
      var workers: map<int, string> := map[];
      var starts: map<int, int> := map[];
      var ends: map<int, int> := map[];
      var c := 0;
      while c < MaxWorkers
        invariant 0 <= c <= MaxWorkers
        invariant workers == Slots(c, NotAssigned)
        invariant starts == Slots(c, 0) && ends == Slots(c, 0)
      {
        // Dictionary.Add: the key is new
        assert c !in workers && c !in starts && c !in ends;
        workers := workers[c := NotAssigned];
        starts := starts[c := 0];
        ends := ends[c := 0];
        c := c + 1;
      }
      renderFrame := -1;
      renderfarm := false;
      workerDictionary, workerStart, workerEnd := workers, starts, ends;
      files := disk;
      InitialStateInvariants(disk);
    }

    /** The "Send to renderfarm" button flips the switch. */
    method ToggleRenderfarm()
      requires Valid()
      modifies this`renderfarm
      ensures State() == Dispatch.ToggleRenderfarm(old(State()))
      ensures Valid()
    {
      renderfarm := !renderfarm;
    }

    /** One turn of the command loop: idle while the farm is off, else dispatch on the command. */
    method CommandLoopStep(identity: seq<byte>, command: string, now: int) returns (out: Outcome)
      requires Valid()
      modifies this`renderFrame, this`workerDictionary, this`workerStart
      ensures (State(), out) == CommandStep(old(State()), Env(), identity, command, now)
      ensures Valid()
    {
      StepKeepsLedgerShape(State(), Env(), Command(identity, command, now));
      if !renderfarm {
        return Idle;
      }
      if |identity| != GuidLength {
        // new Guid(identity) throws; the loop logs and exits the process
        return Crash(CommandChannelCrash);
      }
      var workerUuid := guid(identity);
      if command == "getBsz" {
        out := HandleGetBszCommand(identity, renderFrame);
      } else if command == "readyImage" {
        out := HandleReadyImageCommand(identity, renderFrame);
      } else if command == "getFragment" {
        var next;
        out, next := HandleGetFragmentCommand(identity, renderFrame, workerUuid, now);
        renderFrame := next;
      } else {
        out := HandleDefaultCommand(identity, renderFrame);
      }
    }

    method HandleGetBszCommand(identity: seq<byte>, renderFrame: int) returns (out: Outcome)
      ensures out == GetBszReply(identity, renderFrame, files, bellaFile)
    {
      var sent := [Blob(identity)];
      sent := sent + [Text("")];
      if renderFrame >= MaxFrames {
        out := Sent(sent + [Text(Standby)]);
      } else {
        sent := sent + [Text(SendingBsz)];
        if bellaFile !in files {
          // File.ReadAllBytes throws
          return Crash(CommandChannelCrash);
        }
        var byteFile := files[bellaFile];
        out := Sent(sent + [Blob(byteFile)]);
      }
    }

    method HandleReadyImageCommand(identity: seq<byte>, renderFrame: int) returns (out: Outcome)
      ensures out == ReadyImageReply(identity, renderFrame)
    {
      var sent := [Blob(identity)];
      sent := sent + [Text("")];
      out := Sent(sent + [Text(IntToString(renderFrame))]);
    }

    /** Advances the counter and grants the new frame, or answers standby past the last one. */
    method HandleGetFragmentCommand(identity: seq<byte>, renderFrame: int32, workerUuid: string, now: int)
      returns (out: Outcome, next: int32)
      modifies this`workerDictionary, this`workerStart
      ensures next == NextFrame(renderFrame)
      ensures out == FragmentReply(identity, next, transform)
      ensures next > MaxFrames ==> workerDictionary == old(workerDictionary) && workerStart == old(workerStart)
      ensures next <= MaxFrames ==>
        && workerDictionary == old(workerDictionary)[next := workerUuid]
        && workerStart == old(workerStart)[next := now]
    {
      var sent := [Blob(identity)];
      sent := sent + [Text("")];
      assert sent == Header(identity);
      // renderFrame += 1 on an int (see NextFrameIsUncheckedIncrement)
      next := NextFrame(renderFrame);
      if next > MaxFrames {
        out := Sent(sent + [Text(Standby)]);
      } else {
        var transformData := PrepareRenderingData(next, workerUuid, now);
        sent := sent + [Text(IntToString(next))];
        sent := sent + [Text(transformData)];
        out := Sent(sent + [Text(FragmentTrailer + IntToString(next))]);
      }
    }

    /** The camera transform of `renderFrame`, recording who renders it and since when. */
    method PrepareRenderingData(renderFrame: int, workerUuid: string, now: int) returns (transformData: string)
      modifies this`workerDictionary, this`workerStart
      ensures transformData == transform(renderFrame)
      ensures workerDictionary == old(workerDictionary)[renderFrame := workerUuid]
      ensures workerStart == old(workerStart)[renderFrame := now]
    {
      transformData := transform(renderFrame);
      workerDictionary := workerDictionary[renderFrame := workerUuid];
      workerStart := workerStart[renderFrame := now];
    }

    /** Any other command: the checksum of the scene file. */
    method HandleDefaultCommand(identity: seq<byte>, renderFrame: int) returns (out: Outcome)
      ensures out == ChecksumReply(identity, renderFrame, files, bellaFile, sha256)
    {
      var sent := [Blob(identity)];
      sent := sent + [Text("")];
      if renderFrame >= MaxFrames {
        out := Sent(sent + [Text(Standby)]);
      } else {
        if bellaFile !in files {
          // File.OpenRead throws
          return Crash(CommandChannelCrash);
        }
        var checksum := sha256(files[bellaFile]);
        out := Sent(sent + [Text(HexDigest(checksum))]);
      }
    }

    /** One turn of the image loop: store the image, answer "ok", stamp the finish time. */
    method ImageLoopStep(sframe: string, png: seq<byte>, now: int) returns (out: Outcome)
      requires Valid()
      modifies this`files, this`workerEnd
      ensures (State(), out) == ImageStep(old(State()), sframe, png, now)
      ensures Valid()
    {
      StepKeepsLedgerShape(State(), Env(), Image(sframe, png, now));
      files := files[sframe + PngExtension := png];
      out := Sent([Text(ImageAck)]);
      // keyed by the image loop's own counter, which is never advanced
      workerEnd := workerEnd[ImageLoopFrame := now];
    }
  }
}
