# Render-farm dispatcher: frame dispatch, worker ledger and command line

This project models the sequential core of a small render-farm coordinator written in C#. The coordinator hands out the frames of a camera animation to remote render workers.

The **command loop** (`Networking.CommandChannelAsync`) keeps a frame counter that starts at -1. While the operator has switched the farm on, it reads a worker's identity and a command and answers with a multi-part reply:

- `getBsz` sends the scene file.
- `readyImage` sends the counter.
- `getFragment` advances the counter and grants that frame with its camera transform.
- Any other command sends the SHA-256 checksum of the scene file as upper-case hexadecimal.

Granting a frame records the worker and the start time in two ledgers keyed by frame. The **image loop** (`Networking.ImageChannelAsync`) stores each received image as `<id>.png`, answers `ok` and stamps a finish time in a third ledger. It uses its own counter, which stays -1, so the key is always -1.

The **command line** (`Program.ParseCommandLineArguments`) takes a Bella scene file (`.bsz`, `.bsa` or `.bsx`, in any case) and an optional `-p`/`--port` value. The port is parsed and stored but never used: both loops bind fixed ports (Networking.cs:78, 118).

The project has five modules:

- `Wrappers`: `Option` and `Result`.
- `Formatting`: the .NET conversions the code relies on:
  - 32-bit `int` wrap-around;
  - `Int32.ToString()`;
  - `int.TryParse`;
  - `BitConverter.ToString(...).Replace("-", "")`.
- `Dispatch`: the dispatch protocol as a state machine over values (`DispatchState`, `CommandStep`, `ImageStep`, `Execute`). It holds the lemmas that state what the protocol promises for one request and for any run of requests.
- `Networking`: the class `Networking`, with the source's mutable state as fields:
  - the frame counter;
  - the render-farm switch;
  - the three ledgers as `map`s;
  - the working directory as a `map<string, seq<byte>>`.

  Each handler and each loop turn is a method, proved to change the fields and to reply exactly as the `Dispatch` functions say. The constructor establishes the ledger invariant `Valid()`. The two loop turns and the toggle require it and keep it.
- `CommandLine`: the argument-scanning loop as a method. It is proved equal to a declarative reading (`ParsedArguments`). Lemmas about that reading state which scene file, which port and which error the parser produces.

Two behaviours that look unintended are kept as the code has them:

- The code grants eleven frames, 0 through 10, before answering standby (`> MAX_FRAMES` at Networking.cs:202), not `MAX_FRAMES` frames. Frame 10 is a ledger key that construction did not create.
- The image loop stamps the finish time under key -1 (Networking.cs:80, 98), not under the received frame.

## Model

| member | source | states |
|---|---|---|
| Networking.Networking.constructor | Networking.cs:57-68 | The loop fills the three ledgers with exactly the frames 0..9. Every worker entry is "not assigned" and every start and end time is 0. The counter is -1 and the farm is off. The ledger invariant holds. |
| Dispatch.InitialLedgerShape | Networking.cs:63-67 | Each of the three initial ledgers has exactly the keys 0..9. The worker map holds "not assigned" and the time maps hold 0. |
| Networking.Networking.ToggleRenderfarm | Silk.cs:349 | The "Send to renderfarm" button flips the switch, changes nothing else and keeps the ledger invariant. The button is drawn only in preview mode, that is while the farm is off (Silk.cs:284-288, 315), so the program never switches the farm back off. The model also allows switching it off, which is a superset of the program's behaviour. |
| Networking.Networking.CommandLoopStep | Networking.cs:120-150 | One turn of the command loop changes the counter and the ledgers, and produces its reply, exactly as `Dispatch.CommandStep` says. It requires and keeps the ledger invariant. |
| Networking.Networking.HandleGetBszCommand | Networking.cs:167-178 | The reply is the identity and an empty frame, then "standby" once the counter is at least 10. Otherwise it is "Sending .bsz" and the scene file's bytes. A missing scene file ends the process. |
| Networking.Networking.HandleReadyImageCommand | Networking.cs:183-189 | The reply is the identity, an empty frame and the counter's decimal text. |
| Networking.Networking.HandleGetFragmentCommand | Networking.cs:195-214 | The new counter is the old one plus one, with 32-bit wrap-around. Above 10 the reply is standby and the ledgers are untouched. Otherwise the reply carries the frame number, its transform and the "ee: " trailer, and only the granted frame's worker and start entries change. |
| Networking.Networking.PrepareRenderingData | Networking.cs:220-246 | Returns the frame's camera transform. It records the worker id and the start time under that frame and changes no other entry. |
| Networking.Networking.HandleDefaultCommand | Networking.cs:251-266 | The reply is standby once the counter is at least 10. Otherwise it is the upper-case hexadecimal SHA-256 digest of the scene file. A missing scene file ends the process. |
| Networking.Networking.ImageLoopStep | Networking.cs:80-98 | One turn of the image loop stores the image verbatim under "<id>.png", answers "ok" and sets the end time under key -1, exactly as `Dispatch.ImageStep` says. It requires and keeps the ledger invariant. |
| Dispatch.ReplyFraming | Networking.cs:168-169 | A command turn is idle exactly when the farm is off. Every reply sent starts with the requester's identity and an empty frame, and has at least one payload frame. |
| Dispatch.OnlyFragmentMovesCounter | Networking.cs:134-150 | Only a well-formed `getFragment` moves the counter, by one 32-bit step, and it leaves the end ledger and the files alone. Every other command, and every request while the farm is off, leaves the whole state unchanged. |
| Dispatch.CounterGrowsAfterExhaustion | Networking.cs:200-203 | With the farm on and the counter past 10 but below the largest `int`, `getFragment` still adds one to the counter, answers standby and leaves the ledgers unchanged. |
| Dispatch.FragmentGrant | Networking.cs:200-211 | Above 10 the reply is standby and the ledger is unchanged. Otherwise the reply grants the new counter value, and the worker and start maps are updated at that frame alone. |
| Dispatch.GrantTouchesOnlyItsFrame | Networking.cs:239-242 | A grant leaves every ledger key other than the granted frame present or absent as before, with the same value. |
| Dispatch.FragmentStandbyIff | Networking.cs:202 | A `getFragment` reply is standby exactly when the incremented counter exceeds 10. |
| Dispatch.SceneRepliesStandbyIff | Networking.cs:171-177 | `getBsz` and the checksum command answer standby exactly when the counter is at least 10. Below that, and with the scene file present, their payloads are the file bytes and the hex digest. With the file missing, both end the process. |
| Dispatch.FrameTenGrantedAfterStandbyBoundary | Networking.cs:202 | From counter 9, `getFragment` grants frame 10 with the text "10" and adds ledger key 10. After that, `getBsz`, the checksum command and the next `getFragment` all answer standby. |
| Dispatch.ReadyImageReportsCounter | Networking.cs:187 | `readyImage` answers the counter's decimal text. Before any grant that text is "-1". |
| Dispatch.MalformedIdentityCrashes | Networking.cs:130 | An identity that is not 16 bytes long cannot become a Guid. The turn ends the process and changes no state. |
| Dispatch.ImageStampsOnlyMinusOne | Networking.cs:90-98 | An image request stores the bytes under "<id>.png" and answers "ok". It sets the end time at key -1 and at no other key, and leaves the counter, the switch and the other two ledgers unchanged. |
| Dispatch.CounterWrapsToNegativeGrant | Networking.cs:200-205 | After the largest `int` the counter wraps to -2147483648, which passes the `> MAX_FRAMES` test, so a negative frame is granted and added to the ledger. |
| Dispatch.NextFrameIsUncheckedIncrement | Networking.cs:200 | The counter step is `renderFrame + 1` reduced to 32 bits. |
| Dispatch.FragmentStepAdvances | Networking.cs:200-211 | Below the largest `int`, one `getFragment` with the farm on adds one to the counter and replies for the new frame. |
| Dispatch.FragmentsInOrder | Networking.cs:195-214 | With the farm on, and the counter plus the number of requests at most the largest `int`, a run of well-formed `getFragment` requests receives consecutive frame numbers. Each reply is a grant or standby according to the frame count. The counter ends |events| higher. |
| Dispatch.FreshDispatcherGrantsZeroToTen | Networking.cs:120 | Once the farm is switched on, a new dispatcher grants frames 0, 1, ..., 10 to successive `getFragment` requests, in order, and answers standby to every later one, for runs of at most 2^31 - 1 requests. Request 2^31 + 1 would wrap the counter and be granted a negative frame (`CounterWrapsToNegativeGrant`). |
| Dispatch.InitialStateInvariants | Networking.cs:57-68 | The new dispatcher satisfies the ledger-shape and grant-progress invariants. |
| Dispatch.StepKeepsLedgerShape | Networking.cs:98 | Every event keeps the ledger shape: worker and start keys agree, 0..9 are present, and the end map only gains key -1. |
| Dispatch.StepKeepsGrantProgress | Networking.cs:202-205 | While the counter is below the largest `int`, every event keeps grant progress: the worker keys are 0..9 plus 10 once granted, and frames beyond the counter stay unassigned. At the largest `int` the counter wraps and a negative frame is granted, so the condition is needed (`CounterWrapsToNegativeGrant`). |
| Dispatch.ExecuteKeepsLedgerShape | Networking.cs:125-154 | The ledger shape holds after any run of events. |
| Dispatch.ExecuteKeepsGrantProgress | Networking.cs:125-154 | From a state with both invariants, grant progress holds after any run whose length plus the counter is at most the largest `int`, so that the counter cannot wrap. The counter ends at most that many steps higher. |
| Dispatch.ReachableLedger | Networking.cs:98 | From a new dispatcher, no run of the two loops gives frames 0..9 a finish time. (The GUI's own writes at Silk.cs:360-366 are not part of the model.) For runs of at most 2^31 - 1 events, the worker ledger holds exactly 0..9, plus 10 once the counter reaches it. |
| Formatting.Wrap32 | Networking.cs:200 | The result is congruent to the exact value modulo 2^32, and equals it when it fits in 32 bits. |
| Formatting.NatToString | Networking.cs:187 | The decimal text of a natural number is non-empty and all digits, and reads back as the number. It has no leading zero: a text starting with '0' is exactly "0". |
| Formatting.IntToString | Networking.cs:208 | `Int32.ToString()` starts with '-' exactly for negative values, and digits follow. |
| Formatting.IntToStringDigits | Networking.cs:208 | After the optional '-', `Int32.ToString()` writes the canonical decimal text of the magnitude: non-empty digits whose value is the absolute value of n, with no leading zero except in "0". So "-" alone, "010" or "-0" are never produced. |
| Formatting.ParseInt32 | Program.cs:160 | `int.TryParse` succeeds only with a value in the 32-bit range. |
| Formatting.ParseInt32Iff | Program.cs:160 | `int.TryParse` gives `v` exactly when the text after an optional '-' or '+' is a non-empty run of ASCII digits, `v` is their value (negated after '-'), and `v` fits in 32 bits. So "+5", "007" and "-0" are accepted too. |
| Formatting.ParseDigitsIff | Program.cs:160 | The digit reader accepts exactly the non-empty strings of ASCII digits, and returns the number they write. |
| Formatting.AcceptedIntShape | Program.cs:160 | An accepted string is non-empty, starts with a digit or a sign, and has only digits after that. |
| Formatting.ParseIntToString | Program.cs:160 | `int.TryParse` reads back every 32-bit value from its `ToString()` text. |
| Formatting.HexDigestIsPairs | Networking.cs:262 | Removing the dashes from `BitConverter.ToString` leaves the two-digit byte pairs side by side. |
| Formatting.HexDigestRoundTrip | Networking.cs:262 | The checksum text is twice as long as the digest and parses back to it. |
| CommandLine.ErrorMessage | Program.cs:107-108 | The usage message is the message of exactly the missing-scene error. The invalid-port message is exactly the prefix "Invalid port number: " followed by the rejected value (line 165). |
| CommandLine.EndsWithBellaSuffix | Program.cs:184-186 | A case-insensitive ".bs?" suffix test holds exactly when the last four characters are '.', 'b' or 'B', 's' or 'S', and the letter in either case. |
| CommandLine.IsBellaFileIff | Program.cs:183-187 | A name is a scene file exactly when it ends in '.', then b/B, then s/S, then one of z/Z, a/A or x/X. |
| CommandLine.FirstInvalidPort | Program.cs:159-166 | The position found is before the bound, and there a port option is followed by a value `int.TryParse` rejects. |
| CommandLine.FirstInvalidPortIsFirst | Program.cs:149-166 | No earlier position holds an invalid port value. If none is found, no position within the bound does. |
| CommandLine.LastBellaFile | Program.cs:153-155 | The position found is before the bound and names a scene file. |
| CommandLine.LastBellaFileIsLast | Program.cs:149-156 | No later position within the bound names a scene file. If none is found, no position does. |
| CommandLine.LastPortOption | Program.cs:159 | The position found is before the bound and is a port option with an argument after it. |
| CommandLine.LastPortOptionIsLast | Program.cs:159-163 | No later position within the bound is a port option with a value. If none is found, no position is. |
| CommandLine.ParsedIntIsPlain | Program.cs:153-160 | A string `int.TryParse` accepts is neither a scene file name nor a port option. |
| CommandLine.PortOptionIsNotBellaFile | Program.cs:153-159 | "-p" and "--port" are not scene file names. |
| CommandLine.PlainArgumentStep | Program.cs:150-156 | Scanning past a scene file records it. Scanning past any other argument that is not a port option with a value changes neither the chosen file nor the port. |
| CommandLine.PortValueStep | Program.cs:159-163 | Scanning past a port option and an accepted value sets the port to that value and keeps the chosen scene file. |
| CommandLine.ParseCommandLineArguments | Program.cs:140-176 | The scanning loop, with its double step over a port value, returns exactly the declarative reading `ParsedArguments`. |
| CommandLine.UsageErrorIff | Program.cs:141-143 | The usage error is returned exactly when no port value is invalid and no argument names a scene file. This covers the empty list and lines 171-173. |
| CommandLine.SceneFileIsLastOne | Program.cs:149-156 | On success the scene file is an argument with a scene extension, and no later argument has one. |
| CommandLine.LastSceneFileChosen | Program.cs:153-155 | When no port value is invalid, the last argument with a scene extension is the one chosen. |
| CommandLine.DefaultPortWithoutOption | Program.cs:146 | Without a port option followed by a value, the port is 8799. |
| CommandLine.PortFromLastOption | Program.cs:159-163 | On success the port is the value after the last port option that has an argument after it. |
| CommandLine.AnyIntegerPortAccepted | Program.cs:160-161 | Any 32-bit value, negative or above 65535, is taken as the port. There is no range check. |
| CommandLine.InvalidPortReported | Program.cs:164-166 | The first port option followed by a value `int.TryParse` rejects produces the error naming that value. |
| CommandLine.InvalidPortHasOption | Program.cs:165 | An invalid-port error always names a rejected value that follows a port option. |
| CommandLine.SceneFileAsPortValueFails | Program.cs:159-166 | A scene file name right after `-p`/`--port` is read as the port value and rejected. |
| CommandLine.AppendedArgumentIgnored | Program.cs:149-168 | Appending an argument that is not a scene file, where it cannot be a port value, does not change the result. This includes a trailing `-p` with nothing after it. |

## Left out

- Anim.cs is not part of this model. It holds the camera interpolation in floating point. The transform text of a frame is a function parameter (`transform`), and the float time `renderFrame * 3 / _totalFrames` (Networking.cs:225) is inside it. `transform` is fixed for the object's whole life, so the model holds the keyframes fixed for a run. In the program the orbit, zoom and pan handlers (Silk.cs:193-195, 543-570) can rewrite a keyframe while the farm runs, so the transform a frame is granted with depends on when it is requested.
- Silk.cs is not part of this model. That includes the GUI thread's writes to `_workerEnd` (Silk.cs:360-366), which set the finish time of frames 0..9 on every GUI frame while the farm is on, concurrently with the loops. The only GUI action modelled is the render-farm toggle.
- Bella.cs is not part of this model. The camera `set` calls on the engine's nodes (Networking.cs:233, 235) are engine side effects, and only the transform text they produce is kept.
- Sockets, `Task.Run`, the lock and `Thread.Sleep(2000)`: a loop turn is one method call with the received frames as parameters. The idle turn with the farm off returns `Idle`. It stands for a poll that receives nothing (Networking.cs:126, 152); a request sent while the farm is off waits in the socket queue and appears as a `Command` event after the toggle. The two loops interleave only as whole turns (`Dispatch.Execute`).
- The clock is a parameter `now`. The SHA-256 digest and the text of `new Guid(identity)` are opaque function parameters.
- Console output is left out. `LogErrorAndExit` is the outcome `Crash`, which ends a run.
- Only the scene-file read failing (a missing file) is modelled. The image write always succeeds.
- NetMQ exceptions are left out.
- `renderFrame` is a local of `CommandChannelAsync` in the source. The model keeps it as a field of the `Networking` object so that one method is one loop turn.
- The ledger times are `long` in the source and unbounded integers here. Nothing in the modelled code computes with them; only the GUI subtracts them for display (Silk.cs:368).
- The `Frame` flags enum is unused by the code and is left out.
- `Program.Main` is left out: console output, exit codes and starting the GUI.
- Formatting.ParseInt32: does not model the leading or trailing white space and the culture's own positive and negative sign strings, which .NET's `int.TryParse` accepts.
- Formatting.IntToString: assumes the invariant culture's minus sign "-". The source formats the counter with the current culture (Networking.cs:187, 208, 210), and some cultures write U+2212 instead. That affects the "-1" `readyImage` sends before any grant and the text of negative frames after the wrap.
- CommandLine.IsBellaFile: compares ignoring case over ASCII letters only. Ordinal case-insensitive comparison of other Unicode letters is not modelled.
