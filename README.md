# ned2: a verified model of the Ned2 facade, its pose parser and the pose shell

ned2 drives a Niryo Ned2 robot arm through the vendor SDK (`pyniryo2`). This
project models the parts of it that have logic of their own:

- **`Ned2Facade`** (`ned2.dfy`) is the `Ned2` object of `ned2.py`. It holds the
  robot handle, a sticky error latch and the two completion events set by the
  SDK's callbacks. It runs `open()` (connect, calibrate, then update the tool),
  `close()`, and moves that are refused while offline.
  - SDK calls are replaced by their outcomes. A setup request ends in
    `Success`, `Failure` or `Timeout`. A move ends in `Completed(status)` or
    `TimedOut`.
  - A ghost log, `requests`, records what the facade sends to the SDK.
  - The class is proved against a pure machine, `Step`, over the pair
    (online, latched). The long-run lemmas are proved on that machine. The
    main one: once a setup errback has fired, or once a failed move is
    followed by `close()`, no later call ever succeeds. Only a move clears the
    latch, and a move is refused while offline.
- **`PoseText`** (`pose_text.dfy`) is `pose_from_list` and `pose_from_str`.
  - The scanner follows Python's `re.findall` with the numeral pattern
    `-?\d+(?:\.\d+)?(?:[eE][+-]?\d+)?`: the leftmost match first, greedy,
    without overlap.
  - Each match is returned as a structured `Numeral`, and `Render` gives back
    its text.
  - Proved:
    - every text is its matches laid out between the pieces of text around
      them (`Gaps`), so the matches are pieces of the input, in order;
    - scanning is leftmost: text in which no match starts adds no match;
    - every rendered numeral before a boundary is matched whole;
    - `FindAll` gives back exactly the numerals of any text laid out from
      numerals and separators. The `PoseObject(x=.., ...)` display form and
      the list form are instances of this.
  - A numeral's number is its exact rational value: the integer of its digits,
    shifted past the fraction, then scaled by its exponent (`Magnitude`,
    `Value`, `ValueExponent`).
- **`PoseShell`** (`ned2cli.dfy`) is `Ned2Cli` of `ned2cli.py`.
  - The state is the user's pose store, which the shell mutates. The base
    store is read-only.
  - The YAML file is a ghost copy of the store plus a count of its rewrites.
  - Name resolution, `Resolve`, tries the user store, then the base store,
    then the text itself.
  - `Save`, `Remove`, `RemoveAll`, `MoveTo` and `OneCmd` each state the new
    store, whether the file was rewritten, and what was sent to the arm (the
    pose query of `Save`, the move of `MoveTo`).

## Model

| member | source | states |
|---|---|---|
| PoseText.ToList | ned2cli.py:93 | the six fields in order, and `pose_from_list` of that list gives the pose back |
| PoseText.PoseFromList | ned2.py:84-85 | a pose exactly when the list has at least six elements; its fields are elements 0..5 in order, and extra elements are ignored |
| PoseText.DigitPrefix | ned2.py:89-90 | greedy `\d*`: a run of digits that starts the text and is not followed by another digit |
| PoseText.FractionPrefix | ned2.py:89-90 | the `(?:\.\d+)?` part taken is all digits and, rendered, starts the text |
| PoseText.ExponentPrefix | ned2.py:89-90 | the `(?:[eE][+-]?\d+)?` part taken is well-formed and, rendered, starts the text |
| PoseText.MatchPrefix | ned2.py:89-90 | a match exists exactly when the text starts with a digit, or with `-` and then a digit; the match is a well-formed numeral whose text starts the input |
| PoseText.FindAll | ned2.py:89-90 | every match is well-formed, and there are no more matches than characters; that scanning is leftmost and takes pieces of the input is stated by `SkipSeparator` and `Gaps` |
| PoseText.DigitPrefixExact | ned2.py:89 | a run of digits followed by a non-digit is taken whole |
| PoseText.ExponentPrefixExact | ned2.py:89 | every well-formed exponent followed by a boundary is taken whole |
| PoseText.FractionPrefixExact | ned2.py:89 | every fraction followed by something other than a digit or `.` is taken whole |
| PoseText.MatchRendered | ned2.py:89-90 | the match at a rendered numeral followed by a boundary is exactly that numeral |
| PoseText.SkipSeparator | ned2.py:90 | leftmost scanning: text at none of whose positions a match starts adds no match, and the matches after it are those of the rest |
| PoseText.MinusBeforeNumeral | ned2.py:89-90 | in `--1` the first `-` starts no match and the one match is `-1`, as `re.findall` gives |
| PoseText.Gaps | ned2.py:90 | every text equals its matches, in order, laid out between these pieces of text, so the matches are non-overlapping pieces of the input |
| PoseText.FindAllRendered | ned2.py:90 | a numeral followed by a boundary is the next match, and scanning resumes right after it |
| PoseText.FindAllInterleave | ned2.py:90 | for text laid out from numerals and separators, the matches are exactly those numerals, in order |
| PoseText.Magnitude | ned2.py:91 | the unsigned number `whole.fraction` spells: times ten to the fraction's length it is the integer of the whole and fraction digits together, and with no fraction it is the integer of the whole digits |
| PoseText.Value | ned2.py:91 | the exact number a matched numeral denotes (in place of `float`): its sign is the minus sign's, a plain run of digits is the integer it spells, and without an exponent it is `Magnitude` of its digits with that sign |
| PoseText.ValueExponent | ned2.py:91 | an exponent multiplies the exponent-free value by ten to the exponent's digits, or divides by it when the exponent's sign is `-` |
| PoseText.ValueExamples | ned2.py:91 | `0.25`, `1e3` and `-1.5E-1` denote 0.25, 1000 and -0.15 |
| PoseText.Values | ned2.py:91 | one number per match, each the value of the match at the same position |
| PoseText.PoseFromStr | ned2.py:87-97 | a pose exactly when there are six matches, and its fields are their values in match order; otherwise None |
| PoseText.PoseFromStrLayout | ned2.py:87-97 | laid-out text parses to a pose exactly when it holds six numerals, and then to their values in order |
| PoseText.PoseObjectTextParses | ned2.py:76-97 | text of the `PoseObject(x=.., y=.., z=.., roll=.., pitch=.., yaw=..)` form parses to the pose of its six numerals |
| PoseText.ListTextParses | ned2.py:87-97 | `[a, b, c, d, e, f]` parses to the pose of its six numerals |
| PoseText.NoneTextRejected | ned2.py:76-79 | the text `'None'` that a missing pose prints as has no matches and parses to no pose |
| Ned2Facade.Setup | ned2.py:119-123 | a setup call reports success exactly when its success callback fired and the latch was clear; the latch afterwards is the old latch or a fired errback |
| Ned2Facade.OpenStep | ned2.py:20-31 | `open()` succeeds exactly when the latch was clear and both setup calls succeeded; it is online afterwards exactly when it succeeded; it never clears the latch and sets it on a fired errback |
| Ned2Facade.CloseStep | ned2.py:33-37 | `close()` leaves the facade offline with the latch unchanged |
| Ned2Facade.CloseIdempotent | ned2.py:33-37 | `close()` twice is the same as `close()` once |
| Ned2Facade.MoveStep | ned2.py:154-165 | offline: nothing changes and the result is false; online: stays online, true exactly for status 1, latch set exactly for a completed move with another status |
| Ned2Facade.LatchedOfflineIsStuck | ned2.py:119-123 | offline with the latch set, every sequence of calls leaves the state unchanged and every call returns false |
| Ned2Facade.FailedSetupNeverRecovers | ned2.py:130-133 | after an `open()` in which a setup errback fired, the facade is offline and latched, and no later call returns true |
| Ned2Facade.FailedMoveThenCloseNeverRecovers | ned2.py:145-152 | a move whose callback reports a status other than 1, followed by `close()`, leaves the facade unable ever to succeed again |
| Ned2Facade.TimedOutMoveThenCloseCanReopen | ned2.py:154-162 | a timed-out move clears the latch, so close then open with both setups succeeding returns true |
| Ned2Facade.Ned2.constructor | ned2.py:12-18 | a new facade is offline with a clear latch and unset events, on the given address (by default 10.10.10.10) |
| Ned2Facade.Ned2.IsOffline | ned2.py:39-40 | true exactly when no handle is held |
| Ned2Facade.Ned2.SetupSucceeded | ned2.py:125-128 | the setup event is set; nothing else changes |
| Ned2Facade.Ned2.SetupFailed | ned2.py:130-133 | the latch and the setup event are set; the handle is unchanged |
| Ned2Facade.Ned2.MoveCallback | ned2.py:145-152 | the move event is set; the latch is set for a status other than 1 and unchanged otherwise |
| Ned2Facade.Ned2.CallSetup | ned2.py:119-123 | sends the request once; the result and the new latch are `Setup`'s; the event is set unless the wait timed out |
| Ned2Facade.Ned2.Close | ned2.py:33-37 | the handle is dropped; the sleep command is sent only when a handle was held; state follows `CloseStep` |
| Ned2Facade.Ned2.Open | ned2.py:20-31 | result and new state follow `OpenStep`; sends connect and calibrate, then the tool update only if calibration succeeded, then sleep when it fails; on success the handle is for the configured host |
| Ned2Facade.Ned2.Move | ned2.py:154-165 | sends the move once; the result and the new state follow `MoveStep`; the handle is unchanged |
| Ned2Facade.Ned2.MoveToPose | ned2.py:61-64 | while offline: returns false and sends nothing; otherwise sends the move; the result and the new state follow `MoveStep` |
| Ned2Facade.Ned2.MoveToJoints | ned2.py:66-69 | the same as `MoveToPose`, for a joint target |
| PoseShell.FromList | ned2cli.py:43 | a stored list shorter than six raises; otherwise the pose's list is the first six elements |
| PoseShell.Resolve | ned2cli.py:28-43 | no name gives None; a user entry shadows the base store; the base store is used only when the user entry is missing or empty; the text is parsed only when both miss and it contains `[` or `PoseObject`; only a short stored list raises |
| PoseShell.ResolveSaved | ned2cli.py:88-95 | a saved pose is what its name then resolves to, whatever the base store holds |
| PoseShell.ResolveOtherNames | ned2cli.py:28-43 | saving or removing one name leaves the resolution of every other name unchanged |
| PoseShell.ResolveRemoved | ned2cli.py:97-106 | after a removal the name resolves as if the user store lacked it |
| PoseShell.Ned2Cli.constructor | ned2cli.py:18-23 | the shell holds the connected facade, the base store and the loaded user store, and the file matches the store |
| PoseShell.Ned2Cli.WriteFile | ned2cli.py:56-58 | the file takes the whole store; one more write |
| PoseShell.Ned2Cli.Save | ned2cli.py:88-95 | an empty name changes nothing, writes nothing and queries nothing; otherwise the arm is asked for its pose once, that key alone gets the pose's list, the file is rewritten once, and the name resolves to that pose; the facade's handle, latch and events are unchanged |
| PoseShell.Ned2Cli.Remove | ned2cli.py:97-106 | an empty or absent name changes nothing and writes nothing; otherwise exactly that key is deleted and the file is rewritten once |
| PoseShell.Ned2Cli.RemoveAll | ned2cli.py:108-115 | the store ends empty; the file is rewritten exactly when it was not empty |
| PoseShell.Ned2Cli.MoveTo | ned2cli.py:121-125 | moves the arm to the resolved pose, with the facade following `MoveStep`; sends nothing when the name resolves to nothing or raises, and reports the raise; the facade keeps its handle |
| PoseShell.Ned2Cli.OneCmd | ned2cli.py:155-169 | only `quit` stops the loop and a raising command continues; for each command, the store and the write count are those of `Save`, `Remove` or `RemoveAll`, a move sends and changes what `MoveTo` does, a save with a name sends one pose query, and no other command sends anything or changes the facade's latch or events; no command replaces the facade's handle |
| PoseShell.Launch | ned2cli.py:18-26 | the shell starts exactly when `open()` on the default address succeeds, with the loaded stores and no writes |

## Left out

- Numbers are exact rationals. Python's `float` rounding is not modelled, and
  the fixed-precision formatting of `pose_to_str` (ned2.py:80-81) is not
  either. The `PoseObject(...)` layout is covered for any well-formed numerals
  in place of the formatted fields.
- `\d` is the ASCII digits `0`-`9`. Python's `\d` on `str` also matches other
  Unicode decimal digits.
- SDK calls are outcomes given as parameters. The model does not cover:
  - `NiryoRobot(host)` raising when the connection fails;
  - `go_to_sleep` failing;
  - the pose that `get_pose` returns (a parameter of `Save`);
  - callbacks that arrive after a wait has timed out, or two callbacks for
    one request.
- Threads and the 25 s and 30 s waits are not modelled. `Timeout` and
  `TimedOut` stand for a wait that ran out.
- The events are plain booleans, and `verbose` is not modelled: it only
  selects what is printed.
- The `title` of a move is not modelled. It only prints, and reads the pose
  for printing.
- YAML reading and writing (ned2cli.py:45-58) is not modelled:
  - a missing or unreadable file is just the store the shell starts with;
  - stored values are lists of numbers, and entries YAML could hold with other
    shapes are out of scope.
- PoseShell.Ned2Cli.constructor: requires an online facade. The source calls `quit()`
  when `open()` fails, and `Launch` models that path by returning None.
- The `cmd.Cmd` loop is not modelled. This covers `emptyline` repeating the
  last command, help, unknown commands, and printing. `postcmd` returns its
  argument unchanged, so `OneCmd` gives its result directly.
- The pass-through commands (`status`, `list`, `pose`, `joints`, `home`,
  `pick`, `place`, `grasp`, `close`, `release`, `open`) are not modelled.
  Neither are the facade's other SDK pass-throughs (`hardware_status`,
  `joints_state`, `get_pose`, `move_to_home_pose`, the pick/place and gripper
  calls). They only forward to the SDK.
- PoseShell.Resolve: the inline parse treats any `PoseObject` as true. This
  assumes the SDK's `PoseObject` defines no truth value of its own, and the
  SDK is not part of this model.
- The demo script example-move.py is not part of this model. Its setup and
  move gating repeats ned2.py:119-165.
