/**
 * The `Ned2` facade of ned2.py: a robot handle that is present while online, a
 * sticky error latch and the two completion events that the vendor SDK's
 * callbacks set.
 *
 * The SDK is not modelled. Each setup call (calibration, tool update) instead
 * ends in a `SetupOutcome`: the success callback fired within the 25 s wait, the
 * failure callback fired, or neither did. Each move ends in a `MoveOutcome`:
 * the callback reported a status, or the 30 s wait ran out. The requests the
 * facade sends to the SDK are recorded in a ghost log.
 *
 * `State` and `Step` give the same behaviour as a pure machine over
 * (online, latched); every method of the class is proved to follow it, and the
 * lemmas about long-run behaviour are proved on the machine.
 */
module Ned2Facade {
  import opened PoseText

  const DefaultRobotIp: string := "10.10.10.10"

  /** How a setup request ended, as seen by `__call_setup` after its wait. */
  datatype SetupOutcome = Success | Failure | Timeout

  /** How a move request ended, as seen by `__move` after its wait. */
  datatype MoveOutcome = Completed(status: int) | TimedOut

  /** A connection to the robot at `host` (the SDK's `NiryoRobot`). */
  datatype Handle = Handle(host: string)

  /** A request sent to the SDK. */
  datatype Request =
    | Connect(host: string)
    | CalibrateAuto
    | UpdateTool
    | GoToSleep
    | GetPose
    | MovePose(pose: Pose)
    | MoveJoints(joints: seq<real>)

  // ---------------------------------------------------------------------------
  // The facade as a pure state machine

  /** Whether a handle is held, and whether the error latch is set. */
  datatype State = State(online: bool, latched: bool)

  /** A call on the facade, together with what the SDK does in response. */
  datatype Op =
    | Open(calibration: SetupOutcome, toolUpdate: SetupOutcome)
    | Close
    | Move(outcome: MoveOutcome)

  /** The state after a call and what the call returns (`close()` returns nothing, read as false). */
  datatype Reply = Reply(next: State, ok: bool)

  /** One setup call: whether it reports success, and the latch afterwards. */
  function Setup(latched: bool, outcome: SetupOutcome): (r: (bool, bool))
    ensures r.0 <==> !latched && outcome == Success
    ensures r.1 <==> latched || outcome == Failure
  {
    (outcome == Success && !latched, latched || outcome == Failure)
  }

  /**
   * `open()`: connect, calibrate, update the tool only if calibration reported
   * success, and go back offline unless both did.
   */
  function OpenStep(s: State, calibration: SetupOutcome, toolUpdate: SetupOutcome): (r: Reply)
    // open() succeeds exactly when the latch was clear and both setup calls completed
    ensures r.ok <==> !s.latched && calibration == Success && toolUpdate == Success
    // whenever it fails it leaves the facade offline
    ensures r.next.online <==> r.ok
    // it never clears the latch, and an errback that fires sets it
    ensures s.latched ==> r.next.latched
    ensures calibration == Failure || (calibration == Success && !s.latched && toolUpdate == Failure) ==> r.next.latched
    ensures !s.latched && calibration != Failure && toolUpdate != Failure ==> !r.next.latched
  {
    var (calibrated, latched) := Setup(s.latched, calibration);
    var (ok, latched') := if calibrated then Setup(latched, toolUpdate) else (false, latched);
    Reply(State(ok, latched'), ok)
  }

  /** `close()`: offline afterwards, latch untouched; calling it again changes nothing. */
  function CloseStep(s: State): (r: Reply)
    ensures !r.next.online && r.next.latched == s.latched && !r.ok
  {
    Reply(State(false, s.latched), false)
  }

  lemma CloseIdempotent(s: State)
    ensures CloseStep(CloseStep(s).next) == CloseStep(s)
  {
  }

  /**
   * `move_pose`/`move_joints`: refused while offline; otherwise `__move` clears
   * the latch, and the callback sets it again for a status other than 1.
   */
  function MoveStep(s: State, outcome: MoveOutcome): (r: Reply)
    ensures !s.online ==> r == Reply(s, false)
    ensures s.online ==> r.next.online && (r.ok <==> outcome == Completed(1))
    ensures s.online ==> (r.next.latched <==> outcome.Completed? && outcome.status != 1)
  {
    if !s.online then Reply(s, false)
    else
      var latched := outcome.Completed? && outcome.status != 1;
      Reply(State(true, latched), outcome.Completed? && !latched)
  }

  function Step(s: State, op: Op): Reply
  {
    match op
    case Open(calibration, toolUpdate) => OpenStep(s, calibration, toolUpdate)
    case Close => CloseStep(s)
    case Move(outcome) => MoveStep(s, outcome)
  }

  /** The state after a sequence of calls. */
  function Final(s: State, ops: seq<Op>): State
    decreases |ops|
  {
    if ops == [] then s else Final(Step(s, ops[0]).next, ops[1..])
  }

  /** What each call of a sequence returns, in order. */
  function Replies(s: State, ops: seq<Op>): (r: seq<bool>)
    ensures |r| == |ops|
    decreases |ops|
  {
    if ops == [] then [] else [Step(s, ops[0]).ok] + Replies(Step(s, ops[0]).next, ops[1..])
  }

  /**
   * Offline with the latch set, the facade is stuck: whatever the SDK does, no
   * call ever returns true and the state never changes.
   */
  lemma {:induction false} LatchedOfflineIsStuck(s: State, ops: seq<Op>)
    requires !s.online && s.latched
    ensures Final(s, ops) == s
    ensures forall k | 0 <= k < |ops| :: !Replies(s, ops)[k]
  {
    if ops != [] {
      assert Step(s, ops[0]) == Reply(s, false);
      LatchedOfflineIsStuck(s, ops[1..]);
      assert Replies(s, ops) == [false] + Replies(s, ops[1..]);
    }
  }

  /**
   * Once a setup errback has fired during `open()`, every later call on the
   * same facade returns false, whatever the SDK does.
   */
  lemma {:induction false} FailedSetupNeverRecovers(s: State, calibration: SetupOutcome, toolUpdate: SetupOutcome, ops: seq<Op>)
    requires calibration == Failure || (calibration == Success && !s.latched && toolUpdate == Failure)
    ensures Step(s, Open(calibration, toolUpdate)) == Reply(State(false, true), false)
    ensures forall k | 0 <= k < |ops| :: !Replies(State(false, true), ops)[k]
  {
    LatchedOfflineIsStuck(State(false, true), ops);
  }

  /**
   * A move whose callback reports a failure, followed by `close()`, also leaves
   * the facade unable ever to open again.
   */
  lemma {:induction false} FailedMoveThenCloseNeverRecovers(s: State, status: int, ops: seq<Op>)
    requires s.online && status != 1
    ensures Step(Step(s, Move(Completed(status))).next, Close).next == State(false, true)
    ensures forall k | 0 <= k < |ops| :: !Replies(State(false, true), ops)[k]
  {
    LatchedOfflineIsStuck(State(false, true), ops);
  }

  /** A move that times out clears the latch, so after `close()` the facade can open again. */
  lemma TimedOutMoveThenCloseCanReopen(s: State)
    requires s.online
    ensures Replies(s, [Move(TimedOut), Close, Open(Success, Success)]) == [false, false, true]
  {
  }

  // ---------------------------------------------------------------------------
  // The facade object

  class Ned2 {
    const host: string
    var robot: Option<Handle>
    var hasErrors: bool
    var setupEvent: bool
    var moveEvent: bool
    /** The requests sent to the SDK so far, oldest first. */
    ghost var requests: seq<Request>

    /** The facade seen as a state of the machine above. */
    function Abstract(): (s: State)
      reads this
      ensures s.online <==> robot.Some?
      ensures s.latched <==> hasErrors
    {
      State(robot.Some?, hasErrors)
    }

    /** A new facade is offline with a clear latch, and has sent nothing. */
    constructor (robotIp: string := DefaultRobotIp)
      ensures host == robotIp && robot == None && !hasErrors
      ensures !setupEvent && !moveEvent && requests == []
      ensures Abstract() == State(false, false)
    {
      host := robotIp;
      setupEvent := false;
      moveEvent := false;
      robot := None;
      hasErrors := false;
      requests := [];
    }

    function IsOffline(): (r: bool)
      reads this
      ensures r <==> !Abstract().online
    {
      robot == None
    }

    /** Success callback of either setup request: signals completion. */
    method SetupSucceeded()
      modifies this
      ensures setupEvent
      ensures robot == old(robot) && hasErrors == old(hasErrors) && moveEvent == old(moveEvent)
      ensures requests == old(requests)
    {
      setupEvent := true;
    }

    /** Failure callback of either setup request: latches the error, then signals completion. */
    method SetupFailed()
      modifies this
      ensures setupEvent && hasErrors
      ensures robot == old(robot) && moveEvent == old(moveEvent)
      ensures requests == old(requests)
    {
      hasErrors := true;
      setupEvent := true;
    }

    /** The move callback: a status other than 1 latches the error; either way it signals completion. */
    method MoveCallback(status: int)
      modifies this
      ensures moveEvent
      ensures hasErrors == (old(hasErrors) || status != 1)
      ensures robot == old(robot) && setupEvent == old(setupEvent)
      ensures requests == old(requests)
    {
      if status != 1 {
        hasErrors := true;
      }
      moveEvent := true;
    }

    /**
     * Sends a setup request and waits for a callback. It reports success only
     * if a callback fired and the latch is clear; it never clears the latch.
     */
    method CallSetup(request: Request, outcome: SetupOutcome) returns (ok: bool)
      modifies this
      ensures (ok, hasErrors) == Setup(old(hasErrors), outcome)
      ensures setupEvent <==> outcome != Timeout
      ensures robot == old(robot) && moveEvent == old(moveEvent)
      ensures requests == old(requests) + [request]
    {
      setupEvent := false;
      requests := requests + [request];
      match outcome {
        case Success => SetupSucceeded();
        case Failure => SetupFailed();
        case Timeout =>
      }
      ok := setupEvent && !hasErrors;
    }

    /** Drops the handle, sending the arm to sleep first if one was held. */
    method Close()
      modifies this
      ensures robot == None
      ensures Abstract() == Step(old(Abstract()), Op.Close).next
      ensures setupEvent == old(setupEvent) && moveEvent == old(moveEvent)
      ensures requests == old(requests) + (if old(robot).Some? then [GoToSleep] else [])
    {
      var held := robot;
      robot := None;
      if held.Some? {
        requests := requests + [GoToSleep];
      }
    }

    /**
     * Connects, calibrates and, if calibration succeeded, updates the tool; on
     * failure it closes again.
     */
    method Open(calibration: SetupOutcome, toolUpdate: SetupOutcome) returns (success: bool)
      modifies this
      ensures Reply(Abstract(), success) == Step(old(Abstract()), Op.Open(calibration, toolUpdate))
      ensures success ==> robot == Some(Handle(host))
      ensures
        var calibrated := calibration == Success && !old(hasErrors);
        requests == old(requests) + [Connect(host), CalibrateAuto]
          + (if calibrated then [UpdateTool] else [])
          + (if success then [] else [GoToSleep])
      ensures moveEvent == old(moveEvent)
    {
      robot := Some(Handle(host));
      requests := requests + [Connect(host)];
      success := CallSetup(CalibrateAuto, calibration);
      if success {
        success := CallSetup(UpdateTool, toolUpdate);
      }
      if !success {
        Close();
      }
    }

    /**
     * Sends a move and waits for its callback: true exactly when the callback
     * reported status 1. Clears the latch first.
     */
    method Move(request: Request, outcome: MoveOutcome) returns (ok: bool)
      requires robot.Some?
      modifies this
      ensures Reply(Abstract(), ok) == Step(old(Abstract()), Op.Move(outcome))
      ensures moveEvent <==> outcome.Completed?
      ensures robot == old(robot) && setupEvent == old(setupEvent)
      ensures requests == old(requests) + [request]
    {
      hasErrors := false;
      moveEvent := false;
      requests := requests + [request];
      if outcome.Completed? {
        MoveCallback(outcome.status);
      }
      ok := moveEvent && !hasErrors;
    }

    /** Moves the tool to `pose`; refused, with nothing sent, while offline. */
    method MoveToPose(pose: Pose, outcome: MoveOutcome) returns (ok: bool)
      modifies this
      ensures Reply(Abstract(), ok) == Step(old(Abstract()), Op.Move(outcome))
      ensures robot == old(robot)
      ensures requests == old(requests) + (if old(robot).Some? then [MovePose(pose)] else [])
    {
      if IsOffline() {
        return false;
      }
      ok := Move(MovePose(pose), outcome);
    }

    /** Moves the arm to the joint angles `joints`; refused, with nothing sent, while offline. */
    method MoveToJoints(joints: seq<real>, outcome: MoveOutcome) returns (ok: bool)
      modifies this
      ensures Reply(Abstract(), ok) == Step(old(Abstract()), Op.Move(outcome))
      ensures robot == old(robot)
      ensures requests == old(requests) + (if old(robot).Some? then [MoveJoints(joints)] else [])
    {
      if IsOffline() {
        return false;
      }
      ok := Move(MoveJoints(joints), outcome);
    }
  }
}
