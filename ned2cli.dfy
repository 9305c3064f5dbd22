/**
 * The command shell of ned2cli.py: a store of named poses that the user saves
 * and removes, a read-only store of base poses, and the lookup of a pose by
 * name that the motion commands use.
 *
 * A stored pose is the list of numbers YAML gives back; an empty list is
 * Python-false and counts as missing. The YAML file of the user store is
 * modelled as a ghost copy of the map (`persisted`) and a count of the times
 * it was rewritten (`writes`).
 */
module PoseShell {
  import opened PoseText
  import opened Ned2Facade

  type Store = map<string, seq<real>>

  /** What `__get_pose` yields: a pose, None, or an IndexError from a stored list shorter than six. */
  datatype Lookup = Found(pose: Pose) | NotFound | Raised

  /** Python's `sub in s` on strings. */
  predicate Occurs(sub: string, s: string)
    decreases |s|
  {
    sub <= s || (s != [] && Occurs(sub, s[1..]))
  }

  /** The entry `store.get(name)` when it is Python-true. */
  function Entry(store: Store, name: string): Option<seq<real>>
  {
    if name in store && store[name] != [] then Some(store[name]) else None
  }

  /** `pose_from_list` on a stored list; a short list raises. */
  function FromList(v: seq<real>): (r: Lookup)
    ensures r != NotFound
    ensures r == Raised <==> |v| < 6
    ensures r.Found? ==> ToList(r.pose) == v[..6]
  {
    match PoseFromList(v)
    case Some(p) => Found(p)
    case None => Raised
  }

  /** Text that `__get_pose` tries to parse as a pose. */
  predicate LooksInline(name: string)
  {
    Occurs("[", name) || Occurs("PoseObject", name)
  }

  /**
   * `__get_pose`: the user store first, then the base store, then, for text that
   * looks like a pose, the text itself.
   */
  function Resolve(user: Store, base: Store, name: string): (r: Lookup)
    // no name, no pose
    ensures name == "" ==> r == NotFound
    // a true user entry shadows the base store
    ensures name != "" && Entry(user, name).Some? ==> r == FromList(user[name])
    // the base store is consulted only when the user entry is missing or false
    ensures name != "" && Entry(user, name).None? && Entry(base, name).Some? ==> r == FromList(base[name])
    // the text is parsed only when both stores miss and it looks like a pose
    ensures Entry(user, name).None? && Entry(base, name).None? ==>
      r == (if name != "" && LooksInline(name) && PoseFromStr(name).Some? then Found(PoseFromStr(name).value) else NotFound)
    // only a short stored list raises
    ensures r == Raised ==>
      if Entry(user, name).Some? then |user[name]| < 6 else Entry(base, name).Some? && |base[name]| < 6
  {
    if name == "" then NotFound
    else
      match Entry(user, name)
      case Some(v) => FromList(v)
      case None =>
        match Entry(base, name)
        case Some(v) => FromList(v)
        case None =>
          if LooksInline(name) then
            match PoseFromStr(name)
            case Some(p) => Found(p)
            case None => NotFound
          else NotFound
  }

  /** A pose saved under a name is what the name then resolves to, whatever the base store holds. */
  lemma ResolveSaved(user: Store, base: Store, name: string, p: Pose)
    requires name != ""
    ensures Resolve(user[name := ToList(p)], base, name) == Found(p)
  {
  }

  /** After a removal the base store shows through again. */
  lemma ResolveRemoved(user: Store, base: Store, name: string)
    ensures Resolve(user - {name}, base, name) == Resolve(map[], base, name)
  {
  }

  /** Saving or removing one name leaves how every other name resolves as it was. */
  lemma ResolveOtherNames(user: Store, base: Store, key: string, v: seq<real>, name: string)
    requires name != key
    ensures Resolve(user[key := v], base, name) == Resolve(user, base, name)
    ensures Resolve(user - {key}, base, name) == Resolve(user, base, name)
  {
  }

  /** A command as the shell reads it, with what the SDK answers where it takes part. */
  datatype Command =
    | Save(name: string, current: Pose)
    | Remove(name: string)
    | RemoveAll
    | MoveTo(name: string, outcome: MoveOutcome)
    | Quit

  class Ned2Cli {
    const ned2: Ned2
    const basePoses: Store
    var poses: Store
    /** The content of the local pose file. */
    ghost var persisted: Store
    /** How many times the local pose file was rewritten. */
    ghost var writes: nat

    /** The file holds the store, and the arm stays connected. */
    ghost predicate Valid()
      reads this, ned2
    {
      persisted == poses && ned2.robot.Some?
    }

    /** The shell over a facade that opened successfully, with both pose files loaded. */
    constructor (arm: Ned2, base: Store, saved: Store)
      requires arm.robot.Some?
      ensures ned2 == arm && basePoses == base && poses == saved
      ensures persisted == saved && writes == 0
      ensures Valid()
    {
      ned2 := arm;
      basePoses := base;
      poses := saved;
      persisted := saved;
      writes := 0;
    }

    /** `__save_poses_to_yaml`: the file takes the whole store. */
    method WriteFile()
      modifies this
      ensures persisted == poses && writes == old(writes) + 1
      ensures poses == old(poses)
    {
      persisted := poses;
      writes := writes + 1;
    }

    /**
     * `do_save`: asks the arm for its current pose (`current` is the answer),
     * stores it under `name` and rewrites the file.
     */
    method Save(name: string, current: Pose)
      requires Valid()
      modifies this, ned2
      ensures Valid()
      ensures name == "" ==> poses == old(poses) && writes == old(writes)
      ensures name != "" ==> poses == old(poses)[name := ToList(current)] && writes == old(writes) + 1
      ensures name != "" ==> Resolve(poses, basePoses, name) == Found(current)
      // the arm is only queried, and only for a name
      ensures ned2.Abstract() == old(ned2.Abstract())
      ensures ned2.robot == old(ned2.robot) && ned2.setupEvent == old(ned2.setupEvent) && ned2.moveEvent == old(ned2.moveEvent)
      ensures ned2.requests == old(ned2.requests) + (if name == "" then [] else [GetPose])
    {
      if name != "" {
        ned2.requests := ned2.requests + [GetPose];
        poses := poses[name := ToList(current)];
        WriteFile();
        ResolveSaved(old(poses), basePoses, name, current);
      }
    }

    /** `do_remove`: deletes the entry `name`, if there is one, and rewrites the file. */
    method Remove(name: string)
      requires Valid()
      modifies this
      ensures Valid()
      ensures name == "" || name !in old(poses) ==> poses == old(poses) && writes == old(writes)
      ensures name != "" && name in old(poses) ==> poses == old(poses) - {name} && writes == old(writes) + 1
      ensures name != "" && name in old(poses) ==> name !in poses && |poses| == |old(poses)| - 1
    {
      if name != "" && name in poses {
        poses := poses - {name};
        WriteFile();
      }
    }

    /** `do_remove_all`: empties a non-empty store and rewrites the file. */
    method RemoveAll()
      requires Valid()
      modifies this
      ensures Valid()
      ensures poses == map[]
      ensures writes == old(writes) + (if old(poses) != map[] then 1 else 0)
    {
      if poses != map[] {
        poses := map[];
        WriteFile();
      }
    }

    /**
     * `do_move`: resolves `name` and, when it names a pose, moves the arm there.
     * Returns true when the lookup raised.
     */
    method MoveTo(name: string, outcome: MoveOutcome) returns (raised: bool)
      requires Valid()
      modifies ned2
      ensures Valid()
      ensures raised <==> Resolve(poses, basePoses, name) == Raised
      ensures ned2.robot == old(ned2.robot)
      ensures
        match Resolve(poses, basePoses, name)
        case Found(p) =>
          && ned2.Abstract() == Step(old(ned2.Abstract()), Op.Move(outcome)).next
          && ned2.requests == old(ned2.requests) + [MovePose(p)]
        case _ =>
          ned2.Abstract() == old(ned2.Abstract()) && ned2.requests == old(ned2.requests)
    {
      match Resolve(poses, basePoses, name)
      case Found(p) =>
        var _ := ned2.MoveToPose(p, outcome);
        raised := false;
      case NotFound =>
        raised := false;
      case Raised =>
        raised := true;
    }

    /**
     * `onecmd` followed by `postcmd`: runs one command and tells the loop whether
     * to stop. An exception becomes a false result; only `quit` stops.
     */
    method OneCmd(c: Command) returns (stop: bool)
      requires Valid()
      modifies this, ned2
      ensures Valid()
      ensures stop <==> c.Quit?
      // the store and its file after each command
      ensures c.Save? ==>
        if c.name == "" then poses == old(poses) && writes == old(writes)
        else poses == old(poses)[c.name := ToList(c.current)] && writes == old(writes) + 1
      ensures c.Remove? ==>
        if c.name != "" && c.name in old(poses) then poses == old(poses) - {c.name} && writes == old(writes) + 1
        else poses == old(poses) && writes == old(writes)
      ensures c.RemoveAll? ==> poses == map[] && writes == old(writes) + (if old(poses) != map[] then 1 else 0)
      ensures c.MoveTo? || c.Quit? ==> poses == old(poses) && writes == old(writes)
      // what the arm is sent
      ensures ned2.robot == old(ned2.robot)
      ensures !c.MoveTo? ==> ned2.Abstract() == old(ned2.Abstract())
      ensures !c.MoveTo? ==> ned2.setupEvent == old(ned2.setupEvent) && ned2.moveEvent == old(ned2.moveEvent)
      ensures c.Save? ==> ned2.requests == old(ned2.requests) + (if c.name == "" then [] else [GetPose])
      ensures c.Remove? || c.RemoveAll? || c.Quit? ==> ned2.requests == old(ned2.requests)
      ensures c.MoveTo? ==>
        match Resolve(poses, basePoses, c.name)
        case Found(p) =>
          && ned2.Abstract() == Step(old(ned2.Abstract()), Op.Move(c.outcome)).next
          && ned2.requests == old(ned2.requests) + [MovePose(p)]
        case _ =>
          ned2.Abstract() == old(ned2.Abstract()) && ned2.requests == old(ned2.requests)
    {
      match c
      case Save(name, current) =>
        Save(name, current);
        stop := false;
      case Remove(name) =>
        Remove(name);
        stop := false;
      case RemoveAll =>
        RemoveAll();
        stop := false;
      case MoveTo(name, outcome) =>
        var _ := MoveTo(name, outcome);
        stop := false;
      case Quit =>
        stop := true;
    }
  }

  /**
   * Starting the shell: it opens the facade on the default address and keeps
   * going only if that succeeded; otherwise the program quits (None).
   */
  method Launch(base: Store, saved: Store, calibration: SetupOutcome, toolUpdate: SetupOutcome)
    returns (cli: Option<Ned2Cli>)
    ensures cli.Some? <==> calibration == Success && toolUpdate == Success
    ensures cli.Some? ==> fresh(cli.value) && cli.value.Valid()
    ensures cli.Some? ==> cli.value.basePoses == base && cli.value.poses == saved && cli.value.writes == 0
    ensures cli.Some? ==> cli.value.ned2.host == DefaultRobotIp
  {
    var arm := new Ned2();
    var ok := arm.Open(calibration, toolUpdate);
    if !ok {
      return None;
    }
    var shell := new Ned2Cli(arm, base, saved);
    return Some(shell);
  }
}
