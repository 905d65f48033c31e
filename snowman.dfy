/**
  The heuristics of the snowman-building planner: weighted Manhattan distance,
  the trivial and zero heuristics, and the alternate heuristic that detects
  dead snowballs and adds the robot's distance to the next snowball to move.
*/
module Snowman {
  import opened Wrappers

  type Pos = (int, int)

  /**
    A planner state as the heuristics read it. The snowball dictionary is kept as
    its sequence of (position, size) entries in iteration order.
  */
  datatype State = State(
    snowballs: seq<(Pos, int)>,
    destination: Pos,
    width: int,
    height: int,
    obstacles: set<Pos>,
    robot: Pos)

  /** A heuristic estimate: a number of moves, or float('inf') for a dead state. */
  datatype Estimate = Finite(value: int) | Infinite

  function Abs(x: int): (r: nat)
    ensures r == x || r == -x
  {
    if x < 0 then -x else x
  }

  /** The Manhattan distance between two positions. */
  function Dist(a: Pos, b: Pos): (r: nat)
    ensures r == 0 <==> a == b
  {
    Abs(a.0 - b.0) + Abs(a.1 - b.1)
  }

  /** The cost factor of a snowball size: 1 for sizes 0-2, 2 for sizes 3-5 and 3 for any other size. */
  function Weight(size: int): (r: nat)
    ensures 1 <= r <= 3
  {
    if size == 0 || size == 1 || size == 2 then 1
    else if size == 3 || size == 4 || size == 5 then 2
    else 3
  }

  /** The sum over the snowballs of weight times distance to the destination. */
  function WeightedDistance(balls: seq<(Pos, int)>, dest: Pos): int {
    if balls == [] then 0
    else
      var last := balls[|balls| - 1];
      WeightedDistance(balls[..|balls| - 1], dest) + Weight(last.1) * Dist(last.0, dest)
  }

  /** The weighted distance is never negative, and it is zero exactly when every snowball is at the destination. */
  lemma {:induction false} WeightedDistanceZero(balls: seq<(Pos, int)>, dest: Pos)
    ensures WeightedDistance(balls, dest) >= 0
    ensures WeightedDistance(balls, dest) == 0 <==> forall k :: 0 <= k < |balls| ==> balls[k].0 == dest
  {
    if balls != [] {
      var init := balls[..|balls| - 1];
      WeightedDistanceZero(init, dest);
      assert forall k :: 0 <= k < |init| ==> init[k] == balls[k];
    }
  }

  /** heur_manhattan_distance: the weighted Manhattan distance of the snowballs to the destination. */
  method HeurManhattanDistance(state: State) returns (total: int)
    ensures total == WeightedDistance(state.snowballs, state.destination)
  {
    var balls := state.snowballs;
    total := 0;
    for k := 0 to |balls|
      invariant total == WeightedDistance(balls[..k], state.destination)
    {
      assert balls[..k + 1][..k] == balls[..k];
      var (pos, size) := balls[k];
      var distance := Abs(pos.0 - state.destination.0) + Abs(pos.1 - state.destination.1);
      if size == 0 || size == 1 || size == 2 {
        total := total + distance;
      } else if size == 3 || size == 4 || size == 5 {
        total := total + 2 * distance;
      } else {
        total := total + 3 * distance;
      }
    }
    assert balls[..|balls|] == balls;
  }

  /** trivial_heuristic: the number of snowballs. */
  function TrivialHeuristic(state: State): (r: nat)
    ensures r == |state.snowballs|
  {
    |state.snowballs|
  }

  /** heur_zero: the estimate that turns A* into uniform-cost search. */
  function HeurZero(state: State): (r: int)
    ensures r == 0
  {
    0
  }

  /** edge_check: the snowball lies on a board edge that the destination does not lie on. */
  function EdgeCheck(snowball: Pos, destination: Pos, width: int, height: int): (r: bool)
    ensures r <==>
      (snowball.0 == 0 && destination.0 != 0) ||
      (snowball.0 == width - 1 && destination.0 != width - 1) ||
      (snowball.1 == 0 && destination.1 != 0) ||
      (snowball.1 == height - 1 && destination.1 != height - 1)
  {
    var leftEdge := destination.0 == 0;
    var rightEdge := destination.0 == width - 1;
    var topEdge := destination.1 == 0;
    var bottomEdge := destination.1 == height - 1;
    if !leftEdge && snowball.0 == 0 then true
    else if !rightEdge && snowball.0 == width - 1 then true
    else if !topEdge && snowball.1 == 0 then true
    else if !bottomEdge && snowball.1 == height - 1 then true
    else false
  }

  /** A snowball standing on the destination is never reported as stuck on an edge. */
  lemma EdgeCheckAtDestination(destination: Pos, width: int, height: int)
    ensures !EdgeCheck(destination, destination, width, height)
  {
  }

  /** obstacle_check: an obstacle above or below and an obstacle to the left or right, i.e. a corner. */
  function ObstacleCheck(snowball: Pos, obstacles: set<Pos>): (r: bool)
    ensures r <==>
      ((snowball.0, snowball.1 - 1) in obstacles || (snowball.0, snowball.1 + 1) in obstacles) &&
      ((snowball.0 - 1, snowball.1) in obstacles || (snowball.0 + 1, snowball.1) in obstacles)
  {
    var left := (snowball.0 - 1, snowball.1);
    var right := (snowball.0 + 1, snowball.1);
    var top := (snowball.0, snowball.1 - 1);
    var bottom := (snowball.0, snowball.1 + 1);
    if top in obstacles && left in obstacles then true
    else if top in obstacles && right in obstacles then true
    else if bottom in obstacles && left in obstacles then true
    else if bottom in obstacles && right in obstacles then true
    else false
  }

  /**
    Two obstacles already make a snowball stuck when they form a corner, and two
    opposite ones never do: the test is a corner test, not a count above two.
  */
  lemma ObstacleCheckCorners(b: Pos)
    ensures ObstacleCheck(b, {(b.0, b.1 - 1), (b.0 - 1, b.1)})
    ensures !ObstacleCheck(b, {(b.0, b.1 - 1), (b.0, b.1 + 1)})
    ensures !ObstacleCheck(b, {(b.0 - 1, b.1), (b.0 + 1, b.1)})
  {
    assert (b.0 - 1, b.1) != (b.0, b.1 - 1);
    assert (b.0 + 1, b.1) !in {(b.0, b.1 - 1), (b.0, b.1 + 1)};
    assert (b.0, b.1 - 1) !in {(b.0 - 1, b.1), (b.0 + 1, b.1)};
  }

  // ---------------------------------------------------------------- robot_to_target

  /** The size combinations robot_to_target recognises, by flag number. */
  function Possibilities(i: nat): seq<int>
    requires i < 5
  {
    [[0, 1, 2], [0, 4], [1, 5], [2, 3], [6]][i]
  }

  /** The order in which the sizes are tried once a snowball is at the destination. */
  const Priority: seq<int> := [0, 3, 4, 5, 1, 2, 6]

  /** Every snowball size is one of allowed. */
  predicate AllIn(balls: seq<(Pos, int)>, allowed: seq<int>) {
    forall k :: 0 <= k < |balls| ==> balls[k].1 in allowed
  }

  /** Some snowball is at the destination. */
  predicate AtDest(balls: seq<(Pos, int)>, dest: Pos) {
    exists k :: 0 <= k < |balls| && balls[k].0 == dest
  }

  /** The combo dictionary: each size mapped to the position of the last snowball of that size. */
  function Combo(balls: seq<(Pos, int)>): map<int, Pos> {
    if balls == [] then map[]
    else
      var last := balls[|balls| - 1];
      Combo(balls[..|balls| - 1])[last.1 := last.0]
  }

  /** A size is a key of combo exactly when some snowball has it; its position is that of the last such snowball. */
  lemma {:induction false} ComboMeaning(balls: seq<(Pos, int)>, size: int)
    ensures size in Combo(balls) <==> exists k :: 0 <= k < |balls| && balls[k].1 == size
    ensures size in Combo(balls) ==>
      exists k :: 0 <= k < |balls| && balls[k] == (Combo(balls)[size], size) &&
        (forall k' :: k < k' < |balls| ==> balls[k'].1 != size)
  {
    if balls != [] {
      var init := balls[..|balls| - 1];
      ComboMeaning(init, size);
      assert forall k :: 0 <= k < |init| ==> init[k] == balls[k];
    }
  }

  /** The combo key robot_to_target looks up when no snowball is at the destination. */
  function ComboKey(balls: seq<(Pos, int)>): int {
    if AllIn(balls, Possibilities(0)) || AllIn(balls, Possibilities(1)) then 0
    else if AllIn(balls, Possibilities(2)) then 5
    else if AllIn(balls, Possibilities(3)) then 3
    else 6
  }

  /** Snowball k has size Priority[m] and is not at the destination. */
  predicate Candidate(balls: seq<(Pos, int)>, dest: Pos, m: nat, k: nat)
    requires m < |Priority| && k < |balls|
  {
    balls[k].1 == Priority[m] && balls[k].0 != dest
  }

  /** The position of the first snowball from index j on with size Priority[m] that is not at the destination. */
  function FirstFrom(balls: seq<(Pos, int)>, dest: Pos, m: nat, j: nat): Option<Pos>
    requires m < |Priority|
    decreases |balls| - j
  {
    if j >= |balls| then None
    else if Candidate(balls, dest, m, j) then Some(balls[j].0)
    else FirstFrom(balls, dest, m, j + 1)
  }

  /** The target the priority loop settles on, trying priorities m .. 5. */
  function Target(balls: seq<(Pos, int)>, dest: Pos, m: nat): Option<Pos>
    requires m <= 6
    decreases 6 - m
  {
    if m == 6 then None
    else match FirstFrom(balls, dest, m, 0)
      case Some(p) => Some(p)
      case None => Target(balls, dest, m + 1)
  }

  /** What robot_to_target returns; None where the combo lookup raises KeyError. */
  function RobotToTargetOf(state: State): Option<int> {
    var balls := state.snowballs;
    if !AtDest(balls, state.destination) then
      var key := ComboKey(balls);
      var combo := Combo(balls);
      if key in combo then Some(Dist(state.robot, combo[key])) else None
    else
      match Target(balls, state.destination, 0)
        case Some(p) => Some(Dist(state.robot, p))
        case None => Some(0)
  }

  lemma {:induction false} FirstFromMeaning(balls: seq<(Pos, int)>, dest: Pos, m: nat, j: nat)
    requires m < |Priority|
    ensures FirstFrom(balls, dest, m, j).None? <==> forall k :: j <= k < |balls| ==> !Candidate(balls, dest, m, k)
    ensures FirstFrom(balls, dest, m, j).Some? ==>
      exists k :: j <= k < |balls| && Candidate(balls, dest, m, k) && balls[k].0 == FirstFrom(balls, dest, m, j).value &&
        forall k' :: j <= k' < k ==> !Candidate(balls, dest, m, k')
    decreases |balls| - j
  {
    if j >= |balls| {
    } else if Candidate(balls, dest, m, j) {
      assert FirstFrom(balls, dest, m, j) == Some(balls[j].0);
    } else {
      assert FirstFrom(balls, dest, m, j) == FirstFrom(balls, dest, m, j + 1);
      FirstFromMeaning(balls, dest, m, j + 1);
    }
  }

  /**
    With a snowball at the destination the robot heads for the first snowball, in
    iteration order, of the first size in the priority order 0, 3, 4, 5, 1, 2 that has
    one off the destination; size 6 is never a target.
  */
  lemma {:induction false} TargetMeaning(balls: seq<(Pos, int)>, dest: Pos, m: nat)
    requires m <= 6
    ensures Target(balls, dest, m).None? <==>
      forall m', k :: m <= m' < 6 && 0 <= k < |balls| ==> !Candidate(balls, dest, m', k)
    ensures Target(balls, dest, m).Some? ==>
      exists m', k :: m <= m' < 6 && 0 <= k < |balls| && Candidate(balls, dest, m', k) &&
        balls[k].0 == Target(balls, dest, m).value && balls[k].1 != 6 &&
        (forall m'', k' :: m <= m'' < m' && 0 <= k' < |balls| ==> !Candidate(balls, dest, m'', k')) &&
        (forall k' :: 0 <= k' < k ==> !Candidate(balls, dest, m', k'))
    decreases 6 - m
  {
    if m < 6 {
      FirstFromMeaning(balls, dest, m, 0);
      TargetMeaning(balls, dest, m + 1);
    }
  }

  /** With a snowball at the destination and only complete snowmen elsewhere, the robot distance is 0. */
  lemma SizeSixIgnored(state: State)
    requires AtDest(state.snowballs, state.destination)
    requires forall k :: 0 <= k < |state.snowballs| && state.snowballs[k].0 != state.destination ==> state.snowballs[k].1 == 6
    ensures RobotToTargetOf(state) == Some(0)
  {
    TargetMeaning(state.snowballs, state.destination, 0);
  }

  /**
    With no snowball at the destination the robot heads for the last snowball of the
    combo's key size, and the lookup fails exactly when no snowball has that size.
  */
  lemma NoneAtDestination(state: State)
    requires !AtDest(state.snowballs, state.destination)
    ensures var key := ComboKey(state.snowballs);
      RobotToTargetOf(state).None? <==> forall k :: 0 <= k < |state.snowballs| ==> state.snowballs[k].1 != key
    ensures var key := ComboKey(state.snowballs);
      RobotToTargetOf(state).Some? ==>
        exists k :: 0 <= k < |state.snowballs| && state.snowballs[k].1 == key &&
          RobotToTargetOf(state).value == Dist(state.robot, state.snowballs[k].0) &&
          forall k' :: k < k' < |state.snowballs| ==> state.snowballs[k'].1 != key
  {
    ComboMeaning(state.snowballs, ComboKey(state.snowballs));
  }

  /** A prefix of the snowballs keeps a combination exactly when it did before and the next size is in it. */
  lemma AllInStep(balls: seq<(Pos, int)>, k: nat, allowed: seq<int>)
    requires k < |balls|
    ensures AllIn(balls[..k + 1], allowed) <==> AllIn(balls[..k], allowed) && balls[k].1 in allowed
  {
    assert forall j :: 0 <= j < k ==> balls[..k + 1][j] == balls[..k][j];
  }

  /** The inner loop of the flag pass: clear every flag whose combination lacks size. */
  method UpdateFlags(flag0: seq<bool>, size: int) returns (flag: seq<bool>)
    requires |flag0| == 5
    ensures |flag| == 5 && forall i :: 0 <= i < 5 ==> (flag[i] <==> flag0[i] && size in Possibilities(i))
  {
    flag := flag0;
    for i := 0 to 5
      invariant |flag| == 5
      invariant forall i' :: 0 <= i' < i ==> (flag[i'] <==> flag0[i'] && size in Possibilities(i'))
      invariant forall i' :: i <= i' < 5 ==> flag[i'] == flag0[i']
    {
      if size !in Possibilities(i) {
        flag := flag[i := false];
      }
    }
  }

  /** The flag and combo pass of robot_to_target over the snowballs. */
  method ScanCombos(state: State) returns (flag: seq<bool>, combo: map<int, Pos>, noneAtDestination: bool)
    ensures |flag| == 5 && forall i :: 0 <= i < 5 ==> flag[i] == AllIn(state.snowballs, Possibilities(i))
    ensures combo == Combo(state.snowballs)
    ensures noneAtDestination == !AtDest(state.snowballs, state.destination)
  {
    var balls := state.snowballs;
    flag := [true, true, true, true, true];
    combo := map[];
    noneAtDestination := true;
    for k := 0 to |balls|
      invariant |flag| == 5 && forall i :: 0 <= i < 5 ==> flag[i] == AllIn(balls[..k], Possibilities(i))
      invariant combo == Combo(balls[..k])
      invariant noneAtDestination == !AtDest(balls[..k], state.destination)
    {
      assert balls[..k + 1][..k] == balls[..k];
      assert balls[..k + 1][k] == balls[k];
      var (pos, size) := balls[k];
      combo := combo[size := pos];
      if state.destination == pos {
        noneAtDestination := false;
      }
      forall i | 0 <= i < 5
        ensures AllIn(balls[..k + 1], Possibilities(i)) <==> AllIn(balls[..k], Possibilities(i)) && size in Possibilities(i)
      {
        AllInStep(balls, k, Possibilities(i));
      }
      flag := UpdateFlags(flag, size);
    }
    assert balls[..|balls|] == balls;
  }

  /** The inner loop of the priority walk: the first candidate of priority m. */
  method FindFirst(state: State, m: nat) returns (r: Option<Pos>)
    requires m < 6
    ensures r == FirstFrom(state.snowballs, state.destination, m, 0)
  {
    var priority := [0, 3, 4, 5, 1, 2, 6];
    for j := 0 to |state.snowballs|
      invariant FirstFrom(state.snowballs, state.destination, m, 0) == FirstFrom(state.snowballs, state.destination, m, j)
    {
      var (pos, size) := state.snowballs[j];
      if size == priority[m] && pos != state.destination {
        return Some(pos);
      }
    }
    return None;
  }

  /** robot_to_target: the robot's distance to the next snowball to move; None where the combo lookup fails. */
  method RobotToTarget(state: State) returns (r: Option<int>)
    ensures r == RobotToTargetOf(state)
  {
    var flag, combo, noneAtDestination := ScanCombos(state);
    if noneAtDestination {
      var key;
      if flag[0] || flag[1] {
        key := 0;
      } else if flag[2] {
        key := 5;
      } else if flag[3] {
        key := 3;
      } else {
        key := 6;
      }
      if key !in combo {
        return None;
      }
      var p := combo[key];
      return Some(Abs(state.robot.0 - p.0) + Abs(state.robot.1 - p.1));
    } else {
      var i := 0;
      while i < 6
        invariant 0 <= i <= 6
        invariant Target(state.snowballs, state.destination, 0) == Target(state.snowballs, state.destination, i)
      {
        var found := FindFirst(state, i);
        if found.Some? {
          var p := found.value;
          return Some(Abs(state.robot.0 - p.0) + Abs(state.robot.1 - p.1));
        }
        i := i + 1;
      }
      return Some(0);
    }
  }

  // ---------------------------------------------------------------- heur_alternate

  /** Snowball k is off the destination and stuck on an edge or in a corner of obstacles. */
  predicate Dead(state: State, k: nat)
    requires k < |state.snowballs|
  {
    var pos := state.snowballs[k].0;
    pos != state.destination &&
    (EdgeCheck(pos, state.destination, state.width, state.height) || ObstacleCheck(pos, state.obstacles))
  }

  /** The value heur_alternate returns; None where robot_to_target raises KeyError. */
  function HeurAlternateOf(state: State): Option<Estimate> {
    if exists k :: 0 <= k < |state.snowballs| && Dead(state, k) then Some(Infinite)
    else match RobotToTargetOf(state)
      case None => None
      case Some(d) => Some(Finite(WeightedDistance(state.snowballs, state.destination) + d))
  }

  /**
    The alternate estimate is infinite exactly when some snowball is dead; otherwise,
    when defined, it never falls below the weighted Manhattan distance.
  */
  lemma HeurAlternateMeaning(state: State)
    ensures HeurAlternateOf(state) == Some(Infinite) <==> exists k :: 0 <= k < |state.snowballs| && Dead(state, k)
    ensures HeurAlternateOf(state).Some? && HeurAlternateOf(state).value.Finite? ==>
      HeurAlternateOf(state).value.value >= WeightedDistance(state.snowballs, state.destination) >= 0
  {
    WeightedDistanceZero(state.snowballs, state.destination);
  }

  /** heur_alternate: infinite for a dead snowball, else the weighted distance plus the robot's distance. */
  method HeurAlternate(state: State) returns (r: Option<Estimate>)
    ensures r == HeurAlternateOf(state)
  {
    var balls := state.snowballs;
    var totalDis := 0;
    for k := 0 to |balls|
      invariant forall k' :: 0 <= k' < k ==> !Dead(state, k')
      invariant totalDis == WeightedDistance(balls[..k], state.destination)
    {
      assert balls[..k + 1][..k] == balls[..k];
      var (pos, size) := balls[k];
      if pos == state.destination {
        totalDis := totalDis + 0;
      } else {
        if EdgeCheck(pos, state.destination, state.width, state.height) {
          assert Dead(state, k);
          return Some(Infinite);
        }
        if ObstacleCheck(pos, state.obstacles) {
          assert Dead(state, k);
          return Some(Infinite);
        }
      }
      var distance := Abs(pos.0 - state.destination.0) + Abs(pos.1 - state.destination.1);
      if size == 0 || size == 1 || size == 2 {
        totalDis := totalDis + distance;
      } else if size == 3 || size == 4 || size == 5 {
        totalDis := totalDis + 2 * distance;
      } else {
        totalDis := totalDis + 3 * distance;
      }
    }
    assert balls[..|balls|] == balls;
    var robot := RobotToTarget(state);
    if robot.None? {
      return None;
    }
    return Some(Finite(totalDis + robot.value));
  }
}
