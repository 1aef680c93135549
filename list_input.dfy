/**
 * Keyboard navigation through a list whose entries may be disabled
 * (`ui/hooks/use-list-input.ts`). The list is given by the `disabled` flags
 * of its values, in order, and the active value by its index in that list.
 */
module ListInput {
  import opened Wrappers

  /** Which key was pressed: one the `minus` matcher accepts, or one `plus` accepts. */
  datatype Direction = Minus | Plus

  /** Euclidean remainder of a value below twice the divisor. */
  lemma ModOnce(x: int, m: int)
    requires 0 < m && 0 <= x < 2 * m
    ensures x % m == if x < m then x else x - m
  {
    var q, r := x / m, x % m;
    assert x == m * q + r && 0 <= r < m;
    assert -m < m * q < 2 * m;
    assert 0 <= q <= 1;
  }

  /** One iteration of a do-while loop: back or forward by one, wrapping around. */
  function Step(len: nat, i: nat, dir: Direction): (r: nat)
    requires i < len
    ensures r < len
    ensures dir.Plus? ==> r == if i + 1 == len then 0 else i + 1
    ensures dir.Minus? ==> r == if i == 0 then len - 1 else i - 1
  {
    match dir
    case Minus => ModOnce(len + i - 1, len); (len + i - 1) % len
    case Plus => ModOnce(i + 1, len); (i + 1) % len
  }

  /** Where `k` iterations starting from `index` lead. */
  function Walk(len: nat, index: nat, dir: Direction, k: nat): (r: nat)
    requires index < len
    ensures r < len
  {
    if k == 0 then index else Step(len, Walk(len, index, dir, k - 1), dir)
  }

  /** The walk in closed form, for at most one round. */
  lemma {:induction false} WalkClosed(len: nat, index: nat, dir: Direction, k: nat)
    requires index < len && k <= len
    ensures dir.Plus? ==> Walk(len, index, dir, k) == if index + k < len then index + k else index + k - len
    ensures dir.Minus? ==> Walk(len, index, dir, k) == if k <= index then index - k else index - k + len
  {
    if k > 0 {
      WalkClosed(len, index, dir, k - 1);
    }
  }

  /** A full round returns to the start, and no shorter walk does. */
  lemma WalkRound(len: nat, index: nat, dir: Direction, k: nat)
    requires index < len && 0 < k <= len
    ensures Walk(len, index, dir, k) == index <==> k == len
  {
    WalkClosed(len, index, dir, k);
  }

  /** Every other entry is reached within one round. */
  lemma WalkCovers(len: nat, index: nat, dir: Direction, j: nat) returns (k: nat)
    requires index < len && j < len && j != index
    ensures 0 < k < len && Walk(len, index, dir, k) == j
  {
    k := match dir
      case Plus => if j > index then j - index else j + len - index
      case Minus => if j < index then index - j else index + len - j;
    WalkClosed(len, index, dir, k);
    assert Walk(len, index, dir, k) == j;
  }

  /** The do-while condition no longer holds: an enabled entry, or back at the start. */
  predicate Stops(disabled: seq<bool>, index: nat, dir: Direction, k: nat)
    requires index < |disabled|
  {
    var i := Walk(|disabled|, index, dir, k);
    !disabled[i] || i == index
  }

  /**
   * How many iterations the do-while loop runs: the first `k`, from `from` on,
   * at which it stops, which happens within one round.
   */
  function Iterations(disabled: seq<bool>, index: nat, dir: Direction, from: nat): (k: nat)
    requires index < |disabled| && 0 < from <= |disabled|
    requires forall j :: 0 < j < from ==> !Stops(disabled, index, dir, j)
    ensures from <= k <= |disabled|
    ensures Stops(disabled, index, dir, k)
    ensures forall j :: 0 < j < k ==> !Stops(disabled, index, dir, j)
    decreases |disabled| - from
  {
    if Stops(disabled, index, dir, from) then from
    else
      WalkRound(|disabled|, index, dir, from);
      Iterations(disabled, index, dir, from + 1)
  }

  /** Where one key press leads: the reference the loop is proved against. A move that leaves the start lands on an enabled entry. */
  function Target(disabled: seq<bool>, index: nat, dir: Direction): (r: nat)
    requires index < |disabled|
    ensures r < |disabled|
    ensures r != index ==> !disabled[r]
  {
    Walk(|disabled|, index, dir, Iterations(disabled, index, dir, 1))
  }

  /** The selection stays where it is exactly when every other entry is disabled. */
  lemma {:induction false} TargetStays(disabled: seq<bool>, index: nat, dir: Direction)
    requires index < |disabled|
    ensures Target(disabled, index, dir) == index <==> forall j :: 0 <= j < |disabled| && j != index ==> disabled[j]
  {
    var n := Iterations(disabled, index, dir, 1);
    if Target(disabled, index, dir) == index {
      forall j | 0 <= j < |disabled| && j != index ensures disabled[j] {
        var k := WalkCovers(|disabled|, index, dir, j);
        WalkRound(|disabled|, index, dir, n);
        assert !Stops(disabled, index, dir, k);
      }
    } else {
      assert !disabled[Target(disabled, index, dir)];
    }
  }

  /** Every entry passed over on the way to the target is disabled. */
  lemma SkipsOnlyDisabled(disabled: seq<bool>, index: nat, dir: Direction, k: nat)
    requires index < |disabled|
    requires 0 < k < Iterations(disabled, index, dir, 1)
    ensures disabled[Walk(|disabled|, index, dir, k)]
  {
    assert !Stops(disabled, index, dir, k);
  }

  /** Where `k` iterations lead from index -1, which steps like the last index. */
  function Seen(disabled: seq<bool>, dir: Direction, k: nat): (r: nat)
    requires |disabled| > 0
    ensures r < |disabled|
  {
    Walk(|disabled|, |disabled| - 1, dir, k)
  }

  /** The entries the walk from index -1 meets in its first `from - 1` steps are all disabled. */
  predicate PassedDisabled(disabled: seq<bool>, dir: Direction, from: nat)
    requires |disabled| > 0
  {
    forall j :: 0 < j < from ==> disabled[Seen(disabled, dir, j)]
  }

  /**
   * How many iterations the do-while loop runs when the value is not in the
   * list (index -1, which steps like the last index but is never met again):
   * the first `k`, from `from` on, that reaches an enabled entry.
   */
  function EnabledIterations(disabled: seq<bool>, dir: Direction, from: nat): (k: nat)
    requires 0 < from <= |disabled|
    requires exists j :: 0 <= j < |disabled| && !disabled[j]
    requires PassedDisabled(disabled, dir, from)
    ensures from <= k <= |disabled|
    ensures !disabled[Seen(disabled, dir, k)]
    ensures PassedDisabled(disabled, dir, k)
    decreases |disabled| - from
  {
    if !disabled[Seen(disabled, dir, from)] then from
    else
      EnabledWithinRound(disabled, dir, from);
      EnabledIterations(disabled, dir, from + 1)
  }

  /** Some entry is enabled, so the walk meets one within a round. */
  lemma EnabledWithinRound(disabled: seq<bool>, dir: Direction, from: nat)
    requires 0 < from <= |disabled|
    requires exists j :: 0 <= j < |disabled| && !disabled[j]
    requires PassedDisabled(disabled, dir, from)
    requires disabled[Seen(disabled, dir, from)]
    ensures from < |disabled|
  {
    var len := |disabled|;
    var j :| 0 <= j < len && !disabled[j];
    if j == len - 1 {
      WalkRound(len, len - 1, dir, len);
      assert from != len;
    } else {
      var k := WalkCovers(len, len - 1, dir, j);
      assert Seen(disabled, dir, k) == j;
    }
  }

  /** Where a key press leads when the value is not in the list: the first enabled entry the walk meets. */
  function EnabledTarget(disabled: seq<bool>, dir: Direction): (r: nat)
    requires |disabled| > 0
    requires exists j :: 0 <= j < |disabled| && !disabled[j]
    ensures r < |disabled| && !disabled[r]
  {
    Seen(disabled, dir, EnabledIterations(disabled, dir, 1))
  }

  /** Going forward from a value not in the list selects the first enabled entry. */
  lemma EnabledTargetPlus(disabled: seq<bool>)
    requires exists j :: 0 <= j < |disabled| && !disabled[j]
    ensures var r := EnabledTarget(disabled, Plus);
      forall j :: 0 <= j < r ==> disabled[j]
  {
    var len := |disabled|;
    var k := EnabledIterations(disabled, Plus, 1);
    WalkClosed(len, len - 1, Plus, k);
    forall j | 0 <= j < EnabledTarget(disabled, Plus) ensures disabled[j] {
      WalkClosed(len, len - 1, Plus, j + 1);
      assert Seen(disabled, Plus, j + 1) == j;
    }
  }

  /** `values[NaN].disabled` on an empty list. */
  const EmptyListError := "TypeError: Cannot read properties of undefined (reading 'disabled')"

  /** The do-while loop over a list with no enabled entry, from a value not in it, never ends. */
  const EndlessLoop := "the do-while loop never ends"

  /**
   * Lines 23-40, the input handler, for the `indexOf` of the value (-1 when
   * it is not in the list): `minus` is tried before `plus`; the do-while loop
   * steps until it reaches an enabled entry or the start; the new entry is
   * reported only when it differs from the old one. On an empty list a key
   * press reads `values[NaN]` and throws; from a value not in the list the
   * start is never met again, so the loop runs to the first enabled entry,
   * and without one it never ends.
   */
  method HandleInput(disabled: seq<bool>, index: int, minus: bool, plus: bool) returns (r: Result<Option<nat>>)
    requires -1 <= index < |disabled|
    ensures !minus && !plus ==> r == Success(None)
    ensures (minus || plus) && |disabled| == 0 ==> r == Failure(EmptyListError)
    ensures 0 <= index && minus ==> r == Success(Reported(index, Target(disabled, index, Minus)))
    ensures 0 <= index && !minus && plus ==> r == Success(Reported(index, Target(disabled, index, Plus)))
    ensures index == -1 && (minus || plus) && |disabled| > 0 ==>
      (r.Success? <==> exists j :: 0 <= j < |disabled| && !disabled[j]) &&
      (r.Failure? ==> r.error == EndlessLoop)
    ensures index == -1 && (minus || plus) && (exists j :: 0 <= j < |disabled| && !disabled[j]) ==>
      r == Success(Some(EnabledTarget(disabled, if minus then Minus else Plus)))
    ensures r.Success? && r.value.Some? ==> r.value.value != index && r.value.value < |disabled| && !disabled[r.value.value]
  {
    if !minus && !plus {
      return Success(None);
    }
    var dir := if minus then Minus else Plus;
    if |disabled| == 0 {
      return Failure(EmptyListError);
    }
    if index == -1 {
      if forall j | 0 <= j < |disabled| :: disabled[j] {
        return Failure(EndlessLoop);
      }
      var newIndex := SearchLoop(disabled, dir);
      return Success(Some(newIndex));
    }
    var newIndex := Loop(disabled, index, dir);
    return Success(Reported(index, newIndex));
  }

  /** `onChange` is called only on a new index. */
  function Reported(index: nat, target: nat): Option<nat> {
    if target != index then Some(target) else None
  }

  /** Lines 28-30 or 32-34: one do-while loop. */
  method Loop(disabled: seq<bool>, index: nat, dir: Direction) returns (newIndex: nat)
    requires index < |disabled|
    ensures newIndex == Target(disabled, index, dir)
  {
    var len := |disabled|;
    ghost var steps: nat := 1;
    newIndex := match dir
      case Minus => (len + index - 1) % len
      case Plus => (index + 1) % len;
    while disabled[newIndex] && newIndex != index
      invariant 0 < steps <= len
      invariant newIndex == Walk(len, index, dir, steps)
      invariant forall j :: 0 < j < steps ==> !Stops(disabled, index, dir, j)
      decreases len - steps
    {
      WalkRound(len, index, dir, steps);
      newIndex := match dir
        case Minus => (len + newIndex - 1) % len
        case Plus => (newIndex + 1) % len;
      steps := steps + 1;
    }
    assert Stops(disabled, index, dir, steps);
    var n := Iterations(disabled, index, dir, 1);
    assert !(steps < n) && !(n < steps);
  }

  /** The do-while loop from index -1, which no step meets again. */
  method SearchLoop(disabled: seq<bool>, dir: Direction) returns (newIndex: nat)
    requires |disabled| > 0
    requires exists j :: 0 <= j < |disabled| && !disabled[j]
    ensures newIndex == EnabledTarget(disabled, dir)
  {
    var len := |disabled|;
    var index := -1;
    ghost var n := EnabledIterations(disabled, dir, 1);
    ghost var steps: nat := 1;
    FirstStepFromNowhere(len, dir);
    newIndex := match dir
      case Minus => (len + index - 1) % len
      case Plus => (index + 1) % len;
    while disabled[newIndex]
      invariant 0 < steps <= n
      invariant newIndex == Seen(disabled, dir, steps)
      invariant PassedDisabled(disabled, dir, steps)
      decreases len - steps
    {
      assert steps != n;
      ghost var prev := newIndex;
      newIndex := match dir
        case Minus => (len + newIndex - 1) % len
        case Plus => (newIndex + 1) % len;
      assert newIndex == Step(len, prev, dir);
      steps := steps + 1;
    }
    assert !(steps < n) && !(n < steps);
  }

  /** From index -1 the first step lands where it would from the last index. */
  lemma FirstStepFromNowhere(len: nat, dir: Direction)
    requires len > 0
    ensures (match dir case Minus => (len - 2) % len case Plus => 0 % len) == Walk(len, len - 1, dir, 1)
  {
    if len >= 2 {
      ModOnce(len - 2, len);
    }
  }
}
