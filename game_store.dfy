/**
 * The global game store: the current floor, starting at 1 and advanced one
 * at a time, and whether the pointer is locked.
 */
module GameStore {

  /** The two actions the store exposes. */
  datatype Action = NextFloor | SetIsPointerLocked(locked: bool)

  /** The store's state as a value. */
  datatype State = State(floor: int, isPointerLocked: bool)

  /** The state the store is created with. */
  const Initial: State := State(1, false)

  /** The effect of one action on the state. */
  function Apply(s: State, a: Action): (r: State)
    ensures s.floor <= r.floor <= s.floor + 1
    ensures r.floor == s.floor + 1 <==> a.NextFloor?
  {
    match a
    case NextFloor => s.(floor := s.floor + 1)
    case SetIsPointerLocked(locked) => s.(isPointerLocked := locked)
  }

  /** The state after performing `actions` in order from `s`. */
  function Run(s: State, actions: seq<Action>): (r: State)
    ensures s.floor <= r.floor <= s.floor + |actions|
    decreases |actions|
  {
    if actions == [] then s else Apply(Run(s, actions[..|actions| - 1]), actions[|actions| - 1])
  }

  /** The number of `NextFloor` actions in a sequence. */
  function CountNextFloor(actions: seq<Action>): (n: nat)
    decreases |actions|
  {
    if actions == [] then 0
    else CountNextFloor(actions[..|actions| - 1]) + (if actions[|actions| - 1].NextFloor? then 1 else 0)
  }

  /** The floor grows by exactly the number of `NextFloor` actions performed. */
  lemma {:induction false} RunFloor(s: State, actions: seq<Action>)
    ensures Run(s, actions).floor == s.floor + CountNextFloor(actions)
    decreases |actions|
  {
    if actions != [] {
      RunFloor(s, actions[..|actions| - 1]);
    }
  }

  /** Later in any sequence of actions the floor is never lower than earlier. */
  lemma {:induction false} FloorNeverDecreases(s: State, actions: seq<Action>, i: nat, j: nat)
    requires i <= j <= |actions|
    ensures Run(s, actions[..i]).floor <= Run(s, actions[..j]).floor
    decreases j - i
  {
    if i < j {
      FloorNeverDecreases(s, actions, i, j - 1);
      assert actions[..j][..j - 1] == actions[..j - 1];
    }
  }

  /** From the initial state the floor stays at least 1 under any sequence of actions. */
  lemma FloorAtLeastOne(actions: seq<Action>)
    ensures Run(Initial, actions).floor >= 1
  {
    RunFloor(Initial, actions);
  }

  /** After `n` `NextFloor` actions from the start the store is on floor `1 + n`, still unlocked. */
  lemma {:induction false} FloorsFromStart(n: nat)
    ensures Run(Initial, seq(n, _ => NextFloor)) == State(1 + n, false)
  {
    if n > 0 {
      FloorsFromStart(n - 1);
      assert seq(n, _ => NextFloor)[..n - 1] == seq(n - 1, _ => NextFloor);
    }
  }

  /** The store object: its two fields and the two actions that set them. */
  class Store {
    var floor: int
    var isPointerLocked: bool

    /** The state the fields hold. */
    function Snapshot(): (s: State)
      reads this
    {
      State(floor, isPointerLocked)
    }

    /** `create(...)`: floor 1, pointer not locked. */
    constructor ()
      ensures Snapshot() == Initial
      ensures floor == 1 && !isPointerLocked
    {
      floor := 1;
      isPointerLocked := false;
    }

    /** `nextFloor()`: one floor further; the lock flag is untouched. */
    method NextFloor()
      modifies this
      ensures floor == old(floor) + 1 && isPointerLocked == old(isPointerLocked)
      ensures Snapshot() == Apply(old(Snapshot()), Action.NextFloor)
    {
      floor := floor + 1;
    }

    /** `setIsPointerLocked(locked)`: sets the flag; the floor is untouched. */
    method SetIsPointerLocked(locked: bool)
      modifies this
      ensures isPointerLocked == locked && floor == old(floor)
      ensures Snapshot() == Apply(old(Snapshot()), Action.SetIsPointerLocked(locked))
    {
      isPointerLocked := locked;
    }
  }
}
