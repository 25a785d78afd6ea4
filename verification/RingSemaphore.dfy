/**
 * The binary semaphore that announces buffered items, as a protocol between any number of sending and
 * receiving tasks. Critical sections are single steps; taking and giving the semaphore happen outside them.
 */
module RingSemaphore {

  /** Where a task stands in `xRingbufferSend` or `prvReceiveGeneric`. */
  datatype Pc =
    | Outside        // before the call, waiting for a semaphore, or done
    | Copied         // a sender that has copied its item and not yet given the items semaphore
    | Holding        // a receiver that has taken the items semaphore and not yet checked
    | GivingBack     // a receiver that has retrieved, saw more items, and not yet given the semaphore back

  datatype State = State(waiting: nat, sem: bool, pcs: map<nat, Pc>)

  function Pcs(s: State, t: nat): Pc {
    if t in s.pcs then s.pcs[t] else Outside
  }

  datatype Action =
    | Copy(pieces: nat)   // critical section of the sender: one piece, or two for a divided item
    | Give                // the sender announces its item
    | Take                // a receiver obtains the semaphore
    | Retrieve(pieces: nat) // critical section of the receiver, an item being available
    | Miss                // critical section of the receiver, nothing available: it waits again or times out
    | GiveBack            // the receiver hands the token on

  ghost predicate Enabled(s: State, t: nat, a: Action) {
    match a
    case Copy(n) => Pcs(s, t) == Outside && 1 <= n <= 2
    case Give => Pcs(s, t) == Copied
    case Take => Pcs(s, t) == Outside && s.sem
    case Retrieve(n) => Pcs(s, t) == Holding && 1 <= n <= 2 && n <= s.waiting
    case Miss => Pcs(s, t) == Holding && s.waiting == 0
    case GiveBack => Pcs(s, t) == GivingBack
  }

  function Step(s: State, t: nat, a: Action): State {
    match a
    case Copy(n) => s.(waiting := s.waiting + n, pcs := s.pcs[t := Copied])
    case Give => s.(sem := true, pcs := s.pcs[t := Outside])
    case Take => s.(sem := false, pcs := s.pcs[t := Holding])
    case Retrieve(n) =>
      var left := if n <= s.waiting then s.waiting - n else 0;
      s.(waiting := left, pcs := s.pcs[t := if left > 0 then GivingBack else Outside])
    case Miss => s.(pcs := s.pcs[t := Outside])
    case GiveBack => s.(sem := true, pcs := s.pcs[t := Outside])
  }

  /** Either the token is there, or some task is bound to look at the items or to put the token back. */
  ghost predicate Awake(s: State) {
    s.sem || exists t :: Pcs(s, t) in {Copied, Holding, GivingBack}
  }

  ghost predicate Run(s: State, steps: seq<(nat, Action)>)
    decreases |steps|
  {
    steps == [] || (Enabled(s, steps[0].0, steps[0].1) && Run(Step(s, steps[0].0, steps[0].1), steps[1..]))
  }

  function After(s: State, steps: seq<(nat, Action)>): State
    decreases |steps|
  {
    if steps == [] then s else After(Step(s, steps[0].0, steps[0].1), steps[1..])
  }

  lemma StepAwake(s: State, t: nat, a: Action)
    requires Enabled(s, t, a) && (s.waiting > 0 ==> Awake(s))
    ensures Step(s, t, a).waiting > 0 ==> Awake(Step(s, t, a))
  {
    var r := Step(s, t, a);
    if r.waiting > 0 && !r.sem {
      assert Pcs(r, t) in {Copied, Holding, GivingBack};
    }
  }

  /** In every interleaving, items that wait are never forgotten. */
  lemma {:induction false} NoLostWakeUp(s: State, steps: seq<(nat, Action)>)
    requires Run(s, steps) && (s.waiting > 0 ==> Awake(s))
    ensures After(s, steps).waiting > 0 ==> Awake(After(s, steps))
    decreases |steps|
  {
    if steps != [] {
      StepAwake(s, steps[0].0, steps[0].1);
      NoLostWakeUp(Step(s, steps[0].0, steps[0].1), steps[1..]);
    }
  }

  /** From an idle buffer on: when every task has left the two functions, waiting items leave the token behind. */
  lemma QuiescentTokenSet(steps: seq<(nat, Action)>)
    requires Run(State(0, false, map[]), steps)
    ensures var r := After(State(0, false, map[]), steps);
      (forall t :: Pcs(r, t) == Outside) && r.waiting > 0 ==> r.sem
  {
    NoLostWakeUp(State(0, false, map[]), steps);
  }
}
