/** The vertices' contents: actions, as far as the planner looks at them. */
module Actions {

  import opened Reachability

  type Sid = nat

  /**
   * The action classes the planner distinguishes.  A Mount is also a Create and an Unmount is also a
   * Delete, as in the class hierarchy; every other class derives from Modify.
   * `path` is the rootprefixed path, `atRoot` says that the plain path is "/"; `enables` says that the quota
   * of the btrfs is on in staging.
   */
  datatype Kind =
    | Create
    | Delete
    | Mount(path: string, atRoot: bool, swap: bool)
    | Unmount(path: string, swap: bool)
    | SetQuota(enables: bool)
    | Modify
  {
    predicate IsCreate() { Create? || Mount? }
    predicate IsDelete() { Delete? || Unmount? }
    predicate IsMountOrUnmount() { Mount? || Unmount? }
  }

  /** sid is meaningful when affectsDevice holds; otherwise the action affects a holder. */
  datatype Action = Action(
    kind: Kind, affectsDevice: bool, sid: Sid, onlySync: bool,
    first: bool, last: bool)
  {
    predicate IsSwapMount() { kind.Mount? && kind.swap }
  }

  /** The priorities set so far; an action starts with priority 0. */
  function PriorityOf(priorities: map<Vertex, int>, v: Vertex): int {
    if v in priorities then priorities[v] else 0
  }

  lemma MinusTwice(actions: map<Vertex, Action>, a: set<Vertex>, b: set<Vertex>)
    ensures (actions - a) - b == actions - (a + b)
  {
  }
}
