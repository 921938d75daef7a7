/** What survives a process kill and what survives a power loss.

    A directory holds the names already on disk and the operations queued since its last fsync.
    A kill loses nothing. A power loss keeps an arbitrary subset of the queued operations. */
module Durability {

  /** How a program, or one system call of it, ended: `Killed` is SIGKILL before the call took effect. */
  datatype Outcome<+R> = Done | Killed | Died(reason: R) {
    predicate IsFailure() { !Done? }

    function PropagateFailure(): Outcome<R>
      requires IsFailure()
    { this }
  }

  /** The system calls a process still makes before SIGKILL; `Forever` is an uninterrupted run. */
  datatype Life = Forever | Calls(left: nat) {
    function Spent(): (r: Life)
      requires this != Calls(0)
    { if Forever? then Forever else Calls(left - 1) }
  }

  datatype Op<N> = Insert(name: N, ino: nat) | Delete(name: N) | Rename(from: N, to: N, ino: nat)

  function Perform<N>(m: map<N, nat>, op: Op<N>): map<N, nat> {
    match op
    case Insert(name, ino) => m[name := ino]
    case Delete(name) => m - {name}
    case Rename(from, to, ino) => (m - {from})[to := ino]
  }

  function Replay<N>(m: map<N, nat>, ops: seq<Op<N>>): map<N, nat> {
    if ops == [] then m else Perform(Replay(m, ops[..|ops| - 1]), ops[|ops| - 1])
  }

  /** The names left when operation `i` reached the disk exactly if `kept[i]`. */
  function Keep<N>(m: map<N, nat>, ops: seq<Op<N>>, kept: seq<bool>): map<N, nat>
    requires |kept| == |ops|
    decreases |ops|
  {
    if ops == [] then m else
      var before := Keep(m, ops[..|ops| - 1], kept[..|ops| - 1]);
      if kept[|ops| - 1] then Perform(before, ops[|ops| - 1]) else before
  }

  ghost function Survivors<N>(m: map<N, nat>, ops: seq<Op<N>>): set<map<N, nat>> {
    if ops == [] then {m} else
      var before := Survivors(m, ops[..|ops| - 1]);
      before + set v | v in before :: Perform(v, ops[|ops| - 1])
  }

  datatype Directory<N> = Directory(durable: map<N, nat>, pending: seq<Op<N>>) {
    function Live(): map<N, nat> { Replay(durable, pending) }

    function Queue(op: Op<N>): Directory<N> { Directory(durable, pending + [op]) }

    function Synced(): Directory<N> { Directory(Live(), []) }

    ghost function AfterPowerLoss(): set<map<N, nat>> { Survivors(durable, pending) }
  }

  /** `Survivors` is exactly what dropping some subset of the queued operations can leave. */
  lemma {:induction false} SurvivorsAreSubsets<N>(m: map<N, nat>, ops: seq<Op<N>>, v: map<N, nat>)
    ensures v in Survivors(m, ops) <==> exists kept: seq<bool> :: |kept| == |ops| && v == Keep(m, ops, kept)
    decreases |ops|
  {
    if ops == [] {
      assert Keep(m, ops, []) == m;
    } else {
      var n := |ops| - 1;
      var init := ops[..n];
      if v in Survivors(m, ops) {
        var u, last :| u in Survivors(m, init) && v == if last then Perform(u, ops[n]) else u;
        SurvivorsAreSubsets(m, init, u);
        var kept: seq<bool> :| |kept| == |init| && u == Keep(m, init, kept);
        assert (kept + [last])[..n] == kept;
        assert v == Keep(m, ops, kept + [last]);
      }
      forall kept: seq<bool> | |kept| == |ops| && v == Keep(m, ops, kept)
        ensures v in Survivors(m, ops)
      {
        SurvivorsAreSubsets(m, init, Keep(m, init, kept[..n]));
      }
    }
  }

  lemma {:induction false} LiveSurvives<N>(d: Directory<N>)
    ensures d.Live() in d.AfterPowerLoss()
    decreases |d.pending|
  {
    if d.pending != [] {
      LiveSurvives(Directory(d.durable, d.pending[..|d.pending| - 1]));
    }
  }

  lemma QueueEffect<N>(d: Directory<N>, op: Op<N>)
    ensures d.Queue(op).Live() == Perform(d.Live(), op)
    ensures d.Queue(op).AfterPowerLoss()
         == d.AfterPowerLoss() + set v | v in d.AfterPowerLoss() :: Perform(v, op)
  {
    assert d.Queue(op).pending[..|d.pending|] == d.pending;
  }

  lemma QuietEffect<N>(d: Directory<N>)
    requires d.pending == []
    ensures d.Live() == d.durable
    ensures d.AfterPowerLoss() == {d.durable}
    ensures d.Synced() == d
  {
  }
}
