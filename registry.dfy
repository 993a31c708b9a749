/**
 * Building the registry from the ordered list of condition nodes: every node
 * is built in turn and its registrations are applied in order, a later
 * registration under an id replacing an earlier one.
 */
module ConditionRegistry {
  import opened Wrappers
  import opened Conditions
  import opened ConditionFactory

  /** `reg` after applying `entries` in order. */
  function Enter(reg: Registry, entries: seq<Entry>): Registry
    decreases |entries|
  {
    if entries == [] then reg
    else
      var last := entries[|entries| - 1];
      Enter(reg, entries[..|entries| - 1])[last.id := last.condition]
  }

  /** The position of the last of `entries` made under `id`, if any. */
  function LastIndex(entries: seq<Entry>, id: string): (r: Option<nat>)
    ensures r.Some? ==> r.value < |entries| && entries[r.value].id == id
    ensures r.Some? ==> forall j :: r.value < j < |entries| ==> entries[j].id != id
    ensures r.None? ==> forall j :: 0 <= j < |entries| ==> entries[j].id != id
    decreases |entries|
  {
    if entries == [] then None
    else if entries[|entries| - 1].id == id then Some(|entries| - 1)
    else LastIndex(entries[..|entries| - 1], id)
  }

  /**
   * The registry built from `nodes`, or the error of the first node that
   * cannot be built.
   */
  function Load(nodes: seq<Node>): Result<Registry, BuildError>
    decreases |nodes|
  {
    if nodes == [] then Success(map[])
    else
      match Load(nodes[..|nodes| - 1])
      case Failure(e) => Failure(e)
      case Success(reg) =>
        var last := nodes[|nodes| - 1];
        match Build(last)
        case Failure(e) => Failure(e)
        case Success(_) => Success(Enter(reg, Entries(last)))
  }

  /** All registrations loading `nodes` performs, in order. */
  function AllEntries(nodes: seq<Node>): seq<Entry>
    requires Load(nodes).Success?
    decreases |nodes|
  {
    if nodes == [] then []
    else AllEntries(nodes[..|nodes| - 1]) + Entries(nodes[|nodes| - 1])
  }

  /**
   * The registration pass: a loop over the nodes that builds each one and
   * stores its registrations in the map being built.
   */
  method BuildRegistry(nodes: seq<Node>) returns (r: Result<Registry, BuildError>)
    ensures r == Load(nodes)
  {
    var reg: Registry := map[];
    var i := 0;
    while i < |nodes|
      invariant 0 <= i <= |nodes|
      invariant Load(nodes[..i]) == Success(reg)
    {
      assert nodes[..i + 1][..i] == nodes[..i];
      var built := Build(nodes[i]);
      if built.Failure? {
        assert Load(nodes[..i + 1]) == Failure(built.error);
        LoadKeepsEarlyFailure(nodes, i + 1);
        return Failure(built.error);
      }
      reg := Register(reg, Entries(nodes[i]));
      i := i + 1;
    }
    assert nodes[..i] == nodes;
    return Success(reg);
  }

  /** Stores each of `entries` in turn, a later one replacing an earlier one with the same id. */
  method Register(reg: Registry, entries: seq<Entry>) returns (r: Registry)
    ensures r == Enter(reg, entries)
  {
    r := reg;
    var j := 0;
    while j < |entries|
      invariant 0 <= j <= |entries|
      invariant r == Enter(reg, entries[..j])
    {
      assert entries[..j + 1][..j] == entries[..j];
      r := r[entries[j].id := entries[j].condition];
      j := j + 1;
    }
    assert entries[..j] == entries;
  }

  /** Once a prefix of the nodes fails to load, so does the whole list, with the same error. */
  lemma {:induction false} LoadKeepsEarlyFailure(nodes: seq<Node>, k: nat)
    requires k <= |nodes|
    requires Load(nodes[..k]).Failure?
    ensures Load(nodes) == Load(nodes[..k])
    decreases |nodes| - k
  {
    if k < |nodes| {
      assert nodes[..k + 1][..k] == nodes[..k];
      LoadKeepsEarlyFailure(nodes, k + 1);
    } else {
      assert nodes[..k] == nodes;
    }
  }

  /** Applying registrations in order leaves each id with its last registration. */
  lemma {:induction false} EnterKeepsLast(reg: Registry, entries: seq<Entry>, id: string)
    ensures LastIndex(entries, id).Some? ==>
              id in Enter(reg, entries) && Enter(reg, entries)[id] == entries[LastIndex(entries, id).value].condition
    ensures LastIndex(entries, id).None? ==> (id in Enter(reg, entries) <==> id in reg)
    ensures LastIndex(entries, id).None? && id in reg ==> Enter(reg, entries)[id] == reg[id]
    decreases |entries|
  {
    if entries != [] {
      EnterKeepsLast(reg, entries[..|entries| - 1], id);
    }
  }

  /** A successful load is the empty registry with all its registrations applied. */
  lemma {:induction false} LoadIsEnterAll(nodes: seq<Node>)
    requires Load(nodes).Success?
    ensures Load(nodes).value == Enter(map[], AllEntries(nodes))
    decreases |nodes|
  {
    if nodes != [] {
      var prefix := nodes[..|nodes| - 1];
      LoadIsEnterAll(prefix);
      EnterAppend(map[], AllEntries(prefix), Entries(nodes[|nodes| - 1]));
    }
  }

  lemma {:induction false} EnterAppend(reg: Registry, first: seq<Entry>, second: seq<Entry>)
    ensures Enter(reg, first + second) == Enter(Enter(reg, first), second)
    decreases |second|
  {
    if second == [] {
      assert first + second == first;
    } else {
      var n := |second|;
      assert (first + second)[..|first + second| - 1] == first + second[..n - 1];
      EnterAppend(reg, first, second[..n - 1]);
    }
  }

  /**
   * Last write wins: after a successful load, an id is registered iff some
   * registration was made under it, and it holds the condition of the last
   * one. In particular the empty id is never registered.
   */
  lemma LoadLastWriteWins(nodes: seq<Node>, id: string)
    requires Load(nodes).Success?
    ensures id in Load(nodes).value <==> LastIndex(AllEntries(nodes), id).Some?
    ensures id in Load(nodes).value ==>
              Load(nodes).value[id] == AllEntries(nodes)[LastIndex(AllEntries(nodes), id).value].condition
    ensures id == "" ==> id !in Load(nodes).value
  {
    LoadIsEnterAll(nodes);
    EnterKeepsLast(map[], AllEntries(nodes), id);
    if id == "" {
      AllEntriesNamed(nodes);
    }
  }

  lemma {:induction false} AllEntriesNamed(nodes: seq<Node>)
    requires Load(nodes).Success?
    ensures forall k :: 0 <= k < |AllEntries(nodes)| ==> AllEntries(nodes)[k].id != ""
    decreases |nodes|
  {
    if nodes != [] {
      AllEntriesNamed(nodes[..|nodes| - 1]);
    }
  }

  /** Loading succeeds iff every node can be built. */
  lemma {:induction false} LoadSucceedsIffAllBuild(nodes: seq<Node>)
    ensures Load(nodes).Success? <==> forall k :: 0 <= k < |nodes| ==> Build(nodes[k]).Success?
    decreases |nodes|
  {
    if nodes != [] {
      var n := |nodes|;
      var prefix := nodes[..n - 1];
      LoadSucceedsIffAllBuild(prefix);
      assert forall k :: 0 <= k < n - 1 ==> prefix[k] == nodes[k];
      assert Load(nodes).Success? <==> Load(prefix).Success? && Build(nodes[n - 1]).Success?;
    }
  }

  /** A failed load reports the error of the first node that cannot be built. */
  lemma LoadFailsAtFirstBadNode(nodes: seq<Node>, k: nat)
    requires k < |nodes| && Build(nodes[k]).Failure?
    requires forall j :: 0 <= j < k ==> Build(nodes[j]).Success?
    ensures Load(nodes) == Failure(Build(nodes[k]).error)
  {
    var prefix := nodes[..k];
    assert forall j :: 0 <= j < k ==> prefix[j] == nodes[j];
    LoadSucceedsIffAllBuild(prefix);
    var upTo := nodes[..k + 1];
    assert upTo[..|upTo| - 1] == prefix && upTo[|upTo| - 1] == nodes[k];
    assert Load(upTo) == Failure(Build(nodes[k]).error);
    LoadKeepsEarlyFailure(nodes, k + 1);
  }
}
