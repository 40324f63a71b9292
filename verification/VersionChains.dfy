/** The linked version chain of one key: insertion at the head, search, committing and in-place
    garbage collection. */
module VersionChains {
  import opened Collections
  import opened Deque
  import opened VersionLog

  class VersionNode<V> {
    const version: Version
    const value: Option<V>
    var status: VersionStatus
    var next: VersionNode?<V>

    constructor (version: Version, value: Option<V>, status: VersionStatus, next: VersionNode?<V>)
      ensures this.version == version && this.value == value && this.status == status && this.next == next
    {
      this.version, this.value, this.status, this.next := version, value, status, next;
    }

    function Entry(): Entry<V>
      reads this
    {
      VersionLog.Entry(version, value, status)
    }
  }

  class VersionChain<V> {
    var head: VersionNode?<V>
    var count: nat
    ghost var nodes: seq<VersionNode<V>>

    /** `nodes` lists the nodes from the head along the next pointers. */
    ghost predicate Valid()
      reads this, nodes
    {
      && count == |nodes|
      && head == At(0)
      && (forall i, j | 0 <= i && j == i + 1 && j < |nodes| :: nodes[i].next == nodes[j])
      && (nodes != [] ==> nodes[|nodes| - 1].next == null)
      && (forall i, j | 0 <= i < j < |nodes| :: nodes[i] != nodes[j])
    }

    ghost function At(i: nat): VersionNode?<V>
      reads this
    {
      if i < |nodes| then nodes[i] else null
    }

    ghost function Contents(): (es: Chain<V>)
      reads this, nodes
      ensures |es| == |nodes| && forall i | 0 <= i < |es| :: es[i] == nodes[i].Entry()
    {
      seq(|nodes|, i requires 0 <= i < |nodes| reads this, nodes => nodes[i].Entry())
    }

    constructor ()
      ensures Valid() && nodes == [] && Contents() == []
    {
      head, count, nodes := null, 0, [];
    }

    /** The part of Write done on the chain. */
    method Insert(version: Version, value: Option<V>)
      requires Valid()
      modifies this
      ensures Valid() && |nodes| == |old(nodes)| + 1 && nodes[1..] == old(nodes) && fresh(nodes[0])
      ensures Contents() == [VersionLog.Entry(version, value, Estimate)] + old(Contents())
    {
      var node := new VersionNode(version, value, Estimate, head);
      head := node;
      count := count + 1;
      nodes := [node] + nodes;
    }

    method FindVersion(txID: int) returns (r: ReadResult<V>)
      requires Valid()
      ensures r == VersionLog.FindVersion(Contents(), txID)
    {
      var node := head;
      ghost var i := 0;
      while node != null
        invariant 0 <= i <= |nodes| && node == At(i)
        invariant VersionLog.FindVersion(Contents(), txID) == VersionLog.FindVersion(Contents()[i..], txID)
        decreases |nodes| - i
      {
        assert Contents()[i..][0] == node.Entry() && Contents()[i..][1..] == Contents()[i + 1..];
        if node.version.txID < txID {
          match node.status
          case Committed => return ReadResult(Found, node.value, node.version, 0);
          case Estimate => return ReadResult(Estimated, node.value, node.version, node.version.txID);
          case Aborted =>
        }
        node := node.next;
        i := i + 1;
      }
      return Missing();
    }

    method MarkVersionAsCommitted(version: Version)
      requires Valid()
      modifies nodes
      ensures Valid() && nodes == old(nodes) && count == old(count)
      ensures Contents() == Mark(old(Contents()), version)
    {
      var node := head;
      ghost var i := 0;
      ghost var es := Contents();
      while node != null
        invariant 0 <= i <= |nodes| && node == At(i)
        invariant Valid() && nodes == old(nodes) && Contents() == es
        invariant forall j | 0 <= j < i :: nodes[j].version.Compare(version) != 0
        decreases |nodes| - i
      {
        if node.version.Compare(version) == 0 {
          break;
        }
        node := node.next;
        i := i + 1;
      }
      MarkAt(es, version, i);
      if node != null {
        node.status := Committed;
        assert forall j | 0 <= j < |nodes| && j != i :: nodes[j].Entry() == es[j];
      }
    }

    /** Takes the first node out of the chain. */
    method UnlinkHead(nextNode: VersionNode?<V>)
      requires Valid() && nodes != [] && nextNode == nodes[0].next
      modifies this
      ensures Valid() && nodes == old(nodes)[1..] && Contents() == Without(old(Contents()), 0)
      ensures |nodes| == |old(nodes)| - 1 && forall n | n in nodes :: n in old(nodes)
    {
      head := nextNode;
      count := count - 1;
      nodes := nodes[1..];
    }

    /** Takes the node behind `prev`, the k-th, out of the chain. */
    method UnlinkAfter(prev: VersionNode<V>, nextNode: VersionNode?<V>, ghost k: nat)
      requires Valid() && 0 < k < |nodes| && prev == nodes[k - 1] && nextNode == nodes[k].next
      modifies this, prev
      ensures Valid() && nodes == Without(old(nodes), k) && Contents() == Without(old(Contents()), k)
      ensures |nodes| == |old(nodes)| - 1 && forall n | n in nodes :: n in old(nodes)
    {
      ghost var was := nodes;
      assert nextNode == if k + 1 < |was| then was[k + 1] else null;
      prev.next := nextNode;
      count := count - 1;
      nodes := Without(nodes, k);
      hide Without;
      forall i | 0 <= i < |nodes| ensures nodes[i] == was[if i < k then i else i + 1] {}
      forall i, j | 0 <= i && j == i + 1 && j < |nodes| ensures nodes[i].next == nodes[j] {
        assert nodes[i] == was[if i < k then i else i + 1];
        if i >= k { assert was[i + 1].next == was[j + 1]; } else if j < k { assert was[i].next == was[j]; }
      }
    }

    /** A walk along the chain stands at the k-th node, `prev` being the one before it. */
    ghost predicate Cursor(prev: VersionNode?<V>, node: VersionNode?<V>, k: nat)
      reads this
    {
      k <= |nodes| && node == At(k) && prev == if k > 0 then nodes[k - 1] else null
    }

    lemma Advance(prev: VersionNode?<V>, node: VersionNode<V>, k: nat)
      requires Valid() && Cursor(prev, node, k)
      ensures k < |nodes| && node in nodes && (prev != null ==> prev in nodes)
      ensures Contents()[k].version == node.version && Contents()[k].status == node.status
      ensures Cursor(node, node.next, k + 1)
    {
      if k + 1 < |nodes| { assert nodes[k].next == nodes[k + 1]; }
    }

    lemma Start()
      requires Valid()
      ensures Cursor(null, head, 0)
    {}

    lemma Finish(prev: VersionNode?<V>, k: nat)
      requires Cursor(prev, null, k)
      ensures k == |nodes| == |Contents()|
    {}

    /** Takes the k-th node out of the chain. */
    method Unlink(prev: VersionNode?<V>, node: VersionNode<V>, nextNode: VersionNode?<V>, ghost k: nat)
      requires Valid() && Cursor(prev, node, k) && nextNode == node.next
      modifies this, prev
      ensures Valid() && Cursor(prev, nextNode, k)
      ensures |nodes| == |old(nodes)| - 1 && forall n | n in nodes :: n in old(nodes)
      ensures k < |old(Contents())| && Contents() == Without(old(Contents()), k)
    {
      if prev != null { UnlinkAfter(prev, nextNode, k); } else { UnlinkHead(nextNode); }
    }

    /** gcVersionChain: unlinks in place every node that is not kept. */
    method Gc(before: int) returns (freed: nat)
      requires Valid()
      modifies this, nodes
      ensures Valid()
      ensures Contents() == VersionLog.Gc(old(Contents()), before)
      ensures (forall n | n in nodes :: n in old(nodes)) && freed == |old(nodes)| - |nodes|
    {
      hide *;
      var prev: VersionNode?<V> := null;
      var node := head;
      freed := 0;
      ghost var es := Contents();
      ghost var kept: Chain<V>, i := [], 0;
      CollectStarts(es, before);
      Start();
      while node != null
        invariant 0 <= i <= |es| && Valid() && Cursor(prev, node, |kept|)
        invariant prev == null <==> kept == []
        invariant freed == |old(nodes)| - |nodes| && forall n | n in nodes :: n in old(nodes)
        invariant Contents() == Pending(kept, es, i)
        invariant Progress(es, i, before, kept) == VersionLog.Gc(es, before)
        decreases |es| - i
      {
        Advance(prev, node, |kept|);
        NextPending(kept, es, i);
        var nextNode := node.next;
        if node.version.txID >= before || (node.status == Committed && prev == null) {
          KeepStep(es, i, before, kept);
          kept := kept + [es[i]];
          prev := node;
        } else {
          DropStep(es, i, before, kept);
          Unlink(prev, node, nextNode, |kept|);
          freed := freed + 1;
        }
        i := i + 1;
        node := nextNode;
      }
      Finish(prev, |kept|);
      CollectEnds(es, i, before, kept);
    }
  }

  /** What the chain holds when `kept` survives of the first i entries. */
  ghost function Pending<V>(kept: Chain<V>, es: Chain<V>, i: nat): Chain<V>
    requires i <= |es|
  {
    kept + es[i..]
  }

  /** What collecting leaves in the end when `kept` survives of the first i entries. */
  ghost function Progress<V>(es: Chain<V>, i: nat, before: int, kept: Chain<V>): Chain<V>
    requires i <= |es|
  {
    kept + Collect(es[i..], before, kept == [])
  }

  lemma CollectStarts<V>(es: Chain<V>, before: int)
    ensures Progress(es, 0, before, []) == Gc(es, before) && Pending([], es, 0) == es
  {
    assert es[0..] == es;
  }

  lemma NextPending<V>(kept: Chain<V>, es: Chain<V>, i: nat)
    requires i <= |es| && |kept| < |Pending(kept, es, i)|
    ensures i < |es| && Pending(kept, es, i)[|kept|] == es[i]
  {}

  lemma KeepStep<V>(es: Chain<V>, i: nat, before: int, kept: Chain<V>)
    requires i < |es| && (es[i].version.txID >= before || (es[i].status == Committed && kept == []))
    ensures Pending(kept, es, i) == Pending(kept + [es[i]], es, i + 1)
    ensures Progress(es, i, before, kept) == Progress(es, i + 1, before, kept + [es[i]])
  {
    assert es[i..][1..] == es[i + 1..];
  }

  lemma DropStep<V>(es: Chain<V>, i: nat, before: int, kept: Chain<V>)
    requires i < |es| && es[i].version.txID < before && !(es[i].status == Committed && kept == [])
    requires |kept| < |Pending(kept, es, i)|
    ensures Without(Pending(kept, es, i), |kept|) == Pending(kept, es, i + 1)
    ensures Progress(es, i, before, kept) == Progress(es, i + 1, before, kept)
  {
    assert es[i..][1..] == es[i + 1..];
  }

  lemma CollectEnds<V>(es: Chain<V>, i: nat, before: int, kept: Chain<V>)
    requires i <= |es| && |Pending(kept, es, i)| == |kept|
    ensures Pending(kept, es, i) == Progress(es, i, before, kept)
  {}
}
