/** Publishing a record: its nodes first, the reference to it last
    (publisher/publisher.go). */
module Publisher {
  import opened Text
  import opened Library
  import opened IprsPaths
  import opened Records

  /** The nodes Publish adds: the dependencies, then the record itself. */
  function NodesOf(record: Record): seq<Node> {
    record.dependencies + [record.node]
  }

  /** Writing a block keeps what the store already has under its CID. */
  function AddBlock(dag: map<Cid, BlockData>, n: Node): map<Cid, BlockData> {
    if n.cid in dag then dag else dag[n.cid := n.data]
  }

  function AddBlocks(dag: map<Cid, BlockData>, nodes: seq<Node>): map<Cid, BlockData>
    decreases |nodes|
  {
    if nodes == [] then dag else AddBlocks(AddBlock(dag, nodes[0]), nodes[1..])
  }

  lemma {:induction false} AddBlocksGrows(dag: map<Cid, BlockData>, nodes: seq<Node>)
    ensures forall c | c in dag :: c in AddBlocks(dag, nodes) && AddBlocks(dag, nodes)[c] == dag[c]
    ensures forall i | 0 <= i < |nodes| :: nodes[i].cid in AddBlocks(dag, nodes)
    decreases |nodes|
  {
    if nodes != [] {
      AddBlocksGrows(AddBlock(dag, nodes[0]), nodes[1..]);
      assert forall i | 0 < i < |nodes| :: nodes[i] == nodes[1..][i - 1];
    }
  }

  /** No node has the CID of a stored block, or of an earlier node, with other content. */
  ghost predicate NoCollision(dag: map<Cid, BlockData>, nodes: seq<Node>) {
    && (forall i | 0 <= i < |nodes| :: nodes[i].cid in dag ==> dag[nodes[i].cid] == nodes[i].data)
    && (forall i, j | 0 <= i < |nodes| && 0 <= j < |nodes| ::
          nodes[i].cid == nodes[j].cid ==> nodes[i].data == nodes[j].data)
  }

  lemma {:induction false} AddBlocksStores(dag: map<Cid, BlockData>, nodes: seq<Node>)
    requires NoCollision(dag, nodes)
    ensures forall i | 0 <= i < |nodes| ::
      nodes[i].cid in AddBlocks(dag, nodes) && AddBlocks(dag, nodes)[nodes[i].cid] == nodes[i].data
    decreases |nodes|
  {
    AddBlocksGrows(dag, nodes);
    if nodes != [] {
      var next := AddBlock(dag, nodes[0]);
      assert forall i | 0 <= i < |nodes[1..]| :: nodes[1..][i] == nodes[i + 1];
      AddBlocksStores(next, nodes[1..]);
      AddBlocksGrows(next, nodes[1..]);
      assert nodes[0].cid in next && next[nodes[0].cid] == nodes[0].data;
      forall i | 0 <= i < |nodes|
        ensures nodes[i].cid in AddBlocks(dag, nodes) && AddBlocks(dag, nodes)[nodes[i].cid] == nodes[i].data
      {
        if i > 0 {
          assert nodes[i] == nodes[1..][i - 1];
        }
      }
    }
  }

  /** Where a call of Publish fails: adding node `at` to the batch, committing it, or
      putting the reference. A call that fails earlier than that may have written some of
      the blocks in its batch already, in any order. */
  datatype Fault =
    | NoFault
    | AddFails(at: nat, written: seq<Node>)
    | CommitFails(written: seq<Node>)
    | PutFails

  ghost predicate Possible(fault: Fault, record: Record) {
    match fault
    case AddFails(at, written) => at < |NodesOf(record)| && forall n | n in written :: n in NodesOf(record)[..at]
    case CommitFails(written) => forall n | n in written :: n in NodesOf(record)
    case _ => true
  }

  /** The blocks a call of Publish writes. */
  function WrittenBy(fault: Fault, record: Record): seq<Node> {
    match fault
    case AddFails(_, written) => written
    case CommitFails(written) => written
    case _ => NodesOf(record)
  }

  class IprsPublisher {
    const lib: Lib
    var vs: map<string, Bytes>
    var dag: map<Cid, BlockData>

    constructor (lib: Lib, vs: map<string, Bytes>, dag: map<Cid, BlockData>)
      ensures this.lib == lib && this.vs == vs && this.dag == dag
    {
      this.lib := lib;
      this.vs := vs;
      this.dag := dag;
    }

    /** Publish succeeds exactly when no step fails, and then the reference is written
        and all nodes are stored. A call that fails leaves the value store as it was;
        in every case the block store only gains blocks, and only of this record. */
    method Publish(iprsKey: IprsPath, record: Record, fault: Fault) returns (ok: bool)
      requires Possible(fault, record)
      modifies this
      ensures ok <==> fault.NoFault?
      ensures vs == if ok then old(vs)[iprsKey.s := lib.cidBytes(record.node.cid)] else old(vs)
      ensures dag == AddBlocks(old(dag), WrittenBy(fault, record))
    {
      var committed := PublishRecord(record, fault);
      if !committed {
        return false;
      }
      if fault.PutFails? {
        return false;
      }
      vs := vs[iprsKey.s := lib.cidBytes(record.node.cid)];
      return true;
    }

    method PublishRecord(record: Record, fault: Fault) returns (ok: bool)
      requires Possible(fault, record)
      modifies this`dag
      ensures ok <==> fault.NoFault? || fault.PutFails?
      ensures dag == AddBlocks(old(dag), WrittenBy(fault, record))
    {
      var nodes := record.dependencies + [record.node];
      var batch: seq<Node> := [];
      for i := 0 to |nodes|
        invariant batch == nodes[..i]
        invariant dag == old(dag)
        invariant fault.AddFails? ==> i <= fault.at
      {
        if fault.AddFails? && fault.at == i {
          Commit(fault.written);
          return false;
        }
        batch := batch + [nodes[i]];
      }
      assert batch == nodes;
      if fault.CommitFails? {
        Commit(fault.written);
        return false;
      }
      Commit(batch);
      return true;
    }

    method Commit(blocks: seq<Node>)
      modifies this`dag
      ensures dag == AddBlocks(old(dag), blocks)
    {
      ghost var before := dag;
      for i := 0 to |blocks|
        invariant AddBlocks(before, blocks) == AddBlocks(dag, blocks[i..])
      {
        if blocks[i].cid !in dag {
          dag := dag[blocks[i].cid := blocks[i].data];
        }
      }
    }
  }
}
