/** Many publishers at once over shared stores (publisher/publisher.go): any interleaving
    of their steps, any of which may fail, possibly after writing some blocks. */
module PublishRuns {
  import opened Wrappers
  import opened Text
  import opened Library
  import opened IprsPaths
  import opened Records
  import opened Publisher
  import Signers
  import Sources
  import RoundTrip
  import Dispatch

  /** Where a call of Publish stands: what it has put in its batch, and whether the batch
      is committed. */
  datatype Stage =
    | Adding(key: string, record: Record, batched: nat)
    | Committed(key: string, record: Record)
    | Published(key: string, record: Record)
    | Failed(key: string, record: Record)

  /** The block store, the value store, the calls, and which record each reference that a
      Publish wrote was written for. */
  datatype State = State(
    dag: map<Cid, BlockData>, vs: map<string, Bytes>, calls: map<nat, Stage>, written: map<string, Record>)

  datatype Event =
    | Start(call: nat, key: IprsPath, record: Record)
    | AddNode(call: nat)
    | AddFails(call: nat, flushed: seq<Node>)
    | CommitBatch(call: nat)
    | CommitFails(call: nat, flushed: seq<Node>)
    | PutReference(call: nat)
    | PutFails(call: nat)
    | OtherBlock(node: Node)

  function At(s: State, call: nat, stage: Stage): State {
    s.(calls := s.calls[call := stage])
  }

  predicate Adds(s: State, call: nat) {
    call in s.calls && s.calls[call].Adding? && s.calls[call].batched <= |NodesOf(s.calls[call].record)|
  }

  /** Gives up, with some blocks of the batch written. */
  function GiveUp(s: State, call: nat, flushed: seq<Node>): State
    requires Adds(s, call)
  {
    var stage := s.calls[call];
    if forall n | n in flushed :: n in NodesOf(stage.record)[..stage.batched] then
      At(s, call, Failed(stage.key, stage.record)).(dag := AddBlocks(s.dag, flushed))
    else s
  }

  /** An event that is not possible in a state leaves it as it is. */
  function Step(s: State, lib: Lib, e: Event): State {
    match e
    case Start(call, key, record) =>
      if call in s.calls then s else At(s, call, Adding(key.s, record, 0))
    case AddNode(call) =>
      if Adds(s, call) && s.calls[call].batched < |NodesOf(s.calls[call].record)| then
        At(s, call, s.calls[call].(batched := s.calls[call].batched + 1))
      else s
    case AddFails(call, flushed) =>
      if Adds(s, call) && s.calls[call].batched < |NodesOf(s.calls[call].record)| then GiveUp(s, call, flushed) else s
    case CommitBatch(call) =>
      if Adds(s, call) && s.calls[call].batched == |NodesOf(s.calls[call].record)| then
        var stage := s.calls[call];
        At(s, call, Committed(stage.key, stage.record)).(dag := AddBlocks(s.dag, NodesOf(stage.record)))
      else s
    case CommitFails(call, flushed) =>
      if Adds(s, call) && s.calls[call].batched == |NodesOf(s.calls[call].record)| then GiveUp(s, call, flushed) else s
    case PutReference(call) =>
      if call in s.calls && s.calls[call].Committed? then
        var stage := s.calls[call];
        At(s, call, Published(stage.key, stage.record)).(
          vs := s.vs[stage.key := lib.cidBytes(stage.record.node.cid)],
          written := s.written[stage.key := stage.record])
      else s
    case PutFails(call) =>
      if call in s.calls && s.calls[call].Committed? then
        At(s, call, Failed(s.calls[call].key, s.calls[call].record))
      else s
    case OtherBlock(node) => s.(dag := AddBlock(s.dag, node))
  }

  function Run(s: State, lib: Lib, events: seq<Event>): State
    decreases |events|
  {
    if events == [] then s else Run(Step(s, lib, events[0]), lib, events[1..])
  }

  function AddNodes(call: nat, n: nat): seq<Event> {
    if n == 0 then [] else [AddNode(call)] + AddNodes(call, n - 1)
  }

  lemma {:induction false} RunConcat(s: State, lib: Lib, a: seq<Event>, b: seq<Event>)
    ensures Run(s, lib, a + b) == Run(Run(s, lib, a), lib, b)
    decreases |a|
  {
    if a == [] {
      assert a + b == b;
    } else {
      assert (a + b)[1..] == a[1..] + b;
      RunConcat(Step(s, lib, a[0]), lib, a[1..], b);
    }
  }

  lemma {:induction false} AddsAll(s: State, lib: Lib, call: nat, key: string, record: Record, batched: nat)
    requires call in s.calls && s.calls[call] == Adding(key, record, batched) && batched <= |NodesOf(record)|
    ensures var n := |NodesOf(record)|;
      Run(s, lib, AddNodes(call, n - batched)) == At(s, call, Adding(key, record, n))
    decreases |NodesOf(record)| - batched
  {
    var n := |NodesOf(record)|;
    if batched < n {
      var next := Step(s, lib, AddNode(call));
      assert AddNodes(call, n - batched)[1..] == AddNodes(call, n - batched - 1);
      AddsAll(next, lib, call, key, record, batched + 1);
      assert next.calls[call := Adding(key, record, n)] == s.calls[call := Adding(key, record, n)];
    } else {
      assert s.calls[call := s.calls[call]] == s.calls;
    }
  }

  /** A Publish whose steps all succeed adds the record's nodes and then writes the reference. */
  lemma {:induction false} AloneIsPublished(s: State, lib: Lib, call: nat, key: IprsPath, record: Record)
    requires call !in s.calls
    ensures var events := [Start(call, key, record)] + (AddNodes(call, |NodesOf(record)|)
        + [CommitBatch(call), PutReference(call)]);
      Run(s, lib, events) == s.(
        dag := AddBlocks(s.dag, record.dependencies + [record.node]),
        vs := s.vs[key.s := lib.cidBytes(record.node.cid)],
        calls := s.calls[call := Published(key.s, record)],
        written := s.written[key.s := record])
  {
    var n := |NodesOf(record)|;
    var adds, last := AddNodes(call, n), [CommitBatch(call), PutReference(call)];
    var s1 := Step(s, lib, Start(call, key, record));
    assert ([Start(call, key, record)] + (adds + last))[1..] == adds + last;
    RunConcat(s1, lib, adds, last);
    AddsAll(s1, lib, call, key.s, record, 0);
    CommitsAndPuts(Run(s1, lib, adds), lib, call, key.s, record);
    hide AddBlocks, AddNodes, NodesOf;
    assert s.calls[call := Adding(key.s, record, 0)][call := Adding(key.s, record, n)][call := Published(key.s, record)]
        == s.calls[call := Published(key.s, record)];
  }

  lemma {:induction false} CommitsAndPuts(s: State, lib: Lib, call: nat, key: string, record: Record)
    requires call in s.calls && s.calls[call] == Adding(key, record, |NodesOf(record)|)
    ensures Run(s, lib, [CommitBatch(call), PutReference(call)]) == s.(
      dag := AddBlocks(s.dag, record.dependencies + [record.node]),
      vs := s.vs[key := lib.cidBytes(record.node.cid)],
      calls := s.calls[call := Published(key, record)],
      written := s.written[key := record])
  {
    hide AddBlocks;
    var last := [CommitBatch(call), PutReference(call)];
    var next := Step(s, lib, CommitBatch(call));
    var end := Step(next, lib, PutReference(call));
    assert Run(s, lib, last) == Run(next, lib, last[1..]) && Run(next, lib, last[1..]) == Run(end, lib, last[1..][1..]);
    assert end.calls == s.calls[call := Published(key, record)];
  }

  ghost predicate Grown(before: map<Cid, BlockData>, after: map<Cid, BlockData>) {
    forall c | c in before :: c in after && after[c] == before[c]
  }

  ghost predicate AllStored(dag: map<Cid, BlockData>, record: Record) {
    forall n | n in NodesOf(record) :: n.cid in dag
  }

  ghost predicate Invariant(s: State, lib: Lib) {
    && (forall call | call in s.calls && (s.calls[call].Committed? || s.calls[call].Published?) ::
          AllStored(s.dag, s.calls[call].record))
    && (forall key | key in s.written ::
          && AllStored(s.dag, s.written[key])
          && key in s.vs && s.vs[key] == lib.cidBytes(s.written[key].node.cid))
  }

  lemma {:induction false} StepGrows(s: State, lib: Lib, e: Event)
    ensures Grown(s.dag, Step(s, lib, e).dag)
    ensures e.CommitBatch? && Adds(s, e.call) && s.calls[e.call].batched == |NodesOf(s.calls[e.call].record)| ==>
      AllStored(Step(s, lib, e).dag, s.calls[e.call].record)
  {
    match e
    case CommitBatch(call) =>
      if Adds(s, call) { StoresAll(s.dag, s.calls[call].record); }
    case AddFails(call, flushed) =>
      if Adds(s, call) { FlushGrows(s, call, flushed); }
    case CommitFails(call, flushed) =>
      if Adds(s, call) { FlushGrows(s, call, flushed); }
    case _ =>
  }

  lemma {:induction false} StoresAll(dag: map<Cid, BlockData>, record: Record)
    ensures Grown(dag, AddBlocks(dag, NodesOf(record))) && AllStored(AddBlocks(dag, NodesOf(record)), record)
  {
    AddBlocksGrows(dag, NodesOf(record));
  }

  lemma {:induction false} FlushGrows(s: State, call: nat, flushed: seq<Node>)
    requires Adds(s, call)
    ensures Grown(s.dag, GiveUp(s, call, flushed).dag)
  {
    AddBlocksGrows(s.dag, flushed);
  }

  lemma {:induction false} StepKeeps(s: State, lib: Lib, e: Event)
    requires Invariant(s, lib)
    ensures Invariant(Step(s, lib, e), lib)
  {
    hide AddBlocks, NodesOf;
    StepGrows(s, lib, e);
  }

  /** No dangling reference: in every run, with any step allowed to fail, every reference
      a Publish wrote is the CID of a record whose node and dependency nodes are all in
      the block store, and block store entries never change. */
  lemma {:induction false} NoDanglingReference(s: State, lib: Lib, events: seq<Event>)
    requires Invariant(s, lib)
    ensures var last := Run(s, lib, events);
      && Grown(s.dag, last.dag)
      && forall key | key in last.written ::
           && AllStored(last.dag, last.written[key])
           && key in last.vs && last.vs[key] == lib.cidBytes(last.written[key].node.cid)
    decreases |events|
  {
    if events != [] {
      StepKeeps(s, lib, events[0]);
      StepGrows(s, lib, events[0]);
      NoDanglingReference(Step(s, lib, events[0]), lib, events[1..]);
    }
  }

  /** Publishers at once, then a lookup: in every run, a key whose last reference is that
      of a record new for that path gives exactly the record's value and the expiry of
      its validation, when the blocks of the record and the path's authority are the ones
      stored under their CIDs. */
  lemma {:induction false} LastPublishIsFound(
    s: State, lib: Lib, events: seq<Event>, txt: map<string, seq<string>>,
    vl: Signers.RecordValidation, id: Signers.Identity, val: Bytes, authority: Node, name: string)
    requires Invariant(s, lib)
    requires Lawful(lib) && Signers.Constructed(lib, vl) && RoundTrip.Authority(lib, id, authority)
    requires Plain(name) && '/' !in name && Dispatch.IsResolvable(lib, val)
    requires var last, path := Run(s, lib, events), RoundTrip.PathText(lib, authority, name);
      var record := Signers.NewRecord(lib, vl, id, val).value;
      && path in last.written && last.written[path] == record
      && authority.cid in last.dag
      && (forall n | n in NodesOf(record) + [authority] :: n.cid in last.dag ==> last.dag[n.cid] == n.data)
    ensures var last, path := Run(s, lib, events), RoundTrip.PathText(lib, authority, name);
      Sources.IprsGetValue(lib, Sources.World(txt, last.vs, last.dag), path)
      == Ok(Sources.Found(val, RoundTrip.Expiry(vl)))
  {
    hide Run, Lawful, Invariant, Signers.NewRecord, NodesOf, Sources.IprsGetValue;
    NoDanglingReference(s, lib, events);
    var last := Run(s, lib, events);
    RoundTrip.PublishedIsFound(lib, Sources.World(txt, last.vs, last.dag), vl, id, val, authority, name);
  }

  predicate Untouched(s: State, initial: map<string, Bytes>, key: string) {
    (key in s.vs <==> key in initial) && (key in initial ==> s.vs[key] == initial[key])
  }

  ghost predicate PutBy(s: State, lib: Lib, call: nat, key: string) {
    && call in s.calls && s.calls[call].Published? && s.calls[call].key == key
    && key in s.vs && s.vs[key] == lib.cidBytes(s.calls[call].record.node.cid)
  }

  /** What the value store holds at a key is what it held at the start, or the reference
      of a Publish that succeeded. */
  ghost predicate Accounted(s: State, lib: Lib, initial: map<string, Bytes>) {
    forall key: string :: Untouched(s, initial, key) || exists call: nat :: PutBy(s, lib, call, key)
  }

  predicate Puts(s: State, e: Event, key: string) {
    e.PutReference? && e.call in s.calls && s.calls[e.call].Committed? && s.calls[e.call].key == key
  }

  lemma OnlyPutsChange(s: State, lib: Lib, e: Event, key: string)
    requires !Puts(s, e, key)
    ensures var next := Step(s, lib, e);
      (key in next.vs <==> key in s.vs) && (key in s.vs ==> next.vs[key] == s.vs[key])
  {
  }

  lemma PublishedStays(s: State, lib: Lib, e: Event, call: nat)
    requires call in s.calls && s.calls[call].Published?
    ensures var next := Step(s, lib, e); call in next.calls && next.calls[call] == s.calls[call]
  {
  }

  lemma {:induction false} StepAccounts(s: State, lib: Lib, initial: map<string, Bytes>, e: Event)
    requires Accounted(s, lib, initial)
    ensures Accounted(Step(s, lib, e), lib, initial)
  {
    var next := Step(s, lib, e);
    forall key: string ensures Untouched(next, initial, key) || exists call: nat :: PutBy(next, lib, call, key) {
      if Puts(s, e, key) {
        assert PutBy(next, lib, e.call, key);
      } else {
        hide Step;
        OnlyPutsChange(s, lib, e, key);
        if !Untouched(s, initial, key) {
          var call: nat :| PutBy(s, lib, call, key);
          PublishedStays(s, lib, e, call);
          assert PutBy(next, lib, call, key);
        }
      }
    }
  }

  /** In every run a Publish that fails, before its reference step or at it, leaves no
      trace in the value store: every value there is an initial one or the reference of a
      Publish that succeeded. */
  lemma {:induction false} FailedPublishesLeaveNothing(
    s: State, lib: Lib, initial: map<string, Bytes>, events: seq<Event>)
    requires Accounted(s, lib, initial)
    ensures Accounted(Run(s, lib, events), lib, initial)
    decreases |events|
  {
    if events != [] {
      StepAccounts(s, lib, initial, events[0]);
      FailedPublishesLeaveNothing(Step(s, lib, events[0]), lib, initial, events[1..]);
    }
  }
}
