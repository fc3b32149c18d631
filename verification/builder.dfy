/** The builder of nested searchers: cut a sorted list into chunks of
    `ChunkSize`, wrap each chunk, and regroup the resulting nodes the same way
    until fewer than `RootLimit` remain at the root. */
module Builder {
  import opened Seqs
  import opened Searcher

  const ChunkSize: nat := 30
  const RootLimit: nat := 100

  /** No node of the tree holds more than `k` items. */
  predicate FanoutAtMost(n: Node, k: nat)
    decreases n
  {
    && Count(n) <= k
    && (n.Container? ==> forall i :: 0 <= i < |n.kids| ==> FanoutAtMost(n.kids[i], k))
  }

  predicate AllFanoutAtMost(nodes: seq<Node>, k: nat) {
    forall i :: 0 <= i < |nodes| ==> FanoutAtMost(nodes[i], k)
  }

  /** The shape the builder promises: fewer than `RootLimit` items at the root
      and at most `ChunkSize` items in every node below it. */
  predicate RootShaped(n: Node) {
    && Count(n) < RootLimit
    && (n.Container? ==> AllFanoutAtMost(n.kids, ChunkSize))
  }

  /** The builder applied to a list of values. A list shorter than `RootLimit`
      becomes one leaf; a longer one is cut into chunks, each chunk becomes a
      leaf, and the leaves are regrouped. The result stands for exactly the
      input values, and it passes every construction check exactly when the
      input is strictly increasing. */
  function MakeNested(lst: seq<int>): (r: Node)
    requires |lst| > 0
    ensures Elems(r) == lst
    ensures Valid(r) <==> StrictlyIncreasing(lst)
    ensures r.Leaf? <==> |lst| < RootLimit
    ensures RootShaped(r)
    decreases |lst|
  {
    if |lst| < RootLimit then
      LeafValidIff(lst);
      Leaf(lst)
    else
      var subs := Chunks(lst, ChunkSize);
      ChunksFacts(lst, ChunkSize);
      var kids := seq(|subs|, i requires 0 <= i < |subs| => MakeNested(subs[i]));
      assert forall i :: 0 <= i < |kids| ==> kids[i] == Leaf(subs[i]);
      LeafLevel(lst, subs, kids);
      MakeNestedNodes(kids)
  }

  /** The builder applied to a list of already-built searchers: fewer than
      `RootLimit` become the children of one container; more are cut into
      chunks, each chunk becomes a container, and those are regrouped. */
  function MakeNestedNodes(nodes: seq<Node>): (r: Node)
    requires |nodes| > 0
    ensures r.Container?
    ensures Elems(r) == Flat(nodes)
    ensures Valid(r) <==> AllValid(nodes) && StrictlyIncreasing(Flat(nodes))
    ensures AllFanoutAtMost(nodes, ChunkSize) ==> RootShaped(r)
    ensures |nodes| <= ChunkSize && AllFanoutAtMost(nodes, ChunkSize) ==> FanoutAtMost(r, ChunkSize)
    decreases |nodes|
  {
    if |nodes| < RootLimit then
      ContainerValidIff(nodes);
      Container(nodes)
    else
      var subs := Chunks(nodes, ChunkSize);
      ChunksFacts(nodes, ChunkSize);
      var kids := seq(|subs|, i requires 0 <= i < |subs| => MakeNestedNodes(subs[i]));
      NodeLevel(nodes, subs, kids);
      MakeNestedNodes(kids)
  }

  // ---------------------------------------------------------------------
  // One level of regrouping

  lemma {:induction false} FlatOfLeaves(kids: seq<Node>, parts: seq<seq<int>>)
    requires |kids| == |parts|
    requires forall i :: 0 <= i < |kids| ==> Elems(kids[i]) == parts[i]
    ensures Flat(kids) == Concat(parts)
  {
    if |kids| > 0 {
      FlatOfLeaves(kids[1..], parts[1..]);
    }
  }

  lemma {:induction false} FlatOfGroups(kids: seq<Node>, groups: seq<seq<Node>>)
    requires |kids| == |groups|
    requires forall i :: 0 <= i < |kids| ==> Elems(kids[i]) == Flat(groups[i])
    ensures Flat(kids) == Flat(Concat(groups))
  {
    if |kids| > 0 {
      FlatOfGroups(kids[1..], groups[1..]);
      FlatAppend(groups[0], Concat(groups[1..]));
    }
  }

  /** The first level: one leaf per chunk of values. The leaves stand for the
      whole list, are each valid and jointly ordered exactly when the list is
      strictly increasing, and hold at most `ChunkSize` values each. */
  lemma LeafLevel(lst: seq<int>, subs: seq<seq<int>>, kids: seq<Node>)
    requires |lst| > 0 && subs == Chunks(lst, ChunkSize)
    requires |kids| == |subs|
    requires forall i :: 0 <= i < |kids| ==> kids[i] == Leaf(subs[i])
    ensures |kids| > 0
    ensures Flat(kids) == lst
    ensures AllValid(kids) && StrictlyIncreasing(Flat(kids)) <==> StrictlyIncreasing(lst)
    ensures AllFanoutAtMost(kids, ChunkSize)
  {
    ChunksFacts(lst, ChunkSize);
    FlatOfLeaves(kids, subs);
    if StrictlyIncreasing(lst) {
      SortedFlatParts(kids);
      forall i | 0 <= i < |kids|
        ensures Valid(kids[i])
      {
        LeafValidIff(subs[i]);
      }
    }
  }

  lemma AllValidMembers(nodes: seq<Node>)
    ensures AllValid(nodes) <==> forall x :: x in nodes ==> Valid(x)
  {
    if AllValid(nodes) {
      forall x | x in nodes
        ensures Valid(x)
      {
        var i :| 0 <= i < |nodes| && nodes[i] == x;
      }
    }
    if forall x :: x in nodes ==> Valid(x) {
      forall i | 0 <= i < |nodes|
        ensures Valid(nodes[i])
      {
        assert nodes[i] in nodes;
      }
    }
  }

  lemma AllFanoutMembers(nodes: seq<Node>, k: nat)
    ensures AllFanoutAtMost(nodes, k) <==> forall x :: x in nodes ==> FanoutAtMost(x, k)
  {
    if AllFanoutAtMost(nodes, k) {
      forall x | x in nodes
        ensures FanoutAtMost(x, k)
      {
        var i :| 0 <= i < |nodes| && nodes[i] == x;
      }
    }
    if forall x :: x in nodes ==> FanoutAtMost(x, k) {
      forall i | 0 <= i < |nodes|
        ensures FanoutAtMost(nodes[i], k)
      {
        assert nodes[i] in nodes;
      }
    }
  }

  /** Every node of the flattened chunks is valid exactly when every node of
      every chunk is. */
  lemma AllValidConcat(subs: seq<seq<Node>>)
    ensures AllValid(Concat(subs)) <==> forall i :: 0 <= i < |subs| ==> AllValid(subs[i])
  {
    var nodes := Concat(subs);
    AllValidMembers(nodes);
    forall i | 0 <= i < |subs| {
      AllValidMembers(subs[i]);
    }
    if AllValid(nodes) {
      forall i, x | 0 <= i < |subs| && x in subs[i]
        ensures Valid(x)
      {
        InConcat(subs, x);
      }
    }
    if forall i :: 0 <= i < |subs| ==> AllValid(subs[i]) {
      forall x | x in nodes
        ensures Valid(x)
      {
        InConcat(subs, x);
      }
    }
  }

  lemma AllFanoutConcat(subs: seq<seq<Node>>, k: nat)
    ensures AllFanoutAtMost(Concat(subs), k) <==>
      forall i :: 0 <= i < |subs| ==> AllFanoutAtMost(subs[i], k)
  {
    var nodes := Concat(subs);
    AllFanoutMembers(nodes, k);
    forall i | 0 <= i < |subs| {
      AllFanoutMembers(subs[i], k);
    }
    if AllFanoutAtMost(nodes, k) {
      forall i, x | 0 <= i < |subs| && x in subs[i]
        ensures FanoutAtMost(x, k)
      {
        InConcat(subs, x);
      }
    }
    if forall i :: 0 <= i < |subs| ==> AllFanoutAtMost(subs[i], k) {
      forall x | x in nodes
        ensures FanoutAtMost(x, k)
      {
        InConcat(subs, x);
      }
    }
  }

  /** A later level: one container per chunk of nodes. The containers stand
      for the same values as the nodes, are each valid and jointly ordered
      exactly when the nodes are, and keep the fanout bound. */
  lemma NodeLevel(nodes: seq<Node>, subs: seq<seq<Node>>, kids: seq<Node>)
    requires |nodes| > 0 && subs == Chunks(nodes, ChunkSize)
    requires |kids| == |subs|
    requires forall i :: 0 <= i < |kids| ==>
      && Elems(kids[i]) == Flat(subs[i])
      && (Valid(kids[i]) <==> AllValid(subs[i]) && StrictlyIncreasing(Flat(subs[i])))
      && (AllFanoutAtMost(subs[i], ChunkSize) ==> FanoutAtMost(kids[i], ChunkSize))
    ensures |kids| > 0
    ensures Flat(kids) == Flat(nodes)
    ensures AllValid(kids) && StrictlyIncreasing(Flat(kids)) <==>
            AllValid(nodes) && StrictlyIncreasing(Flat(nodes))
    ensures AllFanoutAtMost(nodes, ChunkSize) ==> AllFanoutAtMost(kids, ChunkSize)
  {
    ChunksFacts(nodes, ChunkSize);
    FlatOfGroups(kids, subs);
    AllValidConcat(subs);
    AllFanoutConcat(subs, ChunkSize);
    if StrictlyIncreasing(Flat(kids)) {
      SortedFlatParts(kids);
    }
  }

  // ---------------------------------------------------------------------
  // Agreement with the flat searcher

  /** The nested searcher built from a strictly increasing list answers every
      `search` and `successor` query exactly as one leaf over the whole list. */
  lemma NestedAgreesWithFlat(lst: seq<int>, v: int)
    requires |lst| > 0 && StrictlyIncreasing(lst)
    ensures Valid(MakeNested(lst)) && Valid(Leaf(lst))
    ensures Search(MakeNested(lst), v) == Search(Leaf(lst), v)
    ensures Successor(MakeNested(lst), v) == Successor(Leaf(lst), v)
  {
    LeafValidIff(lst);
    SearchDependsOnlyOnElems(MakeNested(lst), Leaf(lst), v);
    SuccessorDependsOnlyOnElems(MakeNested(lst), Leaf(lst), v);
  }
}
