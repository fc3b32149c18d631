/** The nested ordered searcher: an immutable node over a non-empty strictly
    increasing sequence, holding either raw values (a leaf) or child
    searchers (a container), with a four-way range/membership query and a
    strict successor query. */
module Searcher {
  import opened Seqs

  datatype Option<T> = None | Some(value: T)

  /** The answers of `search`: "L", "R", "FOUND" and "NOT_FOUND". */
  datatype Outcome = L | R | Found | NotFound

  /** A leaf holds values; a container holds child searchers. The tag replaces
      the runtime check for an `is_container` attribute on the first item. */
  datatype Node = Leaf(vals: seq<int>) | Container(kids: seq<Node>)

  /** Number of items (values or children) directly held by the node. */
  function Count(n: Node): nat {
    match n
    case Leaf(vals) => |vals|
    case Container(kids) => |kids|
  }

  /** No node anywhere in the tree holds an empty list. */
  predicate NonEmpty(n: Node)
    decreases n
  {
    match n
    case Leaf(vals) => |vals| > 0
    case Container(kids) => |kids| > 0 && forall i :: 0 <= i < |kids| ==> NonEmpty(kids[i])
  }

  /** `child_min`: a value is its own minimum; a child searcher has its `min`. */
  function ChildMin(n: Node, i: nat): int
    requires NonEmpty(n) && i < Count(n)
    decreases n, 0
  {
    match n
    case Leaf(vals) => vals[i]
    case Container(kids) => Min(kids[i])
  }

  /** `child_max`: a value is its own maximum; a child searcher has its `max`. */
  function ChildMax(n: Node, i: nat): int
    requires NonEmpty(n) && i < Count(n)
    decreases n, 0
  {
    match n
    case Leaf(vals) => vals[i]
    case Container(kids) => Max(kids[i])
  }

  /** The `min` fixed at construction: the first item's minimum. */
  function Min(n: Node): int
    requires NonEmpty(n)
    decreases n, 1
  {
    ChildMin(n, 0)
  }

  /** The `max` fixed at construction: the last item's maximum. */
  function Max(n: Node): int
    requires NonEmpty(n)
    decreases n, 1
  {
    ChildMax(n, Count(n) - 1)
  }

  /** The construction invariant: the list is non-empty, each item's maximum is
      below the next item's minimum, and every child is itself a searcher
      that passed the same checks. */
  predicate Valid(n: Node)
    decreases n, 1
  {
    && NonEmpty(n)
    && (forall i :: 0 <= i < Count(n) - 1 ==> ChildMax(n, i) < ChildMin(n, i + 1))
    && ChildrenValid(n)
  }

  /** The children of a container are already-built searchers. */
  predicate ChildrenValid(n: Node)
    decreases n, 0
  {
    n.Container? ==> forall i :: 0 <= i < |n.kids| ==> Valid(n.kids[i])
  }

  /** The values a node stands for: the leaf values under it, left to right. */
  function Elems(n: Node): seq<int>
    decreases n
  {
    match n
    case Leaf(vals) => vals
    case Container(kids) => Flat(kids)
  }

  /** The values under a list of children, left to right. */
  function Flat(kids: seq<Node>): seq<int>
    decreases kids
  {
    if |kids| == 0 then [] else Elems(kids[0]) + Flat(kids[1..])
  }

  /** The values under the `i`-th item of a node. */
  function ChildElems(n: Node, i: nat): seq<int>
    requires i < Count(n)
  {
    match n
    case Leaf(vals) => [vals[i]]
    case Container(kids) => Elems(kids[i])
  }

  /** The values under the items of a node from the `i`-th on. */
  function ElemsFrom(n: Node, i: nat): seq<int>
    requires i <= Count(n)
  {
    match n
    case Leaf(vals) => vals[i..]
    case Container(kids) => Flat(kids[i..])
  }

  /** `x` is the least element of `s` strictly above `v`. */
  predicate IsLeastAbove(s: seq<int>, v: int, x: int) {
    x in s && v < x && forall e :: e in s && v < e ==> x <= e
  }

  // ---------------------------------------------------------------------
  // Structure of the flattened values

  lemma ElemsFromZero(n: Node)
    ensures ElemsFrom(n, 0) == Elems(n)
  {
  }

  lemma ElemsFromEnd(n: Node)
    ensures ElemsFrom(n, Count(n)) == []
  {
  }

  /** The values from item `i` on are those of item `i` followed by those
      from item `i + 1` on. */
  lemma ElemsFromStep(n: Node, i: nat)
    requires i < Count(n)
    ensures ElemsFrom(n, i) == ChildElems(n, i) + ElemsFrom(n, i + 1)
  {
  }

  /** A valid node stands for a non-empty, strictly increasing sequence that
      starts at its `min` and ends at its `max`. */
  lemma {:induction false} ValidElems(n: Node)
    requires Valid(n)
    ensures |Elems(n)| > 0 && StrictlyIncreasing(Elems(n))
    ensures Elems(n)[0] == Min(n) && Last(Elems(n)) == Max(n)
    decreases n, 2
  {
    ValidElemsFrom(n, 0);
    ElemsFromZero(n);
  }

  /** The values under one item of a valid node are non-empty, strictly
      increasing, and run from that item's minimum to its maximum. */
  lemma {:induction false} ChildElemsFacts(n: Node, i: nat)
    requires Valid(n) && i < Count(n)
    ensures |ChildElems(n, i)| > 0 && StrictlyIncreasing(ChildElems(n, i))
    ensures ChildElems(n, i)[0] == ChildMin(n, i) && Last(ChildElems(n, i)) == ChildMax(n, i)
    decreases n, 0, 0
  {
    match n
    case Leaf(vals) =>
    case Container(kids) => ValidElems(kids[i]);
  }

  lemma {:induction false} ValidElemsFrom(n: Node, i: nat)
    requires Valid(n) && i < Count(n)
    ensures |ElemsFrom(n, i)| > 0 && StrictlyIncreasing(ElemsFrom(n, i))
    ensures ElemsFrom(n, i)[0] == ChildMin(n, i) && Last(ElemsFrom(n, i)) == Max(n)
    decreases n, 1, Count(n) - i
  {
    ChildElemsFacts(n, i);
    ElemsFromStep(n, i);
    var here, rest := ChildElems(n, i), ElemsFrom(n, i + 1);
    if i + 1 < Count(n) {
      ValidElemsFrom(n, i + 1);
      SortedAppend(here, rest);
    } else {
      ElemsFromEnd(n);
      assert here + rest == here;
    }
  }

  /** The values of the items from `i` on: those of the `i`-th item, which
      run from its minimum to its maximum, then those of later items, which
      all lie above its maximum. */
  lemma SplitAt(n: Node, i: nat)
    requires Valid(n) && i < Count(n)
    ensures n.Container? ==> Valid(n.kids[i])
    ensures ElemsFrom(n, i) == ChildElems(n, i) + ElemsFrom(n, i + 1)
    ensures StrictlyIncreasing(ElemsFrom(n, i))
    ensures ChildMin(n, i) in ChildElems(n, i) && ChildMax(n, i) in ChildElems(n, i)
    ensures forall e :: e in ChildElems(n, i) ==> ChildMin(n, i) <= e <= ChildMax(n, i)
    ensures forall e :: e in ElemsFrom(n, i) && e !in ChildElems(n, i) ==> ChildMax(n, i) < e
    ensures ChildMax(n, i) <= Max(n)
  {
    ElemsFromStep(n, i);
    ValidElemsFrom(n, i);
    ChildElemsFacts(n, i);
    SortedBounds(ChildElems(n, i));
    SortedBounds(ElemsFrom(n, i));
    assert ChildMax(n, i) in ElemsFrom(n, i);
    SortedAppendSeparates(ChildElems(n, i), ElemsFrom(n, i + 1));
  }

  /** Every node of the list is a valid searcher. */
  predicate AllValid(nodes: seq<Node>) {
    forall i :: 0 <= i < |nodes| ==> Valid(nodes[i])
  }

  lemma {:induction false} FlatAppend(a: seq<Node>, b: seq<Node>)
    ensures Flat(a + b) == Flat(a) + Flat(b)
  {
    if |a| == 0 {
      assert a + b == b;
    } else {
      assert (a + b)[0] == a[0];
      assert (a + b)[1..] == a[1..] + b;
      FlatAppend(a[1..], b);
    }
  }

  /** Children of valid searchers whose values, laid end to end, are strictly
      increasing pass the adjacent-children check. */
  lemma {:induction false} ChainFromSorted(kids: seq<Node>)
    requires AllValid(kids) && StrictlyIncreasing(Flat(kids))
    ensures forall i :: 0 <= i < |kids| - 1 ==> Max(kids[i]) < Min(kids[i + 1])
  {
    if |kids| >= 2 {
      var head, rest := Elems(kids[0]), Flat(kids[1..]);
      SortedAppend(head, rest);
      assert AllValid(kids[1..]);
      ChainFromSorted(kids[1..]);
      ValidElems(kids[0]);
      ValidElems(kids[1]);
      assert rest == Elems(kids[1]) + Flat(kids[2..]) by {
        assert kids[1..][0] == kids[1];
        assert kids[1..][1..] == kids[2..];
      }
      forall i | 0 <= i < |kids| - 1
        ensures Max(kids[i]) < Min(kids[i + 1])
      {
        if i > 0 {
          assert kids[1..][i - 1] == kids[i] && kids[1..][i] == kids[i + 1];
        }
      }
    }
  }

  /** The adjacent-children check of construction amounts to asking that the
      children's values, laid end to end, be strictly increasing. */
  lemma ContainerValidIff(kids: seq<Node>)
    ensures Valid(Container(kids)) <==>
      |kids| > 0 && AllValid(kids) && StrictlyIncreasing(Flat(kids))
  {
    var n := Container(kids);
    if Valid(n) {
      ValidElems(n);
    }
    if |kids| > 0 && AllValid(kids) && StrictlyIncreasing(Flat(kids)) {
      ChainFromSorted(kids);
      assert forall i :: 0 <= i < |kids| ==> Valid(kids[i]);
    }
  }

  /** A list of values passes the checks of construction exactly when it is
      non-empty and strictly increasing. */
  lemma LeafValidIff(vals: seq<int>)
    ensures Valid(Leaf(vals)) <==> |vals| > 0 && StrictlyIncreasing(vals)
  {
    if Valid(Leaf(vals)) {
      ValidElems(Leaf(vals));
    }
  }

  /** When the values of a list of nodes are strictly increasing, so are the
      values under each node. */
  lemma {:induction false} SortedFlatParts(kids: seq<Node>)
    requires StrictlyIncreasing(Flat(kids))
    ensures forall i :: 0 <= i < |kids| ==> StrictlyIncreasing(Elems(kids[i]))
  {
    if |kids| > 0 {
      SortedAppend(Elems(kids[0]), Flat(kids[1..]));
      SortedFlatParts(kids[1..]);
      forall i | 0 < i < |kids|
        ensures StrictlyIncreasing(Elems(kids[i]))
      {
        assert kids[1..][i - 1] == kids[i];
      }
    }
  }

  // ---------------------------------------------------------------------
  // Construction

  /** Why `__init__` refuses a list: it is empty, or the item at `at` does
      not end below the start of the next one. */
  datatype InitError = EmptyList | Overlap(at: nat)

  datatype InitResult = Built(min: int, max: int) | Refused(error: InitError)

  /** The checks `__init__` makes on a list of values or of already-built
      child searchers, and the `min`/`max` it records. The list is accepted
      exactly when the node is valid, and then `min`/`max` are the ends of the
      strictly increasing sequence it stands for. A refusal names the first
      adjacent pair that is out of order. */
  method Init(n: Node) returns (r: InitResult)
    requires ChildrenValid(n)
    ensures r.Built? <==> Valid(n)
    ensures r.Built? ==>
      && |Elems(n)| > 0
      && StrictlyIncreasing(Elems(n))
      && r.min == Elems(n)[0]
      && r.max == Last(Elems(n))
    ensures r == Refused(EmptyList) <==> Count(n) == 0
    ensures r.Refused? && r.error.Overlap? ==>
      && NonEmpty(n)
      && r.error.at < Count(n) - 1
      && ChildMin(n, r.error.at + 1) <= ChildMax(n, r.error.at)
      && forall j :: 0 <= j < r.error.at ==> ChildMax(n, j) < ChildMin(n, j + 1)
  {
    if Count(n) == 0 {
      return Refused(EmptyList);
    }
    assert NonEmpty(n) by {
      if n.Container? {
        forall i | 0 <= i < |n.kids|
          ensures NonEmpty(n.kids[i])
        {
          assert Valid(n.kids[i]);
        }
      }
    }
    var i := 0;
    while i < Count(n) - 1
      invariant 0 <= i <= Count(n) - 1
      invariant forall j :: 0 <= j < i ==> ChildMax(n, j) < ChildMin(n, j + 1)
    {
      if !(ChildMax(n, i) < ChildMin(n, i + 1)) {
        return Refused(Overlap(i));
      }
      i := i + 1;
    }
    ValidElems(n);
    r := Built(ChildMin(n, 0), ChildMax(n, Count(n) - 1));
  }

  // ---------------------------------------------------------------------
  // search

  /** `search`: "L" below the range, "R" above it, otherwise "FOUND" exactly
      when the value is stored and "NOT_FOUND" when it falls in a gap. The
      final `assert False` of the scan is unreachable on a valid node. */
  function Search(n: Node, v: int): (r: Outcome)
    requires Valid(n)
    ensures r == L <==> v < Min(n)
    ensures r == R <==> Max(n) < v
    ensures r == Found <==> v in Elems(n)
    ensures r == NotFound <==> Min(n) <= v <= Max(n) && v !in Elems(n)
    decreases n, 1
  {
    ValidElems(n);
    ElemsFromZero(n);
    SortedBounds(Elems(n));
    assert Max(n) in Elems(n);
    if v < Min(n) then L
    else if v > Max(n) then R
    else
      var scan := ScanSearch(n, 0, v);
      assert scan.Some? && (scan.value == Found <==> v in Elems(n));
      if scan.Some? then scan.value else assert false; NotFound
  }

  /** The loop of `search` from item `i` on. `None` is falling off the end of
      the loop, which happens exactly when no item is left or `v` is above the
      maximum.
      A child answering "L" or "NOT_FOUND" collapses to "NOT_FOUND", a child
      answering "R" moves the scan on; the loop itself never answers "L" or
      "R". */
  function ScanSearch(n: Node, i: nat, v: int): (r: Option<Outcome>)
    requires Valid(n) && i <= Count(n)
    ensures r.None? <==> i == Count(n) || Max(n) < v
    ensures r == Some(Found) <==> v in ElemsFrom(n, i)
    ensures r != Some(L) && r != Some(R)
    decreases n, 0, Count(n) - i
  {
    if i == Count(n) then
      ElemsFromEnd(n);
      None
    else
      SplitAt(n, i);
      assert ChildMin(n, i) in ElemsFrom(n, i) && ChildMax(n, i) in ElemsFrom(n, i);
      match n
      case Leaf(vals) =>
        if v == vals[i] then Some(Found)
        else if v < vals[i] then Some(NotFound)
        else ScanSearch(n, i + 1, v)
      case Container(kids) =>
        match Search(kids[i], v)
        case NotFound => Some(NotFound)
        case L => Some(NotFound)
        case Found => Some(Found)
        case R => ScanSearch(n, i + 1, v)
  }

  // ---------------------------------------------------------------------
  // successor

  /** `successor`: the least stored value strictly greater than `v`, and
      `None` exactly when `v` is at or above the maximum. */
  function Successor(n: Node, v: int): (r: Option<int>)
    requires Valid(n)
    ensures r.None? <==> Max(n) <= v
    ensures r.Some? ==> IsLeastAbove(Elems(n), v, r.value)
    decreases n, 1
  {
    ValidElems(n);
    ElemsFromZero(n);
    SortedBounds(Elems(n));
    assert Max(n) in Elems(n);
    SuccessorFrom(n, 0, v)
  }

  /** The loop of `successor` from item `i` on: the first item whose minimum
      is above `v` gives that minimum; otherwise a child searcher is asked,
      and a child with no successor moves the scan on. */
  function SuccessorFrom(n: Node, i: nat, v: int): (r: Option<int>)
    requires Valid(n) && i <= Count(n)
    ensures r.None? <==> i == Count(n) || Max(n) <= v
    ensures r.Some? ==> IsLeastAbove(ElemsFrom(n, i), v, r.value)
    decreases n, 0, Count(n) - i
  {
    if i == Count(n) then
      ElemsFromEnd(n);
      None
    else
      SplitAt(n, i);
      assert ChildMin(n, i) in ElemsFrom(n, i) && ChildMax(n, i) in ElemsFrom(n, i);
      if v < ChildMin(n, i) then Some(ChildMin(n, i))
      else if n.Container? then
        match Successor(n.kids[i], v)
        case Some(s) => Some(s)
        case None => SuccessorFrom(n, i + 1, v)
      else SuccessorFrom(n, i + 1, v)
  }

  // ---------------------------------------------------------------------
  // Nesting does not change behaviour

  /** The successor is pinned down by the values alone: whenever `x` is the
      least stored value above `v`, `successor(v)` is `x`. */
  lemma SuccessorIsLeastAbove(n: Node, v: int, x: int)
    requires Valid(n) && IsLeastAbove(Elems(n), v, x)
    ensures Successor(n, v) == Some(x)
  {
    ValidElems(n);
    SortedBounds(Elems(n));
    var s := Successor(n, v);
    assert s.Some? && s.value <= x && x <= s.value;
  }

  /** `search` depends only on the values a node stands for: two valid nodes
      over the same values, however nested, classify every value alike. */
  lemma SearchDependsOnlyOnElems(a: Node, b: Node, v: int)
    requires Valid(a) && Valid(b) && Elems(a) == Elems(b)
    ensures Search(a, v) == Search(b, v)
  {
    ValidElems(a);
    ValidElems(b);
    assert Min(a) == Min(b) && Max(a) == Max(b);
  }

  /** `successor` depends only on the values a node stands for. */
  lemma SuccessorDependsOnlyOnElems(a: Node, b: Node, v: int)
    requires Valid(a) && Valid(b) && Elems(a) == Elems(b)
    ensures Successor(a, v) == Successor(b, v)
  {
    ValidElems(a);
    ValidElems(b);
    var sa, sb := Successor(a, v), Successor(b, v);
    if sa.Some? && sb.Some? {
      assert sa.value <= sb.value && sb.value <= sa.value;
    }
  }
}
