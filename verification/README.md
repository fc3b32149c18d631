# Nested ordered searcher — Dafny model

This project models `search.py` of the binary-search experiment: the
`SimpleSearcher` node and the `make_nested_container` builder.

- A `SimpleSearcher` is an immutable node over a non-empty, strictly increasing
  list. The list holds either raw values (a leaf) or already-built child
  searchers (a container). The node records `min` and `max` at construction.
- `search(v)` classifies a value as `"L"` (below `min`), `"R"` (above
  `max`), `"FOUND"` or `"NOT_FOUND"`.
- `successor(v)` returns the least stored value strictly greater than `v`, or
  `None`.
- `make_nested_container` cuts a list into chunks of 30, wraps each chunk, and
  regroups the resulting nodes the same way until fewer than 100 remain at the
  root.

In the model, `Node` is the datatype `Leaf(vals) | Container(kids)`. That tag
replaces the `hasattr(..., "is_container")` check on the first item.
`Elems(n)` is the sequence of values a node stands for: its leaf values, left
to right. `Valid(n)` is the construction invariant: the list is non-empty, each
item's maximum lies below the next item's minimum, and every child is valid.
Every query is specified against `Elems`. This proves that nesting never
changes an answer.

Files:
- `seqs.dfy` (module `Seqs`): strict ordering, flattening, and chunking, plus
  the chunking loop of the builder.
- `searcher.dfy` (module `Searcher`): the node, its invariant, the checking
  constructor, `search` and `successor`.
- `builder.dfy` (module `Builder`): `make_nested_container` and the proof
  that it builds a valid tree over exactly its input.
- `examples.dfy` (module `SanityChecks`): the file's module-level checks,
  restated as lemmas.

Facts about search.py that the model keeps:
- `successor` is strict (`>`): it never returns `v` itself. The checks at
  search.py:65, 71 and 73 rely on this.
- The chunk size is fixed at 30 and the root limit at 100.
- `successor` does not compare `v` with `min` or `max` before it scans.

## Model

| member | source | states |
|---|---|---|
| Searcher.Init | search.py:2-11 | Construction accepts the list exactly when the node is valid. The recorded `min`/`max` are then the first and last of the node's strictly increasing values. An empty list is refused. An overlap refusal names the first adjacent pair with `child_max(c_i) >= child_min(c_{i+1})`. |
| Searcher.ChildElemsFacts | search.py:44-48 | For an item of a valid node, `child_min` and `child_max` are the first and last of the values under that item, which are non-empty and strictly increasing. A raw value is its own minimum and maximum; a child searcher contributes its recorded `min` and `max`. |
| Searcher.ValidElems | search.py:4-10 | A valid node stands for a non-empty, strictly increasing sequence. It starts at `min` (the first child's minimum) and ends at `max` (the last child's maximum). |
| Searcher.ContainerValidIff | search.py:6-8 | A container of valid children passes the adjacent-children check exactly when the children's values, laid end to end, are strictly increasing. |
| Searcher.LeafValidIff | search.py:4-8 | A list of values passes construction exactly when it is non-empty and strictly increasing. |
| Searcher.Search | search.py:13-30 | `"L"` exactly when `v < min` and `"R"` exactly when `v > max`. `"FOUND"` exactly when `v` is a stored value. `"NOT_FOUND"` exactly when `v` lies in `[min, max]` but is not stored. The closing `assert False` is unreachable on a valid node. |
| Searcher.ScanSearch | search.py:18-30 | The loop from item `i` on never answers `"L"` or `"R"`. It answers `"FOUND"` exactly when `v` is among the remaining values. It falls off the end only when no item remains or `v` is above `max`. A child's `"L"`/`"NOT_FOUND"` collapsing to `"NOT_FOUND"` is therefore sound, and a child's `"R"` is the only answer that moves the scan on. |
| Searcher.Successor | search.py:32-42 | The result is the least stored value strictly above `v`. It is `None` exactly when `v >= max`. |
| Searcher.SuccessorFrom | search.py:33-42 | The loop from item `i` on returns the least remaining value strictly above `v`. It returns `None` exactly when no item remains or `v >= max`. |
| Searcher.SuccessorIsLeastAbove | search.py:32-42 | Whenever `x` is the least stored value above `v`, `successor(v)` is `x`. |
| Searcher.SearchDependsOnlyOnElems | search.py:78-80 | Two valid nodes over the same values, however they are nested, classify every value alike. |
| Searcher.SuccessorDependsOnlyOnElems | search.py:78-80 | Two valid nodes over the same values, however they are nested, give the same successor for every value. |
| Seqs.ChunksFacts | search.py:108-113 | Laid end to end, the chunks give back the list. No chunk is empty or longer than the chunk size, and all but the last are full. With chunk size above one, a list of two or more items yields fewer chunks than items. |
| Seqs.SplitChunks | search.py:108-113 | The `while` loop that advances by the chunk size and takes clipped slices produces exactly those chunks. |
| Builder.MakeNested | search.py:102-115 | The built tree stands for exactly the input values. It is valid exactly when the input is strictly increasing. It is a single leaf exactly when the input has fewer than 100 items. The root has fewer than 100 items and every node below it at most 30. |
| Builder.MakeNestedNodes | search.py:102-115 | Regrouping a list of nodes gives a container over the same values. It is valid exactly when all the nodes are valid and their values are jointly strictly increasing. It keeps the fanout bounds: fewer than 100 at the root, at most 30 below, and at most 30 for a chunk. |
| Builder.LeafLevel | search.py:108-115 | One leaf per chunk of values: the leaves stand for the whole list. They are all valid and jointly ordered exactly when the list is strictly increasing. Each holds at most 30 values. |
| Builder.NodeLevel | search.py:108-115 | One container per chunk of nodes: the containers stand for the same values. They are valid and jointly ordered exactly when the nodes are, and they keep the fanout bound. |
| Builder.AllValidConcat | search.py:112-115 | Every node in the flattened chunks is valid exactly when every node of every chunk is. |
| Builder.NestedAgreesWithFlat | search.py:102-117 | For a strictly increasing list, the built tree and a single searcher over the whole list give the same `search` and `successor` answer for every value. |
| SanityChecks.SanityCheckSearch | search.py:54-61 | Every valid searcher over 22, 33, 44 gives the listed classifications. |
| SanityChecks.SanityCheckSuccessor | search.py:63-74 | Every valid searcher over 22, 33, 44 gives the listed strict successors. The successor of 22 is 33, and 44 has none. |
| SanityChecks.ThreeAndNestedThree | search.py:52-80 | The flat searcher over 22, 33, 44 and its nesting `SS(SS(22), SS(33, 44))` both pass construction and stand for 22, 33, 44. |
| SanityChecks.EasyNumbers | search.py:83-98 | On every searcher over the thousand multiples of 100: each multiple is found, and values 17 away from a multiple fall in gaps. The successor of 7 below a multiple is that multiple. `-1` is `"L"`, `100000` is `"R"`, and `100000` has no successor. |
| SanityChecks.EasyNumbersSearchers | search.py:100-117 | The flat searcher and the builder's tree over the thousand multiples are both valid and stand for them, so `EasyNumbers` applies to both. |

## Left out

- The element type is `int`, not an arbitrary comparable type. The file's own
  checks use only integers.
- Python's `assert` statements are not modelled as exceptions. `Init`
  returns `Refused` where `__init__` would raise. The queries require `Valid`,
  because no invalid searcher object can exist once `__init__` has returned.
  `MakeNested` requires a non-empty list (the assert at search.py:103).
- A list that mixes values and searchers cannot be represented. Such a list
  would break the dispatch on the first item (search.py:5).
- `make_nested_container` is one Python function that takes values or
  nodes. It is modelled as two functions, `MakeNested` for values and
  `MakeNestedNodes` for nodes. Each calls itself on every chunk exactly as the
  list comprehension does.
- The module-level calls that run the checks (search.py:76, 80, 100, 117) are
  restated as the lemmas in `examples.dfy`. Nothing is executed.
- Running time, chunk-size tuning and recursion depth are not modelled.
