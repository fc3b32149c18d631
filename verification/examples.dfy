/** The module-level checks of the searcher, restated as lemmas about every
    searcher over the same values: the three-value list, its nested form,
    and the thousand multiples of one hundred. */
module SanityChecks {
  import opened Seqs
  import opened Searcher
  import opened Builder

  const Three: Node := Leaf([22, 33, 44])
  const NestedThree: Node := Container([Leaf([22]), Leaf([33, 44])])

  /** `sanity_check`, first half: the classification of every searcher over
      22, 33, 44. */
  lemma SanityCheckSearch(n: Node)
    requires Valid(n) && Elems(n) == [22, 33, 44]
    ensures Search(n, 20) == L
    ensures Search(n, 22) == Found
    ensures Search(n, 30) == NotFound
    ensures Search(n, 33) == Found
    ensures Search(n, 40) == NotFound
    ensures Search(n, 44) == Found
    ensures Search(n, 50) == R
  {
    ValidElems(n);
  }

  /** `sanity_check`, second half: the strict successor on every searcher over
      22, 33, 44 (the successor of 22 is 33, and 44 has none). */
  lemma SanityCheckSuccessor(n: Node)
    requires Valid(n) && Elems(n) == [22, 33, 44]
    ensures Successor(n, 20) == Some(22) && Successor(n, 21) == Some(22)
    ensures Successor(n, 22) == Some(33) && Successor(n, 23) == Some(33)
    ensures Successor(n, 24) == Some(33) && Successor(n, 30) == Some(33)
    ensures Successor(n, 31) == Some(33) && Successor(n, 32) == Some(33)
    ensures Successor(n, 33) == Some(44) && Successor(n, 43) == Some(44)
    ensures Successor(n, 44) == None && Successor(n, 45) == None
  {
    ValidElems(n);
    var e := Elems(n);
    assert forall x :: x in e ==> x == 22 || x == 33 || x == 44;
    assert 22 in e && 33 in e && 44 in e;
    SuccessorIsLeastAbove(n, 20, 22);
    SuccessorIsLeastAbove(n, 21, 22);
    SuccessorIsLeastAbove(n, 22, 33);
    SuccessorIsLeastAbove(n, 23, 33);
    SuccessorIsLeastAbove(n, 24, 33);
    SuccessorIsLeastAbove(n, 30, 33);
    SuccessorIsLeastAbove(n, 31, 33);
    SuccessorIsLeastAbove(n, 32, 33);
    SuccessorIsLeastAbove(n, 33, 44);
    SuccessorIsLeastAbove(n, 43, 44);
  }

  /** Both the flat list and its nesting pass construction and stand for
      22, 33, 44, so both sanity lemmas hold of both. */
  lemma ThreeAndNestedThree()
    ensures Valid(Three) && Elems(Three) == [22, 33, 44]
    ensures Valid(NestedThree) && Elems(NestedThree) == [22, 33, 44]
  {
  }

  /** The values 0, 100, ..., 100 * (m - 1). */
  function Hundreds(m: nat): seq<int> {
    seq(m, i requires 0 <= i < m => 100 * i)
  }

  /** `test_easy_numbers`: on every searcher over the thousand multiples of
      one hundred, each multiple is found, offsets of 17 fall in gaps, and the
      successor of seven below a multiple is that multiple. */
  lemma EasyNumbers(n: Node, i: int)
    requires Valid(n) && Elems(n) == Hundreds(1000)
    ensures Search(n, -1) == L && Search(n, 100000) == R && Successor(n, 100000) == None
    ensures 0 <= i < 999 ==>
      && Search(n, 100 * i) == Found
      && Successor(n, 100 * i - 7) == Some(100 * i)
      && Search(n, 100 * i + 17) == NotFound
    ensures 1 <= i < 1000 ==>
      && Search(n, 100 * i) == Found
      && Search(n, 100 * i - 17) == NotFound
  {
    ValidElems(n);
    var e := Elems(n);
    assert e[0] == 0 && e[999] == 99900;
    if 0 <= i < 1000 {
      assert e[i] == 100 * i && 100 * i in e;
      assert 100 * i + 17 !in e;
      assert 100 * i - 17 !in e;
      SuccessorIsLeastAbove(n, 100 * i - 7, 100 * i);
    }
  }

  /** The thousand multiples are strictly increasing, so both the flat
      searcher and the builder's tree over them satisfy `EasyNumbers`. */
  lemma EasyNumbersSearchers()
    ensures Valid(Leaf(Hundreds(1000))) && Elems(Leaf(Hundreds(1000))) == Hundreds(1000)
    ensures Valid(MakeNested(Hundreds(1000))) && Elems(MakeNested(Hundreds(1000))) == Hundreds(1000)
  {
  }
}
