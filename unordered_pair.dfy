/**
 A model of the `unordered-pair` crate: a tuple struct of two values of one
 type whose equality and hashing disregard the order of the two values.

 Element equality (Rust's `PartialEq` on `T`), element comparison (`Ord::cmp`)
 and element hashing (`Hash::hash` on `T`) are parameters, so that the model
 covers element types whose equality is not reflexive (floating-point NaN) as
 well as well-behaved ones. A `Hasher` is modelled by the sequence of words
 written to it; the hash value it finishes with is a function of that sequence.
 */
module UnorderedPairs {

  /** The pair: fields `0` and `1` as in the Rust tuple struct. Construction
      never reorders the two values. */
  datatype UnorderedPair<T> = UnorderedPair(0: T, 1: T)

  /** Result of `Ord::cmp`. */
  datatype Ordering = Less | Equal | Greater

  // ---------------------------------------------------------------------------
  // Conversions to and from an ordered tuple
  // ---------------------------------------------------------------------------

  /** `From<(T, T)>`: stores the tuple's elements in the order given. */
  function FromTuple<T>(tuple: (T, T)): (p: UnorderedPair<T>)
    ensures p.0 == tuple.0 && p.1 == tuple.1
  {
    UnorderedPair(tuple.0, tuple.1)
  }

  /** `Into<(T, T)>`: yields the elements in stored order, not canonicalised. */
  function IntoTuple<T>(p: UnorderedPair<T>): (tuple: (T, T))
    ensures tuple.0 == p.0 && tuple.1 == p.1
  {
    (p.0, p.1)
  }

  /** Converting a tuple into a pair and back gives the same tuple. */
  lemma TupleRoundTrip<T>(tuple: (T, T))
    ensures IntoTuple(FromTuple(tuple)) == tuple
  {
  }

  /** Converting a pair into a tuple and back gives the same pair. */
  lemma PairRoundTrip<T>(p: UnorderedPair<T>)
    ensures FromTuple(IntoTuple(p)) == p
  {
  }

  /** The same two values in opposite order give different tuples (the
      conversion does not canonicalise), yet equal pairs under any element
      equality that is reflexive on them. */
  lemma OppositeOrderTuplesDiffer<T>(eq: (T, T) -> bool, a: T, b: T)
    requires a != b
    requires eq(a, a) && eq(b, b)
    ensures IntoTuple(FromTuple((a, b))) != IntoTuple(FromTuple((b, a)))
    ensures Eq(eq, FromTuple((a, b)), FromTuple((b, a)))
  {
  }

  // ---------------------------------------------------------------------------
  // Order-insensitive equality
  // ---------------------------------------------------------------------------

  /** The pair with its two stored elements exchanged: the same elements,
      and a different pair unless both elements are the same value. */
  function Swap<T>(p: UnorderedPair<T>): (s: UnorderedPair<T>)
    ensures multiset{s.0, s.1} == multiset{p.0, p.1}
    ensures s == p <==> p.0 == p.1
  {
    UnorderedPair(p.1, p.0)
  }

  /** `PartialEq::eq`: the pairs match element for element, either straight
      or crossed. `eq` is the element type's own equality. */
  function Eq<T>(eq: (T, T) -> bool, p: UnorderedPair<T>, q: UnorderedPair<T>): (r: bool)
    ensures eq(p.0, q.0) && eq(p.1, q.1) ==> r
    ensures eq(p.0, q.1) && eq(p.1, q.0) ==> r
    ensures r ==> (eq(p.0, q.0) || eq(p.0, q.1)) && (eq(p.1, q.0) || eq(p.1, q.1))
  {
    (eq(p.0, q.0) && eq(p.1, q.1)) || (eq(p.0, q.1) && eq(p.1, q.0))
  }

  /** Exchanging the elements of either operand never changes the outcome of
      `Eq`, whatever the element equality. */
  lemma EqIgnoresStoredOrder<T>(eq: (T, T) -> bool, p: UnorderedPair<T>, q: UnorderedPair<T>)
    ensures Eq(eq, Swap(p), q) == Eq(eq, p, q)
    ensures Eq(eq, p, Swap(q)) == Eq(eq, p, q)
  {
  }

  /** With reflexive element equality a pair equals itself and its swap. */
  lemma EqSwapInvariant<T>(eq: (T, T) -> bool, a: T, b: T)
    requires eq(a, a) && eq(b, b)
    ensures Eq(eq, UnorderedPair(a, b), UnorderedPair(a, b))
    ensures Eq(eq, UnorderedPair(a, b), UnorderedPair(b, a))
  {
  }

  /** An integer equality under which 0 plays the role of NaN: it equals
      nothing, itself included. */
  function NanLikeEq(x: int, y: int): (r: bool)
    ensures r ==> x == y
    ensures x == 0 ==> !r
  {
    x == y && x != 0
  }

  /** With an element that is not equal to itself, a pair is equal neither to
      its swap nor to itself: the pair inherits the element's non-reflexivity. */
  lemma NanPairNotEqual()
    ensures !Eq(NanLikeEq, UnorderedPair(0, 1), UnorderedPair(1, 0))
    ensures !Eq(NanLikeEq, UnorderedPair(0, 1), UnorderedPair(0, 1))
    ensures Eq(NanLikeEq, UnorderedPair(5, 7), UnorderedPair(7, 5))
  {
  }

  /** Element equality is the identity of Dafny values. */
  function Identity<T(==)>(x: T, y: T): bool
  {
    x == y
  }

  /** With identity as element equality, `Eq` holds exactly when the two pairs
      hold the same elements with the same multiplicities. */
  lemma EqIsMultisetEquality<T>(p: UnorderedPair<T>, q: UnorderedPair<T>)
    ensures Eq(Identity, p, q) <==> multiset{p.0, p.1} == multiset{q.0, q.1}
  {
    if multiset{p.0, p.1} == multiset{q.0, q.1} {
      assert p.0 in multiset{q.0, q.1};
      if p.0 == q.0 {
        assert multiset{p.1} == multiset{p.0, p.1} - multiset{p.0};
        assert multiset{q.1} == multiset{q.0, q.1} - multiset{q.0};
        assert p.1 in multiset{q.1};
      } else {
        assert p.0 == q.1;
        assert multiset{p.1} == multiset{p.0, p.1} - multiset{p.0};
        assert multiset{q.0} == multiset{q.0, q.1} - multiset{q.1};
        assert p.1 in multiset{q.0};
      }
    }
  }

  ghost predicate Reflexive<T(!new)>(rel: (T, T) -> bool) {
    forall x :: rel(x, x)
  }

  ghost predicate Symmetric<T(!new)>(rel: (T, T) -> bool) {
    forall x, y :: rel(x, y) ==> rel(y, x)
  }

  ghost predicate Transitive<T(!new)>(rel: (T, T) -> bool) {
    forall x, y, z :: rel(x, y) && rel(y, z) ==> rel(x, z)
  }

  ghost predicate Equivalence<T(!new)>(rel: (T, T) -> bool) {
    Reflexive(rel) && Symmetric(rel) && Transitive(rel)
  }

  /** `Eq` with the element equality fixed, as a relation on pairs. */
  function PairEq<T>(eq: (T, T) -> bool): (UnorderedPair<T>, UnorderedPair<T>) -> bool
  {
    (p, q) => Eq(eq, p, q)
  }

  /** The derived `Eq` marker is sound exactly when the element equality is an
      equivalence: pair equality is then reflexive, symmetric and transitive,
      and conversely, since `eq(a, b)` is `Eq` on the pairs `(a, a)` and
      `(b, b)`. */
  lemma PairEqIsEquivalence<T(!new)>(eq: (T, T) -> bool)
    ensures Equivalence(eq) <==> Equivalence(PairEq(eq))
  {
    var rel := PairEq(eq);
    if Equivalence(eq) {
      forall p, q, r | rel(p, q) && rel(q, r) ensures rel(p, r) {
        assert Eq(eq, p, q) && Eq(eq, q, r);
      }
    }
    if Equivalence(rel) {
      forall a ensures eq(a, a) {
        assert rel(UnorderedPair(a, a), UnorderedPair(a, a));
      }
      forall a, b | eq(a, b) ensures eq(b, a) {
        assert rel(UnorderedPair(a, a), UnorderedPair(b, b));
        assert rel(UnorderedPair(b, b), UnorderedPair(a, a));
      }
      forall a, b, c | eq(a, b) && eq(b, c) ensures eq(a, c) {
        assert rel(UnorderedPair(a, a), UnorderedPair(b, b));
        assert rel(UnorderedPair(b, b), UnorderedPair(c, c));
        assert rel(UnorderedPair(a, a), UnorderedPair(c, c));
      }
    }
  }

  // ---------------------------------------------------------------------------
  // Order-insensitive hashing
  // ---------------------------------------------------------------------------

  /** The contract of `Ord::cmp`: a total order. `Less` and `Greater` are
      each other's mirror image, every value compares `Equal` to itself, and
      "not greater" is transitive. */
  ghost predicate TotalOrder<T(!new)>(cmp: (T, T) -> Ordering) {
    && (forall a :: cmp(a, a) == Equal)
    && (forall a, b :: cmp(a, b) == Less <==> cmp(b, a) == Greater)
    && (forall a, b, c :: cmp(a, b) != Greater && cmp(b, c) != Greater ==> cmp(a, c) != Greater)
  }

  /** What `Eq` and `Hash` on `T` must agree on for the pair's derived `Eq`
      marker: `cmp` reports `Equal` exactly for equal elements, and equal
      elements write the same words to a hasher. */
  ghost predicate ConsistentWithEq<T(!new), W>(eq: (T, T) -> bool, cmp: (T, T) -> Ordering, hashOf: T -> seq<W>) {
    && (forall a, b :: cmp(a, b) == Equal <==> eq(a, b))
    && (forall a, b :: eq(a, b) ==> hashOf(a) == hashOf(b))
  }

  /** The order in which `Hash::hash` feeds the two elements to the hasher:
      the stored order unless `cmp` says the first is `Greater`. */
  function HashOrder<T>(cmp: (T, T) -> Ordering, p: UnorderedPair<T>): (r: (T, T))
    ensures multiset{r.0, r.1} == multiset{p.0, p.1}
    ensures cmp(p.0, p.1) == Greater ==> r == (p.1, p.0)
    ensures cmp(p.0, p.1) != Greater ==> r == (p.0, p.1)
  {
    match cmp(p.0, p.1)
    case Greater => (p.1, p.0)
    case _ => (p.0, p.1)
  }

  /** The words `Hash::hash` writes for the pair: those of the smaller element,
      then those of the larger. `hashOf(x)` is what `x.hash(state)` writes. */
  function HashFeed<T, W>(cmp: (T, T) -> Ordering, hashOf: T -> seq<W>, p: UnorderedPair<T>): (s: seq<W>)
    ensures s == hashOf(p.0) + hashOf(p.1) || s == hashOf(p.1) + hashOf(p.0)
  {
    var (lo, hi) := HashOrder(cmp, p);
    hashOf(lo) + hashOf(hi)
  }

  /** Under a total order the elements are fed in ascending order. */
  lemma HashOrderSorted<T(!new)>(cmp: (T, T) -> Ordering, p: UnorderedPair<T>)
    requires TotalOrder(cmp)
    ensures cmp(HashOrder(cmp, p).0, HashOrder(cmp, p).1) != Greater
  {
  }

  /** With `cmp` a total order under which `Equal` elements hash alike, both
      stored orders of a pair feed the hasher the same words. */
  lemma HashFeedSwapInvariant<T(!new), W>(cmp: (T, T) -> Ordering, hashOf: T -> seq<W>, p: UnorderedPair<T>)
    requires TotalOrder(cmp)
    requires forall a, b :: cmp(a, b) == Equal ==> hashOf(a) == hashOf(b)
    ensures HashFeed(cmp, hashOf, p) == HashFeed(cmp, hashOf, Swap(p))
  {
    var a, b := p.0, p.1;
    match cmp(a, b)
    case Less =>
      assert cmp(b, a) == Greater;
    case Greater =>
      assert cmp(b, a) == Less;
    case Equal =>
      assert hashOf(a) == hashOf(b);
      assert cmp(b, a) == Equal;
  }

  /** When `cmp` calls distinct elements `Equal` and their hashes differ, the
      two stored orders of one pair are hashed differently: the swap
      invariance needs the consistency of `Ord` and `Hash`. */
  lemma HashFeedNeedsConsistentOrder()
    ensures HashFeed((x: int, y: int) => Equal, (x: int) => [x], UnorderedPair(1, 2)) == [1, 2]
    ensures HashFeed((x: int, y: int) => Equal, (x: int) => [x], UnorderedPair(2, 1)) == [2, 1]
  {
  }

  /** `cmp` agrees with itself on elements that are `Equal` to the ones
      compared. */
  lemma CmpRespectsEqual<T(!new)>(cmp: (T, T) -> Ordering, a: T, b: T, c: T, d: T)
    requires TotalOrder(cmp)
    requires cmp(a, c) == Equal && cmp(b, d) == Equal
    ensures cmp(a, b) == cmp(c, d)
  {
    assert cmp(c, a) == Equal && cmp(d, b) == Equal by {
      assert cmp(a, c) != Less && cmp(a, c) != Greater;
    }
    if cmp(a, b) != Greater {
      assert cmp(c, b) != Greater;
      assert cmp(c, d) != Greater;
    } else {
      assert cmp(b, a) == Less;
      assert cmp(d, a) != Greater;
      assert cmp(d, c) != Greater;
    }
    if cmp(b, a) != Greater {
      assert cmp(d, a) != Greater;
      assert cmp(d, c) != Greater;
    } else {
      assert cmp(a, b) == Less;
      assert cmp(c, b) != Greater;
      assert cmp(c, d) != Greater;
    }
  }

  /** The hash is consistent with `Eq`: pairs that `Eq` calls equal feed the
      hasher the same words, and so reach the same hash value from the same
      hasher state. This is what the derived `Eq` marker promises to hash
      maps and hash sets. */
  lemma HashConsistentWithEq<T(!new), W>(
    eq: (T, T) -> bool, cmp: (T, T) -> Ordering, hashOf: T -> seq<W>,
    p: UnorderedPair<T>, q: UnorderedPair<T>)
    requires TotalOrder(cmp)
    requires ConsistentWithEq(eq, cmp, hashOf)
    requires Eq(eq, p, q)
    ensures HashFeed(cmp, hashOf, p) == HashFeed(cmp, hashOf, q)
  {
    if eq(p.0, q.0) && eq(p.1, q.1) {
      CmpRespectsEqual(cmp, p.0, p.1, q.0, q.1);
    } else {
      assert eq(p.0, q.1) && eq(p.1, q.0);
      CmpRespectsEqual(cmp, p.0, p.1, q.1, q.0);
      HashFeedSwapInvariant(cmp, hashOf, q);
    }
  }

  /** Conversely, if equal pairs always write the same words, then elements
      that the element equality calls equal must write the same words: the
      pairs `(a, a)` and `(b, b)` are equal and write `a`'s words twice and
      `b`'s words twice. So the `Hash`-with-`Eq` half of `ConsistentWithEq`
      is necessary. */
  lemma HashConsistencyNeedsElementHashes<T, W>(
    eq: (T, T) -> bool, cmp: (T, T) -> Ordering, hashOf: T -> seq<W>, a: T, b: T)
    requires eq(a, b)
    requires forall p, q :: Eq(eq, p, q) ==> HashFeed(cmp, hashOf, p) == HashFeed(cmp, hashOf, q)
    ensures hashOf(a) == hashOf(b)
  {
    var p, q := UnorderedPair(a, a), UnorderedPair(b, b);
    assert Eq(eq, p, q);
    var fa, fb := HashFeed(cmp, hashOf, p), HashFeed(cmp, hashOf, q);
    assert fa == hashOf(a) + hashOf(a) && fb == hashOf(b) + hashOf(b);
    assert fa == fb;
    assert |hashOf(a)| == |hashOf(b)|;
    assert hashOf(a) == fa[..|hashOf(a)|];
    assert hashOf(b) == fb[..|hashOf(b)|];
  }

  /** For a type whose `Eq` is identity (integers, strings), pairs that `Eq`
      calls equal feed the hasher the same words. */
  lemma HashConsistentWithIdentity<T(!new), W>(
    cmp: (T, T) -> Ordering, hashOf: T -> seq<W>, p: UnorderedPair<T>, q: UnorderedPair<T>)
    requires TotalOrder(cmp)
    requires forall a, b :: cmp(a, b) == Equal ==> a == b
    requires Eq(Identity, p, q)
    ensures HashFeed(cmp, hashOf, p) == HashFeed(cmp, hashOf, q)
  {
    HashConsistentWithEq(Identity, cmp, hashOf, p, q);
  }

  /** A `Hasher` as the sequence of words written to it so far. */
  class Hasher<W> {
    var written: seq<W>

    constructor ()
      ensures written == []
    {
      written := [];
    }

    /** `Hasher::write`: appends the words. */
    method Write(words: seq<W>)
      modifies this
      ensures written == old(written) + words
    {
      written := written + words;
    }
  }

  /** `Hash::hash` for the pair: compares the elements and lets the smaller
      one, then the larger, write to the caller's hasher. */
  method Hash<T, W>(p: UnorderedPair<T>, cmp: (T, T) -> Ordering, hashOf: T -> seq<W>, state: Hasher<W>)
    modifies state
    ensures state.written == old(state.written) + HashFeed(cmp, hashOf, p)
  {
    var UnorderedPair(first, second) := p;
    match cmp(first, second) {
      case Greater =>
        state.Write(hashOf(second));
        state.Write(hashOf(first));
      case _ =>
        state.Write(hashOf(first));
        state.Write(hashOf(second));
    }
  }

  /** Two fresh hashers fed the same pair in opposite stored orders end in
      the same state, so they finish with the same hash value. */
  method HashBothOrders<T(!new), W>(cmp: (T, T) -> Ordering, hashOf: T -> seq<W>, a: T, b: T)
    returns (h1: Hasher<W>, h2: Hasher<W>)
    requires TotalOrder(cmp)
    requires forall x, y :: cmp(x, y) == Equal ==> hashOf(x) == hashOf(y)
    ensures h1.written == h2.written == HashFeed(cmp, hashOf, UnorderedPair(a, b))
  {
    h1 := new Hasher();
    Hash(UnorderedPair(a, b), cmp, hashOf, h1);
    h2 := new Hasher();
    Hash(UnorderedPair(b, a), cmp, hashOf, h2);
    HashFeedSwapInvariant(cmp, hashOf, UnorderedPair(a, b));
  }
}
