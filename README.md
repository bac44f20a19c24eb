# unordered-pair in Dafny

A model of the Rust crate `unordered-pair`: the tuple struct
`UnorderedPair<T>(pub T, pub T)` holding two values of one type, its
conversions from and into an ordered tuple, and its equality and hashing,
which disregard the order of the two values.

Everything is in `unordered_pair.dfy`, module `UnorderedPairs`:

- `UnorderedPair<T>` is a datatype with fields `0` and `1`, like the tuple struct.
- The element type's own capabilities are parameters:
  - `eq: (T, T) -> bool` is `PartialEq` on `T`. It need not be reflexive, which
    covers floating-point NaN.
  - `cmp: (T, T) -> Ordering` is `Ord::cmp`. Its contract is the predicate
    `TotalOrder`.
  - `hashOf: T -> seq<W>` is the words `x.hash(state)` writes to a hasher.
- A `Hasher` is a class whose field `written` is the sequence of words written
  to it. `Hash` is a method that writes to the caller's hasher in place, as
  `hash(&self, state: &mut H)` does. It is proved against the function
  `HashFeed`, and the lemmas about `HashFeed` carry the order-independence and
  consistency properties.
- The derived `Eq` marker promises that pair equality is an equivalence and
  agrees with hashing. `PairEqIsEquivalence` states exactly when the first
  promise holds: when element equality is an equivalence. `HashConsistentWithEq`
  gives a sufficient condition for the second: `Ord` and `Hash` on the element
  type agree with its equality. `HashConsistencyNeedsElementHashes` shows that
  the `Hash` half of that condition is also necessary. The `Ord` half is not
  strictly necessary, but it cannot simply be dropped: `HashFeedNeedsConsistentOrder`
  gives a total order under which swapped pairs hash differently.

## Model

| member | source | states |
|---|---|---|
| UnorderedPairs.FromTuple | src/lib.rs:23-27 | the tuple's first element is stored in field 0 and its second in field 1, without reordering |
| UnorderedPairs.IntoTuple | src/lib.rs:29-33 | the tuple holds field 0 then field 1, in stored order, not canonicalised |
| UnorderedPairs.TupleRoundTrip | src/lib.rs:23-33 | converting a tuple into a pair and back yields exactly the same tuple |
| UnorderedPairs.PairRoundTrip | src/lib.rs:23-33 | converting a pair into a tuple and back yields exactly the same pair |
| UnorderedPairs.OppositeOrderTuplesDiffer | src/lib.rs:23-43 | two distinct values converted in opposite orders give different tuples, yet the pairs are equal when element equality is reflexive on them |
| UnorderedPairs.Eq | src/lib.rs:36-43 | a straight or a crossed element-wise match makes the pairs equal, and equal pairs have every element of the first matched by an element of the second |
| UnorderedPairs.EqIgnoresStoredOrder | src/lib.rs:35-43 | swapping the stored elements of either operand never changes the result of equality, for any element equality |
| UnorderedPairs.EqSwapInvariant | src/lib.rs:35-43 | with element equality reflexive on a and b, pair (a, b) equals itself and equals (b, a) |
| UnorderedPairs.NanPairNotEqual | src/lib.rs:36-43 | with an element that does not equal itself (NaN-like), (0, 1) equals neither (1, 0) nor itself, while (5, 7) equals (7, 5) |
| UnorderedPairs.EqIsMultisetEquality | src/lib.rs:36-43 | with identity as element equality, two pairs are equal exactly when they hold the same multiset of elements |
| UnorderedPairs.PairEqIsEquivalence | src/lib.rs:19-43 | pair equality is an equivalence relation (what the derived Eq marker claims) if and only if element equality is one |
| UnorderedPairs.HashOrder | src/lib.rs:54-65 | the elements fed to the hasher are the pair's two elements: in swapped order when cmp says Greater, in stored order otherwise |
| UnorderedPairs.HashFeed | src/lib.rs:50-66 | the words written are those of the two elements, one after the other, in one order or the other, and nothing more |
| UnorderedPairs.HashOrderSorted | src/lib.rs:54-65 | under a total order the elements are fed in ascending order |
| UnorderedPairs.HashFeedSwapInvariant | src/lib.rs:45-66 | under a total order whose Equal elements hash alike, both stored orders of a pair write the same words |
| UnorderedPairs.HashFeedNeedsConsistentOrder | src/lib.rs:45-66 | with a cmp that calls distinct values Equal, the pairs (1, 2) and (2, 1) write different words, so swap invariance depends on a consistent Ord |
| UnorderedPairs.HashConsistentWithEq | src/lib.rs:19-67 | when Ord and Hash on the element type agree with its equality, pairs that are equal write the same words, so hash alike |
| UnorderedPairs.HashConsistencyNeedsElementHashes | src/lib.rs:19-67 | if equal pairs always write the same words, then elements that are equal must write the same words |
| UnorderedPairs.HashConsistentWithIdentity | src/lib.rs:19-67 | for element types whose equality is identity and whose order is total, equal pairs write the same words |
| UnorderedPairs.Hash | src/lib.rs:46-67 | the caller's hasher afterwards holds its old words followed by the pair's words in canonical order |
| UnorderedPairs.HashBothOrders | src/lib.rs:45-66 | two fresh hashers fed (a, b) and (b, a) end in the same state, hence finish with the same hash value |

## Left out

- The `serde` `Serialize`/`Deserialize` derives (src/lib.rs:13-14, src/lib.rs:20): they are a foreign library's serialization machinery.
- The `Debug`, `Copy` and `Clone` derives and the lint attributes (src/lib.rs:5-11, src/lib.rs:19): they are compiler-generated or have no behaviour.
- The hashing algorithm of a concrete `Hasher` and its `finish`: the model keeps only the sequence of words written, of which any hash value is a function.
- The hash of an element is the parameter `hashOf`; the element type's `Hash` implementation is not part of this model.
- Floating-point semantics: NaN is represented by an element equality that is not reflexive (`NanLikeEq`), not by IEEE floats.
- A conversion into a sorted tuple, iteration over the two elements and `Default` belong to later versions of the crate and do not occur in src/lib.rs, so there is no code to model them against.
