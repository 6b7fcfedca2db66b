/** Regrouping lemmas for sequence concatenation, stated once over any element type so
    that proofs about URLs and markup can cite them instead of re-deriving
    associativity inside large contexts. */
module Sequences {

  /** Appending a concatenation of four pieces is appending them one by one. */
  lemma AppendFour<T>(a: seq<T>, b: seq<T>, c: seq<T>, d: seq<T>, e: seq<T>)
    ensures a + (b + c + d + e) == a + b + c + d + e
  {
  }

  /** A piece in the middle of a concatenation can be regrouped with its left neighbour. */
  lemma AppendRegroup<T>(a: seq<T>, b: seq<T>, c: seq<T>, d: seq<T>)
    ensures a + (b + c) + d == (a + b) + c + d
  {
  }

  /** Four pieces appended left to right are the first followed by the other three. */
  lemma AppendRight<T>(a: seq<T>, b: seq<T>, c: seq<T>, d: seq<T>)
    ensures a + b + c + d == a + (b + c + d)
  {
  }

  /** A needle inside the third of four pieces lies between everything before it and
      everything after it. */
  lemma AppendInfix<T>(a: seq<T>, b: seq<T>, before: seq<T>, needle: seq<T>, after: seq<T>, c: seq<T>, d: seq<T>)
    ensures a + (b + (before + needle + after)) + c + d == (a + b + before) + needle + (after + c + d)
  {
  }

  /** A list of three is its first element followed by the other two. */
  lemma HeadAndRest<T>(first: T, second: T, third: T)
    ensures [first, second, third] == [first] + [second, third]
  {
  }

  /** Two separators around the middle of the first of three pieces split it into
      three pieces. */
  lemma RegroupFields<T>(a: seq<T>, head: seq<T>, sep: seq<T>, tail: seq<T>, b: seq<T>, c: seq<T>)
    ensures a + (head + sep + tail) + sep + b + c == (a + head) + sep + (tail + sep + (b + c))
  {
  }

  /** A non-empty sequence followed by another is its head followed by the rest. */
  lemma ConsAppend<T>(s: seq<T>, t: seq<T>)
    requires s != []
    ensures s + t == [s[0]] + (s[1..] + t)
  {
  }
}
