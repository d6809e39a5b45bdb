/** Facts about sequence concatenation and slicing, stated over arbitrary
    sequences so that they are proved once, away from the walker's definitions. */
module Seqs {

  lemma Assoc<T>(a: seq<T>, b: seq<T>, c: seq<T>)
    ensures (a + b) + c == a + (b + c)
  {
  }

  /** Re-bracketing a block appended after a prefix. */
  lemma AppendBlock<T>(out: seq<T>, x: seq<T>, w: seq<T>, rest: seq<T>)
    ensures out + x + w + rest == out + (x + w + rest)
  {
  }

  /** Reading a block `[x] + sub` back out of `pre + [x] + sub + rest`. */
  lemma BlockAt<T>(all: seq<T>, pre: seq<T>, x: T, sub: seq<T>, rest: seq<T>)
    requires all == pre + [x] + sub + rest
    ensures |pre| + 1 + |sub| <= |all|
    ensures all[|pre|] == x
    ensures all[|pre| + 1 .. |pre| + 1 + |sub|] == sub
  {
  }
}
