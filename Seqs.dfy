/** Facts about sequences used by the list-building loops. */
module Seqs {
  lemma AppendAssoc<T>(a: seq<T>, b: seq<T>, c: seq<T>)
    ensures a + (b + c) == a + b + c
  {
  }

  /** The `n` elements of `s` from position `i` on. */
  function Window<T>(s: seq<T>, i: nat, n: nat): (w: seq<T>)
    requires i + n <= |s|
    ensures |w| == n
  {
    s[i..i + n]
  }

  /** `part` occurs as one contiguous block of `whole`. */
  ghost predicate Occurs<T>(part: seq<T>, whole: seq<T>)
  {
    exists i: nat :: i + |part| <= |whole| && Window(whole, i, |part|) == part
  }

  lemma OccursInContext<T>(part: seq<T>, pre: seq<T>, post: seq<T>)
    ensures Occurs(part, pre + part + post)
  {
    assert Window(pre + part + post, |pre|, |part|) == part;
  }

  lemma OccursExtend<T>(part: seq<T>, whole: seq<T>, pre: seq<T>, post: seq<T>)
    requires Occurs(part, whole)
    ensures Occurs(part, pre + whole + post)
  {
    var i: nat :| i + |part| <= |whole| && Window(whole, i, |part|) == part;
    assert Window(pre + whole + post, |pre| + i, |part|) == Window(whole, i, |part|);
  }

  /** A block at the front of a sequence occurs in it. */
  lemma OccursAtFront<T>(part: seq<T>, rest: seq<T>, whole: seq<T>)
    requires whole == part + rest
    ensures Occurs(part, whole)
  {
    OccursInContext(part, [], rest);
    assert [] + part + rest == whole;
  }

  /** A block of the tail of a sequence occurs in the sequence. */
  lemma OccursInTail<T>(part: seq<T>, front: seq<T>, rest: seq<T>, whole: seq<T>)
    requires whole == front + rest && Occurs(part, rest)
    ensures Occurs(part, whole)
  {
    OccursExtend(part, rest, front, []);
    assert front + rest + [] == whole;
  }

  /** The blocks of `bs` laid end to end. */
  function Flatten<T>(bs: seq<seq<T>>): seq<T>
  {
    if bs == [] then [] else bs[0] + Flatten(bs[1..])
  }

  /** Every block of a list of blocks occurs in their concatenation. */
  lemma {:induction false} BlockOccurs<T>(bs: seq<seq<T>>, i: nat)
    requires i < |bs|
    ensures Occurs(bs[i], Flatten(bs))
  {
    if i == 0 {
      OccursAtFront(bs[0], Flatten(bs[1..]), Flatten(bs));
    } else {
      BlockOccurs(bs[1..], i - 1);
      OccursInTail(bs[i], bs[0], Flatten(bs[1..]), Flatten(bs));
    }
  }
}
