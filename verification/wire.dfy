/** Octets on the wire and the line terminator HTTP uses. */
module Wire {

  newtype byte = x: int | 0 <= x < 256

  const CR: byte := 13
  const LF: byte := 10
  const CRLF: seq<byte> := [CR, LF]

  /** The blocks laid end to end. */
  function Concat(blocks: seq<seq<byte>>): seq<byte>
  {
    if |blocks| == 0 then [] else blocks[0] + Concat(blocks[1..])
  }

  /** Concatenation distributes over appending block lists. */
  lemma {:induction false} ConcatAppend(a: seq<seq<byte>>, b: seq<seq<byte>>)
    ensures Concat(a + b) == Concat(a) + Concat(b)
    decreases |a|
  {
    if |a| == 0 {
      assert a + b == b;
    } else {
      assert (a + b)[1..] == a[1..] + b;
      ConcatAppend(a[1..], b);
    }
  }

  /** Appending one block to the list appends its bytes. */
  lemma ConcatSnoc(a: seq<seq<byte>>, x: seq<byte>)
    ensures Concat(a + [x]) == Concat(a) + x
  {
    ConcatAppend(a, [x]);
    assert Concat([x]) == x + Concat([]);
  }

  /** Concatenation of a non-empty list: the first block, then the rest. */
  lemma ConcatCons(a: seq<seq<byte>>)
    requires |a| > 0
    ensures Concat(a) == a[0] + Concat(a[1..])
  {
  }


  /** Sequence facts stated once, generically, so that proofs about long
      lists of byte strings use them without re-deriving them element by
      element. */
  lemma TailOfAppend<T>(a: seq<T>, b: seq<T>)
    requires |a| > 0
    ensures (a + b)[1..] == a[1..] + b
  {
  }

  lemma AppendNil<T>(s: seq<T>)
    ensures s + [] == s
  {
  }

  lemma SeqAssoc<T>(a: seq<T>, b: seq<T>, c: seq<T>)
    ensures (a + b) + c == a + (b + c)
  {
  }
}
