// The interpreter's stack: a JavaScript array of words that the handlers
// mutate in place. The top of the stack is the LAST element (push appends,
// pop removes the last element).
module Stacks {
  import opened Bigint

  class Stack {
    var items: seq<Word>

    constructor ()
      ensures items == []
    {
      items := [];
    }

    /** Array.prototype.push. */
    method Push(x: Word)
      modifies this
      ensures items == old(items) + [x]
    {
      items := items + [x];
    }

    /** Array.prototype.pop on a non-empty array: removes and returns the last element. */
    method Pop() returns (x: Word)
      requires |items| >= 1
      modifies this
      ensures old(items) == items + [x]
    {
      x := items[|items| - 1];
      items := items[..|items| - 1];
    }

    /** Array.prototype.reverse, in place. */
    method Reverse()
      modifies this
      ensures items == Reversed(old(items))
    {
      items := Reversed(items);
    }
  }

  function Reversed(s: seq<Word>): (r: seq<Word>)
    ensures |r| == |s|
    ensures forall i :: 0 <= i < |s| ==> r[i] == s[|s| - 1 - i]
  {
    if s == [] then [] else [s[|s| - 1]] + Reversed(s[..|s| - 1])
  }

  /** Element i counted from the top (0 is the top). */
  function Peek(s: seq<Word>, i: nat): Word
    requires i < |s|
  {
    s[|s| - 1 - i]
  }

  // The stack effect of a handler that pops one, two or three operands
  // (the first pop is the top) and pushes one result.

  function Unary(s: seq<Word>, f: Word -> Word): seq<Word>
    requires |s| >= 1
  {
    s[..|s| - 1] + [f(Peek(s, 0))]
  }

  function Binary(s: seq<Word>, f: (Word, Word) -> Word): seq<Word>
    requires |s| >= 2
  {
    s[..|s| - 2] + [f(Peek(s, 0), Peek(s, 1))]
  }

  function Ternary(s: seq<Word>, f: (Word, Word, Word) -> Word): seq<Word>
    requires |s| >= 3
  {
    s[..|s| - 3] + [f(Peek(s, 0), Peek(s, 1), Peek(s, 2))]
  }

  /** A binary handler keeps every element below its two operands and leaves one more below the result. */
  lemma BinaryFrame(s: seq<Word>, f: (Word, Word) -> Word)
    requires |s| >= 2
    ensures |Binary(s, f)| == |s| - 1
    ensures forall i :: 0 <= i < |s| - 2 ==> Binary(s, f)[i] == s[i]
    ensures Peek(Binary(s, f), 0) == f(Peek(s, 0), Peek(s, 1))
  {
  }

  lemma UnaryFrame(s: seq<Word>, f: Word -> Word)
    requires |s| >= 1
    ensures |Unary(s, f)| == |s|
    ensures forall i :: 0 <= i < |s| - 1 ==> Unary(s, f)[i] == s[i]
    ensures Peek(Unary(s, f), 0) == f(Peek(s, 0))
  {
  }
}
