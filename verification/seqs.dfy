/** Small sequence utilities shared by the stages: the order in which a
    stack whose top is its last element is popped, and flattening a
    sequence of strings. */
module Seqs {

  /** The elements of `s` from last to first: the order in which popping
      a stack whose top is `s[|s|-1]` delivers them. */
  function Reverse<T>(s: seq<T>): (r: seq<T>)
    ensures |r| == |s|
    ensures forall i :: 0 <= i < |s| ==> r[i] == s[|s| - 1 - i]
  {
    if |s| == 0 then [] else [s[|s| - 1]] + Reverse(s[..|s| - 1])
  }

  lemma {:induction false} ReverseMultiset<T>(s: seq<T>)
    ensures multiset(Reverse(s)) == multiset(s)
  {
    if |s| > 0 {
      ReverseMultiset(s[..|s| - 1]);
      assert s == s[..|s| - 1] + [s[|s| - 1]];
    }
  }

  lemma {:induction false} AppendAssoc<T>(a: seq<T>, b: seq<T>, c: seq<T>)
    ensures a + b + c == a + (b + c)
  {
  }

  lemma {:induction false} HeadTail<T>(s: seq<T>)
    requires |s| > 0
    ensures [s[0]] + s[1..] == s
  {
  }

  lemma {:induction false} ReverseLast<T>(s: seq<T>)
    requires |s| > 0
    ensures Reverse(s) == [s[|s| - 1]] + Reverse(s[..|s| - 1])
  {
  }

  lemma {:induction false} ReverseOne<T>(x: T)
    ensures Reverse([x]) == [x]
  {
  }

  lemma {:induction false} ReverseAppend<T>(a: seq<T>, b: seq<T>)
    ensures Reverse(a + b) == Reverse(b) + Reverse(a)
  {
  }

  /** The concatenation of all strings of `ss`, in order. */
  function Concat<T>(ss: seq<seq<T>>): (r: seq<T>)
    ensures |ss| == 1 ==> r == ss[0]
  {
    if |ss| == 0 then [] else ss[0] + Concat(ss[1..])
  }

  /** The first element of a concatenation is the first element of its
      first piece, when that piece is not empty. */
  lemma {:induction false} ConcatHead<T>(ss: seq<seq<T>>)
    requires |ss| > 0 && |ss[0]| > 0
    ensures var c := Concat(ss); |c| > 0 && c[0] == ss[0][0]
  {
    assert Concat(ss) == ss[0] + Concat(ss[1..]);
  }

  /** The last element of a concatenation is the last element of its
      last piece, when that piece is not empty. */
  lemma {:induction false} ConcatLast<T>(ss: seq<seq<T>>)
    requires |ss| > 0 && |ss[|ss| - 1]| > 0
    ensures var c, last := Concat(ss), ss[|ss| - 1];
      |c| >= |last| && c[|c| - 1] == last[|last| - 1]
  {
    var init, last := ss[..|ss| - 1], ss[|ss| - 1];
    assert init + [last] == ss;
    ConcatAppend(init, [last]);
    var c := Concat(init) + last;
    assert c[|c| - 1] == last[|last| - 1];
  }

  lemma {:induction false} ConcatAppend<T>(a: seq<seq<T>>, b: seq<seq<T>>)
    ensures Concat(a + b) == Concat(a) + Concat(b)
  {
    if |a| > 0 {
      assert (a + b)[1..] == a[1..] + b;
      ConcatAppend(a[1..], b);
    } else {
      assert a + b == b;
    }
  }

  /** A concatenation of one-element pieces lists those elements. */
  lemma {:induction false} ConcatSingletons<T>(ss: seq<seq<T>>)
    requires forall i :: 0 <= i < |ss| ==> |ss[i]| == 1
    ensures var c := Concat(ss); |c| == |ss| && forall i :: 0 <= i < |ss| ==> c[i] == ss[i][0]
  {
    if |ss| > 0 {
      ConcatSingletons(ss[1..]);
      assert Concat(ss) == ss[0] + Concat(ss[1..]);
    }
  }
}
