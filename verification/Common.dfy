/** What several components share. */
module Common {
  datatype Option<+T> = None | Some(value: T)

  function Reverse<T>(s: seq<T>): (r: seq<T>)
    ensures |r| == |s|
  {
    if s == [] then [] else Reverse(s[1..]) + [s[0]]
  }

  lemma {:induction false} ReverseAppend<T>(s: seq<T>, t: seq<T>)
    ensures Reverse(s + t) == Reverse(t) + Reverse(s)
  {
    if s == [] {
      assert s + t == t;
    } else {
      ReverseAppend(s[1..], t);
      assert (s + t)[1..] == s[1..] + t;
    }
  }

  ghost predicate Increasing(at: seq<nat>, bound: nat) {
    && (forall i :: 0 <= i < |at| ==> at[i] < bound)
    && (forall i, j :: 0 <= i < j < |at| ==> at[i] < at[j])
  }

  /** Are the picked elements exactly those marked, each once and in order? `at` are their places. */
  ghost predicate Picked<T>(picked: seq<T>, from: seq<T>, marked: seq<bool>, at: seq<nat>) {
    && |marked| == |from| && Increasing(at, |from|) && |picked| == |at|
    && (forall i: nat | i < |from| :: marked[i] <==> i in at)
    && forall k :: 0 <= k < |at| ==> picked[k] == from[at[k]]
  }

  lemma PickedSnoc<T>(picked: seq<T>, from: seq<T>, marked: seq<bool>, at: seq<nat>, x: T)
    requires Picked(picked, from, marked, at)
    ensures Picked(picked, from + [x], marked + [false], at)
    ensures Picked(picked + [x], from + [x], marked + [true], at + [|from|])
  {
    var now := at + [|from|];
    forall i: nat | i < |from + [x]|
      ensures (marked + [true])[i] <==> i in now
    {
      assert now[|at|] == |from|;
      assert forall k :: 0 <= k < |at| ==> now[k] == at[k];
      assert i in at ==> i in now;
    }
  }
}
