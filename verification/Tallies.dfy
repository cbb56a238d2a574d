/** Counting marks in a sequence, for the machines that count running operations. */
module Tallies {

  function Number(marks: seq<bool>): nat {
    if marks == [] then 0
    else Number(marks[..|marks| - 1]) + (if marks[|marks| - 1] then 1 else 0)
  }

  /** The positions marked in `a` and not in `b`. */
  function Except(a: seq<bool>, b: seq<bool>): seq<bool>
    requires |a| == |b|
  {
    seq(|a|, i requires 0 <= i < |a| => a[i] && !b[i])
  }

  lemma {:induction false} NumberUpdate(marks: seq<bool>, i: nat, b: bool)
    requires i < |marks|
    ensures Number(marks[i := b]) == Number(marks) + (if b then 1 else 0) - (if marks[i] then 1 else 0)
  {
    var front := marks[..|marks| - 1];
    if i < |front| {
      NumberUpdate(front, i, b);
      assert marks[i := b][..|marks| - 1] == front[i := b];
    } else {
      assert marks[i := b][..|marks| - 1] == front;
    }
  }

  lemma NumberPush(marks: seq<bool>, b: bool)
    ensures Number(marks + [b]) == Number(marks) + (if b then 1 else 0)
  {
    assert (marks + [b])[..|marks|] == marks;
  }

  /** Marks of `a` are marks of `b` or in the difference; exactly so when `b` implies `a`. */
  lemma {:induction false} NumberExcept(a: seq<bool>, b: seq<bool>)
    requires |a| == |b|
    ensures Number(a) <= Number(b) + Number(Except(a, b))
    ensures (forall i :: 0 <= i < |a| && b[i] ==> a[i]) ==> Number(a) == Number(b) + Number(Except(a, b))
  {
    if a != [] {
      var n := |a| - 1;
      NumberExcept(a[..n], b[..n]);
      assert Except(a, b)[..n] == Except(a[..n], b[..n]);
    }
  }

  lemma {:induction false} NumberExtremes(marks: seq<bool>)
    ensures (forall i :: 0 <= i < |marks| ==> !marks[i]) ==> Number(marks) == 0
    ensures (forall i :: 0 <= i < |marks| ==> marks[i]) ==> Number(marks) == |marks|
  {
    if marks != [] {
      NumberExtremes(marks[..|marks| - 1]);
    }
  }
}
