/** Counting the set bits of an occupancy vector.  The frame table is such a
    vector, and so is the column of valid bits of the page table; the engine's
    bookkeeping invariant says the two counts agree. */
module Occupancy {

  function Bit(b: bool): nat { if b then 1 else 0 }

  /** Number of `true` slots in `s`. */
  function CountTrue(s: seq<bool>): (n: nat)
    ensures n <= |s|
  {
    if s == [] then 0 else Bit(s[0]) + CountTrue(s[1..])
  }

  /** Index of the first unset slot of `s`, or -1 when every slot is set. */
  function FirstUnset(s: seq<bool>): (r: int)
    ensures -1 <= r < |s|
    ensures r == -1 <==> forall i :: 0 <= i < |s| ==> s[i]
    ensures r != -1 ==> !s[r] && forall i :: 0 <= i < r ==> s[i]
  {
    if s == [] then -1
    else if !s[0] then 0
    else
      var r := FirstUnset(s[1..]);
      assert forall i :: 1 <= i < |s| ==> s[i] == s[1..][i - 1];
      if r == -1 then -1 else r + 1
  }

  /** Clearing one slot of a vector with every slot set makes that slot the
      first unset one. */
  lemma FirstUnsetOfCleared(s: seq<bool>, f: nat)
    requires f < |s| && forall i :: 0 <= i < |s| ==> s[i]
    ensures FirstUnset(s[f := false]) == f
  {
    assert !s[f := false][f];
  }

  /** Changing one slot changes the count by exactly the change of that slot. */
  lemma {:induction false} CountTrueUpdate(s: seq<bool>, i: nat, b: bool)
    requires i < |s|
    ensures CountTrue(s[i := b]) == CountTrue(s) - Bit(s[i]) + Bit(b)
  {
    if i == 0 {
      assert s[i := b][1..] == s[1..];
    } else {
      CountTrueUpdate(s[1..], i - 1, b);
      assert s[i := b][1..] == s[1..][i - 1 := b];
    }
  }

  /** The count is zero exactly when no slot is set. */
  lemma {:induction false} CountTrueZero(s: seq<bool>)
    ensures CountTrue(s) == 0 <==> forall i :: 0 <= i < |s| ==> !s[i]
  {
    if s != [] {
      CountTrueZero(s[1..]);
      assert forall i :: 1 <= i < |s| ==> s[i] == s[1..][i - 1];
    }
  }

  /** The count equals the length exactly when every slot is set. */
  lemma {:induction false} CountTrueFull(s: seq<bool>)
    ensures CountTrue(s) == |s| <==> forall i :: 0 <= i < |s| ==> s[i]
  {
    if s != [] {
      CountTrueFull(s[1..]);
      assert forall i :: 1 <= i < |s| ==> s[i] == s[1..][i - 1];
    }
  }
}
