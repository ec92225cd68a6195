/** Counting the elements a fallible test answers false for, as a loop that
    stops at the first exception. */
module Counting {
  import opened Wrappers

  function CountFalse<A, E>(s: seq<A>, q: A -> Result<bool, E>): (r: Result<nat, E>)
    ensures r.Ok? <==> forall i :: 0 <= i < |s| ==> q(s[i]).Ok?
    ensures r.Ok? ==> r.value <= |s|
    ensures r.Ok? ==> (r.value == 0 <==> forall i :: 0 <= i < |s| ==> q(s[i]).value)
    ensures r.Ok? ==> (r.value == |s| <==> forall i :: 0 <= i < |s| ==> !q(s[i]).value)
    decreases |s|
  {
    if |s| == 0 then Ok(0)
    else
      var b :- q(s[0]);
      var n :- CountFalse(s[1..], q);
      assert forall i :: 1 <= i < |s| ==> s[i] == s[1..][i - 1];
      Ok(if b then n else n + 1)
  }

  /** The positions of the elements that `q` answers false for. */
  ghost function FalseAt<A, E>(s: seq<A>, q: A -> Result<bool, E>): (ix: set<int>)
    ensures forall i :: i in ix ==> 0 <= i < |s|
  {
    set i | 0 <= i < |s| && q(s[i]).Ok? && !q(s[i]).value
  }

  /** Counting over `a + b` adds the counts over `a` and over `b`. */
  lemma {:induction false} CountFalseAppend<A, E>(a: seq<A>, b: seq<A>, q: A -> Result<bool, E>)
    requires CountFalse(a + b, q).Ok?
    ensures CountFalse(a, q).Ok? && CountFalse(b, q).Ok?
    ensures CountFalse(a + b, q).value == CountFalse(a, q).value + CountFalse(b, q).value
    decreases |a|
  {
    var ab := a + b;
    forall i | 0 <= i < |a|
      ensures q(a[i]).Ok?
    {
      assert a[i] == ab[i];
    }
    forall i | 0 <= i < |b|
      ensures q(b[i]).Ok?
    {
      assert b[i] == ab[|a| + i];
    }
    if |a| == 0 {
      assert ab == b;
    } else {
      assert ab[1..] == a[1..] + b;
      CountFalseAppend(a[1..], b, q);
    }
  }

  /** The count is the number of positions answered false. */
  lemma {:induction false} CountFalseCounts<A, E>(s: seq<A>, q: A -> Result<bool, E>)
    requires CountFalse(s, q).Ok?
    ensures CountFalse(s, q).value == |FalseAt(s, q)|
    decreases |s|
  {
    if |s| > 0 {
      var n := |s| - 1;
      CountFalseSnoc(s, q);
      CountFalseCounts(s[..n], q);
      FalseAtSnoc(s, q);
    }
  }

  /** The count over `s` is the count over all but its last element, plus one
      when the last is answered false. */
  lemma CountFalseSnoc<A, E>(s: seq<A>, q: A -> Result<bool, E>)
    requires |s| > 0 && CountFalse(s, q).Ok?
    ensures var n := |s| - 1;
      && CountFalse(s[..n], q).Ok?
      && q(s[n]).Ok?
      && CountFalse(s, q).value == CountFalse(s[..n], q).value + if q(s[n]).value then 0 else 1
  {
    var n := |s| - 1;
    assert s == s[..n] + [s[n]];
    CountFalseAppend(s[..n], [s[n]], q);
    assert [s[n]][1..] == [];
  }

  /** The false positions of `s` are those of all but its last element, plus
      the last one when it is answered false. */
  lemma FalseAtSnoc<A, E>(s: seq<A>, q: A -> Result<bool, E>)
    requires |s| > 0
    ensures var n := |s| - 1;
      var last: set<int> := if q(s[n]).Ok? && !q(s[n]).value then {n} else {};
      && n !in FalseAt(s[..n], q)
      && FalseAt(s, q) == FalseAt(s[..n], q) + last
  {
    var n := |s| - 1;
    forall i | 0 <= i < n
      ensures s[..n][i] == s[i]
    {
    }
  }
}
