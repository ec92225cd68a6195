/** Failure-carrying values shared by every module: `Option` for a value that
    may be missing (JavaScript `null`/`undefined`, Python `None`) and `Result`
    for a computation that may throw. */
module Wrappers {

  datatype Option<+T> = None | Some(value: T) {

    /** The wrapped value, or `default` when there is none. */
    function GetOr(default: T): T {
      match this
      case Some(v) => v
      case None => default
    }

    /** Turns a missing value into the given error. */
    function ToResult<E>(error: E): Result<T, E> {
      match this
      case Some(v) => Ok(v)
      case None => Err(error)
    }
  }

  /** `Err` plays the role of an exception; `:-` propagates it. */
  datatype Result<+T, +E> = Ok(value: T) | Err(error: E) {

    predicate IsFailure() {
      Err?
    }

    function PropagateFailure<U>(): Result<U, E>
      requires Err?
    {
      Err(error)
    }

    function Extract(): T
      requires Ok?
    {
      value
    }
  }

  /** Applies `f` to each element in order, as a loop that stops at the first
      exception: every result when all succeed, else the first failure. */
  function MapAll<A, B, E>(s: seq<A>, f: A --> Result<B, E>): (r: Result<seq<B>, E>)
    requires forall i :: 0 <= i < |s| ==> f.requires(s[i])
    ensures r.Ok? <==> forall i :: 0 <= i < |s| ==> f(s[i]).Ok?
    ensures r.Ok? ==> |r.value| == |s| && forall i :: 0 <= i < |s| ==> r.value[i] == f(s[i]).value
    ensures r.Err? ==> exists i :: 0 <= i < |s| && f(s[i]) == Err(r.error) && forall j :: 0 <= j < i ==> f(s[j]).Ok?
    decreases |s|
  {
    if |s| == 0 then Ok([])
    else
      var first :- f(s[0]);
      var rest := MapAll(s[1..], f);
      assert forall i :: 1 <= i < |s| ==> s[i] == s[1..][i - 1];
      if rest.Err? then
        assert exists i :: 0 <= i < |s| && f(s[i]) == Err(rest.error) && forall j :: 0 <= j < i ==> f(s[j]).Ok? by {
          var k :| 0 <= k < |s| - 1 && f(s[1..][k]) == Err(rest.error) && forall j :: 0 <= j < k ==> f(s[1..][j]).Ok?;
          assert f(s[k + 1]) == Err(rest.error);
        }
        Err(rest.error)
      else
        Ok([first] + rest.value)
  }

  /** The values of the `Some` entries of `os`, in order. */
  function Somes<T>(os: seq<Option<T>>): (r: seq<T>)
    ensures |r| <= |os|
    decreases |os|
  {
    if |os| == 0 then [] else (if os[0].Some? then [os[0].value] else []) + Somes(os[1..])
  }

  /** `ix` lists, in increasing order, exactly the indices of the `Some`
      entries of `os`, and `Somes(os)[k]` is the value at `ix[k]`. */
  ghost predicate IndexesSomes<T>(os: seq<Option<T>>, ix: seq<int>) {
    && |ix| == |Somes(os)|
    && (forall k :: 0 <= k < |ix| ==> 0 <= ix[k] < |os| && os[ix[k]] == Some(Somes(os)[k]))
    && (forall k, m :: 0 <= k < m < |ix| ==> ix[k] < ix[m])
    && (forall i :: 0 <= i < |os| && os[i].Some? ==> i in ix)
  }

  /** Every `Some` entry appears in `Somes` once, in its original position
      order. */
  lemma {:induction false} SomesIndexed<T>(os: seq<Option<T>>) returns (ix: seq<int>)
    ensures IndexesSomes(os, ix)
    decreases |os|
  {
    if |os| == 0 {
      ix := [];
    } else {
      var ir := SomesIndexed(os[1..]);
      var shifted := seq(|ir|, k requires 0 <= k < |ir| => ir[k] + 1);
      ix := (if os[0].Some? then [0] else []) + shifted;
      ShiftIndexes(os, ir, shifted, ix);
    }
  }

  lemma ShiftIndexes<T>(os: seq<Option<T>>, ir: seq<int>, shifted: seq<int>, ix: seq<int>)
    requires |os| > 0 && IndexesSomes(os[1..], ir)
    requires |shifted| == |ir| && forall k :: 0 <= k < |ir| ==> shifted[k] == ir[k] + 1
    requires ix == (if os[0].Some? then [0] else []) + shifted
    ensures IndexesSomes(os, ix)
  {
    var d := if os[0].Some? then 1 else 0;
    assert Somes(os) == (if os[0].Some? then [os[0].value] else []) + Somes(os[1..]);
    var rest := os[1..];
    forall k | 0 <= k < |ir|
      ensures 0 <= ir[k] < |os| - 1 && os[ir[k] + 1] == Some(Somes(rest)[k])
    {
      assert rest[ir[k]] == os[ir[k] + 1];
    }
    ShiftPointwise(os, Somes(os), Somes(rest), ir, ix, d);
    ShiftIncreasing(ir, ix, d);
    ShiftCovers(os, ir, ix, d);
  }

  lemma ShiftPointwise<T>(os: seq<Option<T>>, r: seq<T>, rr: seq<T>, ir: seq<int>, ix: seq<int>, d: int)
    requires |os| > 0 && d == (if os[0].Some? then 1 else 0) && |ix| == |ir| + d
    requires |ir| == |rr| && forall k :: 0 <= k < |ir| ==> 0 <= ir[k] < |os| - 1 && os[ir[k] + 1] == Some(rr[k])
    requires d == 1 ==> ix[0] == 0
    requires forall k :: d <= k < |ix| ==> ix[k] == ir[k - d] + 1
    requires r == (if os[0].Some? then [os[0].value] else []) + rr
    ensures forall k :: 0 <= k < |ix| ==> 0 <= ix[k] < |os| && os[ix[k]] == Some(r[k])
  {
    forall k | 0 <= k < |ix|
      ensures 0 <= ix[k] < |os| && os[ix[k]] == Some(r[k])
    {
      if k >= d {
        assert r[k] == rr[k - d];
      }
    }
  }

  lemma ShiftIncreasing(ir: seq<int>, ix: seq<int>, d: int)
    requires 0 <= d <= 1 && |ix| == |ir| + d
    requires d == 1 ==> ix[0] == 0
    requires forall k :: d <= k < |ix| ==> ix[k] == ir[k - d] + 1
    requires forall k :: 0 <= k < |ir| ==> 0 <= ir[k]
    requires forall k, m :: 0 <= k < m < |ir| ==> ir[k] < ir[m]
    ensures forall k, m :: 0 <= k < m < |ix| ==> ix[k] < ix[m]
  {
    forall k, m | 0 <= k < m < |ix|
      ensures ix[k] < ix[m]
    {
      assert ix[m] == ir[m - d] + 1;
      if k >= d {
        assert ix[k] == ir[k - d] + 1;
      }
    }
  }

  lemma ShiftCovers<T>(os: seq<Option<T>>, ir: seq<int>, ix: seq<int>, d: int)
    requires |os| > 0 && d == (if os[0].Some? then 1 else 0) && |ix| == |ir| + d
    requires d == 1 ==> ix[0] == 0
    requires forall k :: d <= k < |ix| ==> ix[k] == ir[k - d] + 1
    requires forall i :: 0 <= i < |os[1..]| && os[1..][i].Some? ==> i in ir
    ensures forall i :: 0 <= i < |os| && os[i].Some? ==> i in ix
  {
    forall i | 0 <= i < |os| && os[i].Some?
      ensures i in ix
    {
      if i > 0 {
        assert os[1..][i - 1] == os[i];
        var k :| 0 <= k < |ir| && ir[k] == i - 1;
        assert ix[k + d] == i;
      }
    }
  }

}
