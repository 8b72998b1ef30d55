/** Failure-carrying values shared by the models of the room manager, the
    area-of-interest index and the config compiler. */
module Common {

  /** An optional value: Go's nil or zero value on one side, a present value on the other. */
  datatype Option<+T> = None | Some(value: T)

  /** The outcome of a call that either returns or stops with an error (a Go error value or a panic). */
  datatype Result<+T, +E> = Ok(value: T) | Err(error: E)

  /** `m` is the smallest element of `s`. */
  predicate IsLeast(m: int, s: set<int>)
  {
    m in s && forall y :: y in s ==> m <= y
  }

  /** The smallest element of a non-empty finite set of integers. */
  function Least(s: set<int>): (m: int)
    requires s != {}
    ensures IsLeast(m, s)
  {
    LeastExists(s);
    var m :| IsLeast(m, s);
    m
  }

  /** A non-empty set has a member (stated once so that `:|` can pick one). */
  lemma NonEmpty(s: set<int>)
    requires s != {}
    ensures exists x :: x in s
  {
    if forall x :: x !in s {
      assert false;
    }
  }

  lemma {:induction false} LeastExists(s: set<int>)
    requires s != {}
    ensures exists m :: IsLeast(m, s)
    decreases |s|
  {
    NonEmpty(s);
    var x :| x in s;
    var rest := s - {x};
    if rest == {} {
      assert IsLeast(x, s) by {
        forall y | y in s ensures x <= y {
          assert y !in rest;
        }
      }
    } else {
      LeastExists(rest);
      var m :| IsLeast(m, rest);
      var least := if x < m then x else m;
      assert IsLeast(least, s) by {
        forall y | y in s ensures least <= y {
          if y != x {
            assert y in rest;
          }
        }
      }
    }
  }

  /** The elements of a finite set of integers in ascending order; the model's
      stand-in for Go's unspecified map iteration order. */
  function Ascending(s: set<int>): (r: seq<int>)
    ensures |r| == |s|
    ensures forall x :: x in s <==> x in r
    ensures forall i, j :: 0 <= i < j < |r| ==> r[i] < r[j]
    decreases |s|
  {
    if s == {} then []
    else
      var m := Least(s);
      var rest := Ascending(s - {m});
      AscendingStep(s, m, rest);
      [m] + rest
  }

  /** The least element followed by the rest in order lists the whole set in order. */
  lemma AscendingStep(s: set<int>, m: int, rest: seq<int>)
    requires IsLeast(m, s)
    requires |rest| == |s - {m}|
    requires forall x :: x in s - {m} <==> x in rest
    requires forall i, j :: 0 <= i < j < |rest| ==> rest[i] < rest[j]
    ensures |[m] + rest| == |s|
    ensures forall x :: x in s <==> x in [m] + rest
    ensures forall i, j :: 0 <= i < j < |[m] + rest| ==> ([m] + rest)[i] < ([m] + rest)[j]
  {
    var r := [m] + rest;
    forall i, j | 0 <= i < j < |r| ensures r[i] < r[j] {
      assert r[j] == rest[j - 1] && r[j] in rest;
      if i > 0 {
        assert r[i] == rest[i - 1];
      }
    }
  }
}
