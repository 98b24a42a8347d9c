/**
 * The order in which `Object.entries` visits the keys of a plain object whose
 * keys are non-negative integers: ascending numeric order.  The reservation
 * table's handlers that scan entries (`find`, `filter`) rely on this order.
 */
module EntryOrder {

  /** `m` is the least element of `s`. */
  predicate IsLeast(m: nat, s: set<nat>) {
    m in s && forall j :: j in s ==> m <= j
  }

  /** Every non-empty set of naturals has a least element. */
  lemma {:induction false} LeastExists(s: set<nat>)
    requires s != {}
    ensures exists m :: IsLeast(m, s)
    decreases |s|
  {
    var x :| x in s;
    if s != {x} {
      var rest := s - {x};
      assert rest != {} by {
        var y :| y in s && y != x;
        assert y in rest;
      }
      LeastExists(rest);
      var m :| IsLeast(m, rest);
      assert s == rest + {x};
      if x < m {
        assert IsLeast(x, s);
      } else {
        assert IsLeast(m, s);
      }
    } else {
      assert IsLeast(x, s);
    }
  }

  /** The least element of a non-empty set of naturals. */
  function Least(s: set<nat>): (m: nat)
    requires s != {}
    ensures m in s
    ensures forall j :: j in s ==> m <= j
  {
    LeastExists(s);
    var m :| IsLeast(m, s);
    m
  }

  /** `r` lists the elements of `s`, each once, in strictly increasing order. */
  predicate ListsAscending(r: seq<nat>, s: set<nat>) {
    && |r| == |s|
    && (forall i :: 0 <= i < |r| ==> r[i] in s)
    && (forall k :: k in s ==> k in r)
    && (forall i, j :: 0 <= i < j < |r| ==> r[i] < r[j])
  }

  /** Putting the least element in front of an ascending listing of the rest lists the whole set. */
  lemma ConsLeast(s: set<nat>, m: nat, rest: seq<nat>)
    requires IsLeast(m, s)
    requires ListsAscending(rest, s - {m})
    ensures ListsAscending([m] + rest, s)
  {
    assert |s - {m}| == |s| - 1;
    var r := [m] + rest;
    forall k | k in s
      ensures k in r
    {
      if k != m {
        assert k in rest;
      }
    }
  }

  /** The elements of `s` in the order `Object.entries` lists integer keys. */
  function Ascending(s: set<nat>): (r: seq<nat>)
    ensures |r| == |s|
    ensures forall i :: 0 <= i < |r| ==> r[i] in s
    ensures forall k :: k in s ==> k in r
    ensures forall i, j :: 0 <= i < j < |r| ==> r[i] < r[j]
    decreases |s|
  {
    if s == {} then []
    else
      var m := Least(s);
      var rest := Ascending(s - {m});
      ConsLeast(s, m, rest);
      [m] + rest
  }
}
