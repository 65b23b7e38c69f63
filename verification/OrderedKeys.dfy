/** Lookups of the nearest key, as an ordered tree provides them. */
module OrderedKeys {

  /** k is the greatest key up to x. */
  predicate IsFloor(keys: set<nat>, x: nat, k: nat)
  {
    k in keys && k <= x && forall j :: j in keys && j <= x ==> j <= k
  }

  /** k is the least key from x on. */
  predicate IsCeiling(keys: set<nat>, x: nat, k: nat)
  {
    k in keys && k >= x && forall j :: j in keys && j >= x ==> j >= k
  }

  lemma {:induction false} Greatest(s: set<nat>) returns (k: nat)
    requires s != {}
    ensures k in s && forall j :: j in s ==> j <= k
  {
    k :| k in s;
    if s != {k} {
      var g := Greatest(s - {k});
      assert forall j :: j in s ==> j == k || j in s - {k};
      k := if k < g then g else k;
    }
  }

  lemma {:induction false} Least(s: set<nat>) returns (k: nat)
    requires s != {}
    ensures k in s && forall j :: j in s ==> j >= k
  {
    k :| k in s;
    if s != {k} {
      var g := Least(s - {k});
      assert forall j :: j in s ==> j == k || j in s - {k};
      k := if k > g then g else k;
    }
  }

  lemma FloorExists(keys: set<nat>, x: nat, w: nat) returns (k: nat)
    requires w in keys && w <= x
    ensures k in keys && IsFloor(keys, x, k)
  {
    var s := set j | j in keys && j <= x;
    assert w in s && forall j :: j in keys && j <= x ==> j in s;
    k := Greatest(s);
  }

  lemma CeilingExists(keys: set<nat>, x: nat, w: nat) returns (k: nat)
    requires w in keys && w >= x
    ensures k in keys && IsCeiling(keys, x, k)
  {
    var s := set j | j in keys && j >= x;
    assert w in s && forall j :: j in keys && j >= x ==> j in s;
    k := Least(s);
  }

  method Floor(keys: set<nat>, x: nat) returns (found: bool, k: nat)
    ensures found ==> k in keys && IsFloor(keys, x, k)
    ensures !found ==> forall j :: j in keys ==> j > x
  {
    hide IsFloor;
    if w :| w in keys && w <= x {
      ghost var g := FloorExists(keys, x, w);
      k :| k in keys && IsFloor(keys, x, k);
      return true, k;
    }
    return false, 0;
  }

  method Ceiling(keys: set<nat>, x: nat) returns (found: bool, k: nat)
    ensures found ==> k in keys && IsCeiling(keys, x, k)
    ensures !found ==> forall j :: j in keys ==> j < x
  {
    hide IsCeiling;
    if w :| w in keys && w >= x {
      ghost var g := CeilingExists(keys, x, w);
      k :| k in keys && IsCeiling(keys, x, k);
      return true, k;
    }
    return false, 0;
  }
}
