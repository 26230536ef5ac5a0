/** Shared vocabulary of the model: optional values and results, counting
    over sequences, sums over an enumeration of map keys, and the smallest
    and largest value of a map (Python's min/max over dict values). */
module Common {

  datatype Option<T> = None | Some(value: T)

  /** A value, or the error a Python function would raise instead. */
  datatype Result<T, E> = Success(value: T) | Failure(error: E)

  /** The elements of s are pairwise distinct (the keys of a dict, say). */
  predicate NoDup<T(==)>(s: seq<T>)
  {
    forall i, j | 0 <= i < j < |s| :: s[i] != s[j]
  }

  /** Number of occurrences of v in s. */
  function Count<T(==)>(s: seq<T>, v: T): (c: nat)
    ensures c <= |s|
    ensures c > 0 <==> v in s
  {
    if s == [] then 0 else (if s[0] == v then 1 else 0) + Count(s[1..], v)
  }

  /** A value occurs exactly once in a duplicate-free sequence. */
  lemma {:induction false} CountInNoDup<T>(s: seq<T>, v: T)
    requires NoDup(s) && v in s
    ensures Count(s, v) == 1
  {
    if s[0] == v {
      assert v !in s[1..] by {
        forall i | 0 <= i < |s[1..]| ensures s[1..][i] != v {
          assert s[1..][i] == s[i + 1];
        }
      }
    } else {
      assert NoDup(s[1..]) by {
        forall i, j | 0 <= i < j < |s[1..]| ensures s[1..][i] != s[1..][j] {
          assert s[1..][i] == s[i + 1] && s[1..][j] == s[j + 1];
        }
      }
      CountInNoDup(s[1..], v);
    }
  }

  /** The sum of m's values at the keys ks, in that order. */
  function SumOver<K(==)>(ks: seq<K>, m: map<K, real>): real
    requires forall k | k in ks :: k in m
  {
    if ks == [] then 0.0 else m[ks[0]] + SumOver(ks[1..], m)
  }

  /** x is a value of m and no value of m is smaller: Python's min(m.values()). */
  ghost predicate IsLeast<K>(m: map<K, real>, x: real)
  {
    (exists k :: k in m && m[k] == x) && forall k :: k in m ==> x <= m[k]
  }

  /** x is a value of m and no value of m is larger: Python's max(m.values()). */
  ghost predicate IsGreatest<K>(m: map<K, real>, x: real)
  {
    (exists k :: k in m && m[k] == x) && forall k :: k in m ==> m[k] <= x
  }

  /** Python's max over the values of a non-empty dict. */
  method MaxValue<K(==)>(m: map<K, real>) returns (hi: real)
    requires |m| > 0
    ensures IsGreatest(m, hi)
  {
    var rest := m.Keys;
    var best :| best in rest;
    hi := m[best];
    rest := rest - {best};
    while rest != {}
      invariant rest <= m.Keys
      invariant best in m && m[best] == hi
      invariant forall k | k in m && k !in rest :: m[k] <= hi
      decreases rest
    {
      var k :| k in rest;
      if m[k] > hi {
        best, hi := k, m[k];
      }
      rest := rest - {k};
    }
  }

  /** Python's min over the values of a non-empty dict. */
  method MinValue<K(==)>(m: map<K, real>) returns (lo: real)
    requires |m| > 0
    ensures IsLeast(m, lo)
  {
    var rest := m.Keys;
    var best :| best in rest;
    lo := m[best];
    rest := rest - {best};
    while rest != {}
      invariant rest <= m.Keys
      invariant best in m && m[best] == lo
      invariant forall k | k in m && k !in rest :: lo <= m[k]
      decreases rest
    {
      var k :| k in rest;
      if m[k] < lo {
        best, lo := k, m[k];
      }
      rest := rest - {k};
    }
  }
}
