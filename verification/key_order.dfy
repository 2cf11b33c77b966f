/**
 * The order in which `std::map<std::string, _>` visits its keys: character by
 * character, a proper prefix first. "First matching loan" in the C++ search
 * therefore means the least matching key under this order.
 */
module KeyOrder {
  import opened Wrappers

  /** `a` comes no later than `b` in the map's key order. */
  predicate Below(a: string, b: string)
    decreases |a|
  {
    |a| == 0 || (|b| > 0 && (a[0] < b[0] || (a[0] == b[0] && Below(a[1..], b[1..]))))
  }

  lemma {:induction false} BelowReflexive(a: string)
    ensures Below(a, a)
    decreases |a|
  {
    if |a| > 0 {
      BelowReflexive(a[1..]);
    }
  }

  lemma {:induction false} BelowTotal(a: string, b: string)
    ensures Below(a, b) || Below(b, a)
    decreases |a|
  {
    if |a| > 0 && |b| > 0 && a[0] == b[0] {
      BelowTotal(a[1..], b[1..]);
    }
  }

  lemma {:induction false} BelowAntisymmetric(a: string, b: string)
    requires Below(a, b) && Below(b, a)
    ensures a == b
    decreases |a|
  {
    if |a| > 0 {
      BelowAntisymmetric(a[1..], b[1..]);
      assert a == [a[0]] + a[1..];
      assert b == [b[0]] + b[1..];
    }
  }

  lemma {:induction false} BelowTransitive(a: string, b: string, c: string)
    requires Below(a, b) && Below(b, c)
    ensures Below(a, c)
    decreases |a|
  {
    if |a| > 0 && a[0] == b[0] && b[0] == c[0] {
      BelowTransitive(a[1..], b[1..], c[1..]);
    }
  }

  lemma AllBelowAntisymmetric()
    ensures forall a, b :: Below(a, b) && Below(b, a) ==> a == b
  {
    forall a, b | Below(a, b) && Below(b, a) {
      BelowAntisymmetric(a, b);
    }
  }

  /** `m` belongs to `s` and comes no later than any other key of `s`. */
  predicate IsLeast(m: string, s: set<string>) {
    m in s && forall k | k in s :: Below(m, k)
  }

  /** Every non-empty finite set of keys has a least element. */
  lemma {:induction false} LeastExists(s: set<string>)
    requires s != {}
    ensures exists m :: IsLeast(m, s)
    decreases |s|
  {
    var x :| x in s;
    BelowReflexive(x);
    if s == {x} {
      assert IsLeast(x, s);
    } else {
      LeastExists(s - {x});
      var m :| IsLeast(m, s - {x});
      BelowTotal(x, m);
      if Below(x, m) {
        forall k | k in s
          ensures Below(x, k)
        {
          if k != x {
            BelowTransitive(x, m, k);
          }
        }
        assert IsLeast(x, s);
      } else {
        assert IsLeast(m, s);
      }
    }
  }

  /** The least key of a non-empty set: the first one a `std::map` walk reaches. */
  function Least(s: set<string>): (m: string)
    requires s != {}
    ensures m in s
    ensures forall k | k in s :: Below(m, k)
  {
    LeastExists(s);
    AllBelowAntisymmetric();
    var m :| IsLeast(m, s);
    m
  }

  /** The first key of `s` in map order, or nothing when `s` is empty. */
  function FirstKey(s: set<string>): (r: Option<string>)
    ensures r.None? <==> s == {}
    ensures r.Some? ==> r.value in s && forall k | k in s :: Below(r.value, k)
  {
    if s == {} then None else Some(Least(s))
  }
}
