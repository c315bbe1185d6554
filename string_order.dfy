/** The order on strings used by the core: character-by-character by code
    point, a proper prefix first. Go's `<` on strings (which `encoding/json`
    uses to sort map keys) and SQLite's default BINARY collation (which
    `ORDER BY name` uses) both compare UTF-8 bytes, which orders code points
    the same way. */
module StringOrder {

  predicate LessEq(a: string, b: string)
  {
    a == [] || (b != [] && (a[0] < b[0] || (a[0] == b[0] && LessEq(a[1..], b[1..]))))
  }

  lemma {:induction false} Reflexive(a: string)
    ensures LessEq(a, a)
  {
    if a != [] { Reflexive(a[1..]); }
  }

  lemma {:induction false} Antisymmetric(a: string, b: string)
    requires LessEq(a, b) && LessEq(b, a)
    ensures a == b
  {
    if a != [] && b != [] {
      Antisymmetric(a[1..], b[1..]);
      assert a == [a[0]] + a[1..] && b == [b[0]] + b[1..];
    }
  }

  lemma {:induction false} Transitive(a: string, b: string, c: string)
    requires LessEq(a, b) && LessEq(b, c)
    ensures LessEq(a, c)
  {
    if a != [] && b != [] && c != [] && a[0] == b[0] == c[0] {
      Transitive(a[1..], b[1..], c[1..]);
    }
  }

  lemma {:induction false} Total(a: string, b: string)
    ensures LessEq(a, b) || LessEq(b, a)
  {
    if a != [] && b != [] && a[0] == b[0] {
      Total(a[1..], b[1..]);
    }
  }

  /** Every finite non-empty set of strings has a least element. */
  lemma {:induction false} LeastExists(s: set<string>)
    requires s != {}
    ensures exists m :: m in s && forall x :: x in s ==> LessEq(m, x)
  {
    var y :| y in s;
    if s == {y} {
      Reflexive(y);
      assert forall x :: x in s ==> x == y;
    } else {
      var rest := s - {y};
      LeastExists(rest);
      var m :| m in rest && forall x :: x in rest ==> LessEq(m, x);
      Total(m, y);
      if LessEq(m, y) {
        forall x | x in s ensures LessEq(m, x) {
          if x != y { assert x in rest; }
        }
        assert m in s;
      } else {
        forall x | x in s ensures LessEq(y, x) {
          if x == y { Reflexive(y); } else { assert x in rest; Transitive(y, m, x); }
        }
      }
    }
  }

  /** A set has at most one least element. */
  lemma LeastUnique(s: set<string>)
    ensures forall a, b ::
              (a in s && b in s && (forall x :: x in s ==> LessEq(a, x)) && (forall x :: x in s ==> LessEq(b, x)))
              ==> a == b
  {
    forall a, b | a in s && b in s && (forall x :: x in s ==> LessEq(a, x)) && (forall x :: x in s ==> LessEq(b, x))
      ensures a == b
    {
      Antisymmetric(a, b);
    }
  }

  /** The elements of `s` in strictly ascending order (Go's sorted map keys). */
  function SortedSet(s: set<string>): (r: seq<string>)
    ensures |r| == |s|
    ensures forall i :: 0 <= i < |r| ==> r[i] in s
    ensures forall x :: x in s ==> x in r
    ensures forall i, j :: 0 <= i < j < |r| ==> LessEq(r[i], r[j]) && r[i] != r[j]
    decreases s
  {
    if s == {} then []
    else
      LeastExists(s);
      LeastUnique(s);
      var m :| m in s && forall x :: x in s ==> LessEq(m, x);
      var rest := SortedSet(s - {m});
      SortedCons(s, m, rest);
      [m] + rest
  }

  /** Putting the least element in front of the sorted rest sorts the whole set. */
  lemma SortedCons(s: set<string>, m: string, rest: seq<string>)
    requires m in s && forall x :: x in s ==> LessEq(m, x)
    requires |rest| == |s - {m}|
    requires forall i :: 0 <= i < |rest| ==> rest[i] in s - {m}
    requires forall x :: x in s - {m} ==> x in rest
    requires forall i, j :: 0 <= i < j < |rest| ==> LessEq(rest[i], rest[j]) && rest[i] != rest[j]
    ensures var r := [m] + rest;
      && |r| == |s|
      && (forall i :: 0 <= i < |r| ==> r[i] in s)
      && (forall x :: x in s ==> x in r)
      && (forall i, j :: 0 <= i < j < |r| ==> LessEq(r[i], r[j]) && r[i] != r[j])
  {
    var r := [m] + rest;
    assert forall i :: 1 <= i < |r| ==> r[i] == rest[i - 1];
    forall x | x in s ensures x in r {
      if x != m {
        assert x in rest;
      }
    }
  }
}
