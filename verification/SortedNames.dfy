/** Names in code point order: the sorted listing of a set is unique, so it does not depend on discovery order. */
module SortedNames {

  predicate Le(a: string, b: string) {
    a == "" || (b != "" && (a[0] < b[0] || (a[0] == b[0] && Le(a[1..], b[1..]))))
  }

  lemma {:induction false} LeTotal(a: string, b: string)
    ensures Le(a, b) || Le(b, a)
    ensures Le(a, b) && Le(b, a) ==> a == b
  {
    if a != "" && b != "" && a[0] == b[0] {
      LeTotal(a[1..], b[1..]);
      assert a == [a[0]] + a[1..] && b == [b[0]] + b[1..];
    }
  }

  lemma {:induction false} LeTransitive(a: string, b: string, c: string)
    requires Le(a, b) && Le(b, c)
    ensures Le(a, c)
  {
    if a != "" && b != "" && c != "" && a[0] == b[0] == c[0] { LeTransitive(a[1..], b[1..], c[1..]); }
  }

  lemma {:induction false} LeastExists(names: set<string>)
    requires names != {}
    ensures exists m :: m in names && forall x :: x in names ==> Le(m, x)
  {
    var a :| a in names;
    LeTotal(a, a);
    var rest := names - {a};
    if rest == {} {
      assert names == {a};
    } else {
      LeastExists(rest);
      var m :| m in rest && forall x :: x in rest ==> Le(m, x);
      LeTotal(a, m);
      var least := if Le(a, m) then a else m;
      forall x | x in names ensures Le(least, x) {
        if x != a && least == a { LeTransitive(a, m, x); }
      }
    }
  }

  /** The first name in order. */
  function Least(names: set<string>): (m: string)
    requires names != {}
    ensures m in names && forall x :: x in names ==> Le(m, x)
  {
    LeastExists(names);
    assert forall a, b :: Le(a, b) && Le(b, a) ==> a == b by {
      forall a, b | Le(a, b) && Le(b, a) ensures a == b { LeTotal(a, b); }
    }
    var m :| m in names && forall x :: x in names ==> Le(m, x);
    m
  }

  ghost predicate Strict(s: seq<string>) {
    forall i, j :: 0 <= i < j < |s| ==> Le(s[i], s[j]) && s[i] != s[j]
  }

  /** The names in order, each once. */
  function Sorted(names: set<string>): (r: seq<string>)
    ensures forall x :: x in r <==> x in names
    ensures Strict(r)
  {
    if names == {} then []
    else
      var m := Least(names);
      var rest := Sorted(names - {m});
      assert forall i :: 0 <= i < |rest| ==> rest[i] in rest;
      [m] + rest
  }

  /** Any strictly ordered listing of the same names is that one. */
  lemma {:induction false} StrictUnique(a: seq<string>, b: seq<string>)
    requires Strict(a) && Strict(b) && forall x :: x in a <==> x in b
    ensures a == b
  {
    assert b == [] || b[0] in a;
    if a != [] {
      assert a[0] in b;
      LeTotal(a[0], b[0]);
      assert a[0] == b[0];
      forall x ensures x in a[1..] <==> x in b[1..] {
        assert x in a <==> x == a[0] || x in a[1..];
        assert x in b <==> x == b[0] || x in b[1..];
      }
      StrictUnique(a[1..], b[1..]);
      assert a == [a[0]] + a[1..] && b == [b[0]] + b[1..];
    }
  }
}
