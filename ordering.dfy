/** Python's ordering of strings (character by character, a proper prefix
    first) and `sorted(...)` of a set of names such as `os.listdir` or the keys
    of a dictionary return. */
module StringOrder {

  /** `a <= b` on Python strings. */
  predicate Le(a: string, b: string)
    decreases |a|
  {
    a == [] || (b != [] && (a[0] < b[0] || (a[0] == b[0] && Le(a[1..], b[1..]))))
  }

  lemma {:induction false} LeTotal(a: string, b: string)
    ensures Le(a, b) || Le(b, a)
    decreases |a|
  {
    if a != [] && b != [] && a[0] == b[0] {
      LeTotal(a[1..], b[1..]);
    }
  }

  lemma {:induction false} LeTransitive(a: string, b: string, c: string)
    requires Le(a, b) && Le(b, c)
    ensures Le(a, c)
    decreases |a|
  {
    if a != [] && a[0] == b[0] && b[0] == c[0] {
      LeTransitive(a[1..], b[1..], c[1..]);
    }
  }

  lemma {:induction false} LeAntisymmetric(a: string, b: string)
    requires Le(a, b) && Le(b, a)
    ensures a == b
    decreases |a|
  {
    if a != [] {
      LeAntisymmetric(a[1..], b[1..]);
      assert a == [a[0]] + a[1..] && b == [b[0]] + b[1..];
    }
  }

  predicate Sorted(s: seq<string>) {
    forall i, j :: 0 <= i < j < |s| ==> Le(s[i], s[j])
  }

  predicate Distinct(s: seq<string>) {
    forall i, j :: 0 <= i < j < |s| ==> s[i] != s[j]
  }

  /** Inserts `x` into the sorted `r` after every element not above it. */
  method Insert(r: seq<string>, x: string) returns (r': seq<string>, i: nat)
    requires Sorted(r)
    ensures i <= |r| && r' == r[..i] + [x] + r[i..]
    ensures Sorted(r')
  {
    i := 0;
    while i < |r| && Le(r[i], x)
      invariant i <= |r|
      invariant forall j :: 0 <= j < i ==> Le(r[j], x)
    {
      i := i + 1;
    }
    r' := r[..i] + [x] + r[i..];
    if i < |r| {
      LeTotal(r[i], x);
      forall k | i <= k < |r| ensures Le(x, r[k]) {
        if k > i { LeTransitive(x, r[i], r[k]); }
      }
    }
    forall a, b | 0 <= a < b < |r'| ensures Le(r'[a], r'[b]) {
      if a < i && b == i {
      } else if a < i && b > i {
        LeTransitive(r[a], x, r[b - 1]);
      } else if a == i {
      } else if a < i {
      } else {
        assert Le(r[a - 1], r[b - 1]);
      }
    }
  }

  /** `sorted(names)`: every name once, in ascending order. */
  method SortSet(names: set<string>) returns (r: seq<string>)
    ensures Sorted(r) && Distinct(r)
    ensures forall y :: y in r <==> y in names
    ensures |r| == |names|
  {
    var rest := names;
    r := [];
    while rest != {}
      invariant rest <= names
      invariant Sorted(r) && Distinct(r)
      invariant forall y :: y in r <==> y in names && y !in rest
      invariant |r| + |rest| == |names|
      decreases |rest|
    {
      var x :| x in rest;
      var i;
      ghost var before := r;
      r, i := Insert(r, x);
      forall a, b | 0 <= a < b < |r| ensures r[a] != r[b] {
        if a == i || b == i {
          assert x !in before;
          assert r[a] in before || r[b] in before;
        } else {
          var a0 := if a < i then a else a - 1;
          var b0 := if b < i then b else b - 1;
          assert r[a] == before[a0] && r[b] == before[b0];
        }
      }
      rest := rest - {x};
    }
  }
}
