/**
 Python's ordering of `str` values (code point by code point, a proper
 prefix before any longer string) and `sorted` applied to a set of strings,
 as the validator uses it to list the missing paths.
 */
module TextOrder {

  /** `a` sorts strictly before `b`. */
  predicate Less(a: string, b: string)
    decreases |a|
  {
    if a == [] then b != []
    else if b == [] then false
    else if a[0] != b[0] then a[0] < b[0]
    else Less(a[1..], b[1..])
  }

  lemma {:induction false} LessIrreflexive(a: string)
    ensures !Less(a, a)
    decreases |a|
  {
    if a != [] {
      LessIrreflexive(a[1..]);
    }
  }

  lemma {:induction false} LessTransitive(a: string, b: string, c: string)
    requires Less(a, b) && Less(b, c)
    ensures Less(a, c)
    decreases |a|
  {
    if a != [] && a[0] == b[0] && b[0] == c[0] {
      LessTransitive(a[1..], b[1..], c[1..]);
    }
  }

  /** Any two different strings are ordered one way or the other. */
  lemma {:induction false} LessTotal(a: string, b: string)
    ensures a == b || Less(a, b) || Less(b, a)
    decreases |a|
  {
    if a != [] && b != [] && a[0] == b[0] {
      LessTotal(a[1..], b[1..]);
      if a[1..] == b[1..] {
        assert a == [a[0]] + a[1..] && b == [b[0]] + b[1..];
      }
    }
  }

  /** Strictly ascending, hence without repetitions. */
  predicate Ascending(items: seq<string>) {
    forall i, j :: 0 <= i < j < |items| ==> Less(items[i], items[j])
  }

  /** `items` lists the elements of `s` in ascending order. */
  predicate SortedListing(items: seq<string>, s: set<string>) {
    Ascending(items) && (forall x :: x in items ==> x in s) && (forall x :: x in s ==> x in items)
  }

  /** A sorted listing names every element exactly once: no repetitions, and
      as many entries as the set has elements. */
  lemma {:induction false} ListingCount(items: seq<string>, s: set<string>)
    requires SortedListing(items, s)
    ensures |items| == |s|
    ensures forall i, j :: 0 <= i < j < |items| ==> items[i] != items[j]
    decreases |items|
  {
    forall i, j | 0 <= i < j < |items| ensures items[i] != items[j] {
      LessIrreflexive(items[i]);
    }
    if items != [] {
      var rest := s - {items[0]};
      assert items[0] !in items[1..] by {
        forall k | 1 <= k < |items| ensures items[k] != items[0] {
          LessIrreflexive(items[0]);
        }
      }
      forall x ensures x in items[1..] <==> x in rest {
        if x in items && x != items[0] {
          var k :| 0 <= k < |items| && items[k] == x;
          assert items[1..][k - 1] == x;
        }
      }
      ListingCount(items[1..], rest);
    }
  }

  /** A set has only one sorted listing; so the report of a given set of
      missing paths is always the same. */
  lemma {:induction false} ListingUnique(a: seq<string>, b: seq<string>, s: set<string>)
    requires SortedListing(a, s) && SortedListing(b, s)
    ensures a == b
    decreases |a|
  {
    ListingCount(a, s);
    ListingCount(b, s);
    if a != [] {
      assert a[0] == b[0] by {
        if a[0] != b[0] {
          assert b[0] in s && a[0] in s;
          var i :| 0 <= i < |a| && a[i] == b[0];
          var j :| 0 <= j < |b| && b[j] == a[0];
          LessTransitive(a[0], b[0], a[0]);
          LessIrreflexive(a[0]);
        }
      }
      var rest := s - {a[0]};
      RestListing(a, s);
      RestListing(b, s);
      ListingUnique(a[1..], b[1..], rest);
      assert a == [a[0]] + a[1..] && b == [b[0]] + b[1..];
    }
  }

  /** Dropping the first entry of a sorted listing lists the set without it. */
  lemma RestListing(items: seq<string>, s: set<string>)
    requires SortedListing(items, s) && items != []
    ensures SortedListing(items[1..], s - {items[0]})
  {
    ListingCount(items, s);
    forall x ensures x in items[1..] <==> x in s - {items[0]} {
      if x in items && x != items[0] {
        var k :| 0 <= k < |items| && items[k] == x;
        assert items[1..][k - 1] == x;
      }
    }
  }

  /** The least element of a non-empty set. */
  method Least(s: set<string>) returns (m: string)
    requires s != {}
    ensures m in s
    ensures forall x :: x in s && x != m ==> Less(m, x)
  {
    m :| m in s;
    var rest := s - {m};
    while rest != {}
      invariant rest <= s && m in s && m !in rest
      invariant forall x :: x in s - rest && x != m ==> Less(m, x)
      decreases rest
    {
      var y :| y in rest;
      LessTotal(m, y);
      if Less(y, m) {
        forall x | x in s - rest && x != y ensures Less(y, x) {
          if x != m {
            LessTransitive(y, m, x);
          }
        }
        m := y;
      }
      rest := rest - {y};
    }
  }

  /** `sorted(s)`: the elements of `s` in ascending order. */
  method SortedElements(s: set<string>) returns (items: seq<string>)
    ensures SortedListing(items, s)
  {
    items := [];
    var rest := s;
    while rest != {}
      invariant rest <= s
      invariant forall x :: x in items <==> x in s - rest
      invariant Ascending(items)
      invariant forall i, y :: 0 <= i < |items| && y in rest ==> Less(items[i], y)
      decreases rest
    {
      var m := Least(rest);
      items := items + [m];
      rest := rest - {m};
    }
  }
}
