/** The airstrip record and its ordering.  Equality and every comparison
    look only at the name, through a collation key: the locale's `strxfrm`
    in the source, a parameter `coll` here, whose results are compared the
    way Python compares strings, code point by code point. */
module Airstrips {
  import opened PyText

  datatype Airstrip = Airstrip(
    name: string,
    description: string,
    latitude: real,
    longitude: real,
    altitude: real,
    status: char)

  /** `Airstrip(name, latitude, longitude, **kwargs)`: the keyword
      arguments that are not given take their defaults. */
  function Create(name: string, latitude: real, longitude: real,
                  description: Option<string>, altitude: Option<real>, status: Option<char>): (a: Airstrip)
    ensures a.name == name && a.latitude == latitude && a.longitude == longitude
    ensures a.description == (if description.Some? then description.value else "")
    ensures a.altitude == (if altitude.Some? then altitude.value else 0.0)
    ensures a.status == (if status.Some? then status.value else 'b')
  {
    Airstrip(name,
             match description case Some(d) => d case None => "",
             latitude, longitude,
             match altitude case Some(x) => x case None => 0.0,
             match status case Some(c) => c case None => 'b')
  }

  // ================================================================ string order

  /** `x < y` on Python strings: lexicographic by code point. */
  predicate StrLt(x: string, y: string)
    decreases |x|
  {
    if x == [] then y != []
    else if y == [] then false
    else if x[0] != y[0] then x[0] < y[0]
    else StrLt(x[1..], y[1..])
  }

  /** `x > y` on Python strings. */
  predicate StrGt(x: string, y: string)
    decreases |x|
  {
    if y == [] then x != []
    else if x == [] then false
    else if x[0] != y[0] then x[0] > y[0]
    else StrGt(x[1..], y[1..])
  }

  lemma {:induction false} StrGtIsSwappedLt(x: string, y: string)
    ensures StrGt(x, y) <==> StrLt(y, x)
    decreases |x|
  {
    if x != [] && y != [] && x[0] == y[0] {
      StrGtIsSwappedLt(x[1..], y[1..]);
    }
  }

  lemma {:induction false} StrLtIrreflexive(x: string)
    ensures !StrLt(x, x)
    decreases |x|
  {
    if x != [] { StrLtIrreflexive(x[1..]); }
  }

  /** Exactly one of `x < y`, `x == y` and `y < x` holds. */
  lemma {:induction false} StrTrichotomy(x: string, y: string)
    ensures StrLt(x, y) || x == y || StrLt(y, x)
    ensures !(StrLt(x, y) && StrLt(y, x))
    ensures StrLt(x, y) ==> x != y
    decreases |x|
  {
    StrLtIrreflexive(x);
    if x != [] && y != [] && x[0] == y[0] {
      StrTrichotomy(x[1..], y[1..]);
      if x[1..] == y[1..] {
        assert x == [x[0]] + x[1..] && y == [y[0]] + y[1..];
      }
    }
  }

  lemma {:induction false} StrLtTransitive(x: string, y: string, z: string)
    requires StrLt(x, y) && StrLt(y, z)
    ensures StrLt(x, z)
    decreases |x|
  {
    if x != [] && x[0] == y[0] && y[0] == z[0] {
      StrLtTransitive(x[1..], y[1..], z[1..]);
    }
  }

  // ================================================================ comparisons

  /** The collation key of an airstrip: the key of its name. */
  function Key(coll: string -> string, a: Airstrip): string {
    coll(a.name)
  }

  /** `__eq__`. */
  predicate Eq(coll: string -> string, a: Airstrip, b: Airstrip) {
    Key(coll, a) == Key(coll, b)
  }

  /** `__ne__`. */
  predicate Ne(coll: string -> string, a: Airstrip, b: Airstrip) {
    Key(coll, a) != Key(coll, b)
  }

  /** `__lt__`. */
  predicate Lt(coll: string -> string, a: Airstrip, b: Airstrip) {
    StrLt(Key(coll, a), Key(coll, b))
  }

  /** `__le__`. */
  predicate Le(coll: string -> string, a: Airstrip, b: Airstrip) {
    StrLt(Key(coll, a), Key(coll, b)) || Key(coll, a) == Key(coll, b)
  }

  /** `__gt__`. */
  predicate Gt(coll: string -> string, a: Airstrip, b: Airstrip) {
    StrGt(Key(coll, a), Key(coll, b))
  }

  /** `__ge__`. */
  predicate Ge(coll: string -> string, a: Airstrip, b: Airstrip) {
    StrGt(Key(coll, a), Key(coll, b)) || Key(coll, a) == Key(coll, b)
  }

  /** Only the name takes part: two airstrips whose names have the same key
      compare equal whatever their other fields, and compare the same way
      against every third airstrip. */
  lemma EqByNameOnly(coll: string -> string, a: Airstrip, b: Airstrip, c: Airstrip)
    requires coll(a.name) == coll(b.name)
    ensures Eq(coll, a, b) && !Ne(coll, a, b)
    ensures Lt(coll, a, c) == Lt(coll, b, c) && Gt(coll, a, c) == Gt(coll, b, c)
  {
  }

  /** `!=` is the negation of `==`. */
  lemma NeIsNotEq(coll: string -> string, a: Airstrip, b: Airstrip)
    ensures Ne(coll, a, b) <==> !Eq(coll, a, b)
  {
  }

  /** `a < b` iff `b > a`, and `a <= b` iff `b >= a`. */
  lemma Converse(coll: string -> string, a: Airstrip, b: Airstrip)
    ensures Lt(coll, a, b) <==> Gt(coll, b, a)
    ensures Le(coll, a, b) <==> Ge(coll, b, a)
  {
    StrGtIsSwappedLt(Key(coll, b), Key(coll, a));
  }

  /** Any two airstrips are comparable, and `<=` holds both ways exactly
      when they are equal. */
  lemma LeTotal(coll: string -> string, a: Airstrip, b: Airstrip)
    ensures Le(coll, a, b) || Le(coll, b, a)
    ensures Le(coll, a, b) && Le(coll, b, a) <==> Eq(coll, a, b)
    ensures Lt(coll, a, b) <==> !Le(coll, b, a)
  {
    StrTrichotomy(Key(coll, a), Key(coll, b));
  }

  lemma LeTransitive(coll: string -> string, a: Airstrip, b: Airstrip, c: Airstrip)
    requires Le(coll, a, b) && Le(coll, b, c)
    ensures Le(coll, a, c)
  {
    if StrLt(Key(coll, a), Key(coll, b)) && StrLt(Key(coll, b), Key(coll, c)) {
      StrLtTransitive(Key(coll, a), Key(coll, b), Key(coll, c));
    }
  }

  // ================================================================ sorted()

  /** Every airstrip is `<=` every later one. */
  predicate Sorted(coll: string -> string, s: seq<Airstrip>) {
    forall i, j :: 0 <= i < j < |s| ==> Le(coll, s[i], s[j])
  }

  /** Places `x` after every element that is not greater than it, which is
      where a stable sort that only asks `<` puts it. */
  function Insert(coll: string -> string, x: Airstrip, s: seq<Airstrip>): seq<Airstrip>
  {
    if s == [] then [x]
    else if Lt(coll, x, s[0]) then [x] + s
    else [s[0]] + Insert(coll, x, s[1..])
  }

  lemma {:induction false} InsertKeeps(coll: string -> string, x: Airstrip, s: seq<Airstrip>)
    ensures multiset(Insert(coll, x, s)) == multiset(s) + multiset{x}
    decreases |s|
  {
    if s != [] && !Lt(coll, x, s[0]) {
      InsertKeeps(coll, x, s[1..]);
      assert s == [s[0]] + s[1..];
    }
  }

  /** The elements after inserting are the old ones and `x`. */
  lemma {:induction false} InsertElements(coll: string -> string, x: Airstrip, s: seq<Airstrip>)
    ensures forall y :: y in Insert(coll, x, s) <==> y == x || y in s
    decreases |s|
  {
    if s != [] && !Lt(coll, x, s[0]) {
      InsertElements(coll, x, s[1..]);
      assert s == [s[0]] + s[1..];
    }
  }

  /** A sorted list with an element in front that is `<=` all of it. */
  lemma SortedCons(coll: string -> string, a: Airstrip, t: seq<Airstrip>)
    requires Sorted(coll, t)
    requires forall y :: y in t ==> Le(coll, a, y)
    ensures Sorted(coll, [a] + t)
  {
    var r := [a] + t;
    forall i, j | 0 <= i < j < |r| ensures Le(coll, r[i], r[j]) {
      assert r[j] == t[j - 1];
      if i > 0 { assert r[i] == t[i - 1]; }
    }
  }

  lemma {:induction false} InsertSorted(coll: string -> string, x: Airstrip, s: seq<Airstrip>)
    requires Sorted(coll, s)
    ensures Sorted(coll, Insert(coll, x, s))
    decreases |s|
  {
    if s == [] {
    } else if Lt(coll, x, s[0]) {
      forall y | y in s ensures Le(coll, x, y) {
        var k :| 0 <= k < |s| && s[k] == y;
        if k > 0 { LeTransitive(coll, x, s[0], y); }
      }
      SortedCons(coll, x, s);
    } else {
      var rest := s[1..];
      assert Sorted(coll, rest) by {
        forall i, j | 0 <= i < j < |rest| ensures Le(coll, rest[i], rest[j]) {
          assert rest[i] == s[i + 1] && rest[j] == s[j + 1];
        }
      }
      InsertSorted(coll, x, rest);
      InsertElements(coll, x, rest);
      LeTotal(coll, x, s[0]);
      forall y | y in Insert(coll, x, rest) ensures Le(coll, s[0], y) {
        if y != x {
          var k :| 0 <= k < |rest| && rest[k] == y;
          assert s[k + 1] == y;
        }
      }
      SortedCons(coll, s[0], Insert(coll, x, rest));
    }
  }

  /** `sorted(airstrips)`: a stable insertion sort asking only `<`, as
      Python's sort does.  The result is ordered by `<=` and holds the same
      airstrips. */
  method SortByName(coll: string -> string, xs: seq<Airstrip>) returns (ys: seq<Airstrip>)
    ensures Sorted(coll, ys)
    ensures multiset(ys) == multiset(xs)
  {
    ys := [];
    var i := 0;
    while i < |xs|
      invariant 0 <= i <= |xs|
      invariant Sorted(coll, ys)
      invariant multiset(ys) == multiset(xs[..i])
    {
      InsertSorted(coll, xs[i], ys);
      InsertKeeps(coll, xs[i], ys);
      assert xs[..i + 1] == xs[..i] + [xs[i]];
      ys := Insert(coll, xs[i], ys);
      i := i + 1;
    }
    assert xs[..i] == xs;
  }
}
