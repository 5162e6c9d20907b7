/** Sorting by time that keeps the order of items with the same time. */
module StableSort {

  datatype Timed<T> = Timed(time: int, data: T)

  ghost predicate Sorted<T>(s: seq<Timed<T>>) {
    forall i, j :: 0 <= i < j < |s| ==> s[i].time <= s[j].time
  }

  /** Puts x before the first item that is newer. */
  function Insert<T>(s: seq<Timed<T>>, x: Timed<T>): (r: seq<Timed<T>>)
    ensures |r| == |s| + 1
  {
    if s == [] || x.time < s[0].time then [x] + s else [s[0]] + Insert(s[1..], x)
  }

  function Sort<T>(s: seq<Timed<T>>): (r: seq<Timed<T>>)
    ensures |r| == |s|
  {
    if s == [] then [] else Insert(Sort(s[..|s| - 1]), s[|s| - 1])
  }

  /** The items with time t, in their order. */
  function AtTime<T>(s: seq<Timed<T>>, t: int): seq<Timed<T>> {
    if s == [] then [] else (if s[0].time == t then [s[0]] else []) + AtTime(s[1..], t)
  }

  /** The place of x: behind everything that is not newer, before everything that is. */
  lemma {:induction false} InsertPlace<T>(s: seq<Timed<T>>, x: Timed<T>) returns (n: nat)
    requires Sorted(s)
    ensures n <= |s| && Insert(s, x) == s[..n] + [x] + s[n..]
    ensures forall i :: 0 <= i < n ==> s[i].time <= x.time
    ensures forall i :: n <= i < |s| ==> s[i].time > x.time
  {
    if s == [] || x.time < s[0].time {
      n := 0;
    } else {
      var rest := s[1..];
      var m := InsertPlace(rest, x);
      n := m + 1;
      assert s[..n] == [s[0]] + rest[..m] && s[n..] == rest[m..];
    }
  }

  lemma InsertSorted<T>(s: seq<Timed<T>>, x: Timed<T>)
    requires Sorted(s)
    ensures Sorted(Insert(s, x)) && multiset(Insert(s, x)) == multiset(s) + multiset{x}
  {
    hide Insert;
    var n := InsertPlace(s, x);
    assert s == s[..n] + s[n..];
  }

  lemma InsertStable<T>(s: seq<Timed<T>>, x: Timed<T>, t: int)
    requires Sorted(s)
    ensures AtTime(Insert(s, x), t) == AtTime(s, t) + if x.time == t then [x] else []
  {
    hide *;
    var n := InsertPlace(s, x);
    assert s == s[..n] + s[n..];
    AtTimeConcat(s[..n], s[n..], t);
    AtTimeConcat(s[..n] + [x], s[n..], t);
    AtTimeConcat(s[..n], [x], t);
    AtTimeCons(x, [], t);
    AtTimeNil<T>(t);
    assert [x] + [] == [x];
    if x.time == t { NoneAtTime(s[n..], t); }
  }

  lemma {:induction false} NoneAtTime<T>(s: seq<Timed<T>>, t: int)
    requires forall i :: 0 <= i < |s| ==> s[i].time != t
    ensures AtTime(s, t) == []
  {
    if s != [] { NoneAtTime(s[1..], t); }
  }

  lemma AtTimeNil<T>(t: int)
    ensures AtTime<T>([], t) == []
  {
  }

  lemma AtTimeCons<T>(x: Timed<T>, s: seq<Timed<T>>, t: int)
    ensures AtTime([x] + s, t) == (if x.time == t then [x] else []) + AtTime(s, t)
  {
    assert ([x] + s)[1..] == s;
  }

  lemma {:induction false} AtTimeConcat<T>(a: seq<Timed<T>>, b: seq<Timed<T>>, t: int)
    ensures AtTime(a + b, t) == AtTime(a, t) + AtTime(b, t)
  {
    hide *;
    if a == [] {
      assert a + b == b;
      AtTimeNil<T>(t);
    } else {
      var x, rest := a[0], a[1..];
      assert a == [x] + rest && a + b == [x] + (rest + b);
      AtTimeCons(x, rest, t);
      AtTimeCons(x, rest + b, t);
      AtTimeConcat(rest, b, t);
    }
  }

  /** Sorting gives a sorted permutation in which equal times keep their order. */
  lemma {:induction false} SortIsStable<T>(s: seq<Timed<T>>, t: int)
    ensures Sorted(Sort(s)) && multiset(Sort(s)) == multiset(s)
    ensures AtTime(Sort(s), t) == AtTime(s, t)
  {
    if s != [] {
      var front, x := s[..|s| - 1], s[|s| - 1];
      assert s == front + [x];
      SortIsStable(front, t);
      InsertSorted(Sort(front), x);
      InsertStable(Sort(front), x, t);
      AtTimeConcat(front, [x], t);
    }
  }

  /** A sorted sequence is determined by what it has at each time. */
  lemma {:induction false} SortedIsUnique<T>(a: seq<Timed<T>>, b: seq<Timed<T>>)
    requires Sorted(a) && Sorted(b) && forall t :: AtTime(a, t) == AtTime(b, t)
    ensures a == b
    decreases |a|
  {
    if a == [] {
      if b != [] { FirstAgrees(b, a); }
    } else {
      FirstAgrees(a, b);
      forall t ensures AtTime(a[1..], t) == AtTime(b[1..], t) {
        var first := if a[0].time == t then [a[0]] else [];
        assert first + AtTime(a[1..], t) == AtTime(a, t) == AtTime(b, t) == first + AtTime(b[1..], t);
        assert AtTime(a[1..], t) == (first + AtTime(a[1..], t))[|first|..];
        assert AtTime(b[1..], t) == (first + AtTime(b[1..], t))[|first|..];
      }
      SortedIsUnique(a[1..], b[1..]);
      assert a == [a[0]] + a[1..] && b == [b[0]] + b[1..];
    }
  }

  lemma FirstAgrees<T>(a: seq<Timed<T>>, b: seq<Timed<T>>)
    requires Sorted(a) && Sorted(b) && forall t :: AtTime(a, t) == AtTime(b, t)
    requires a != []
    ensures b != [] && a[0] == b[0]
  {
    hide AtTime;
    FirstAtTime(a);
    assert AtTime(b, a[0].time) == AtTime(a, a[0].time);
    if b == [] {
      AtTimeNil<T>(a[0].time);
    } else {
      FirstAtTime(b);
      assert AtTime(a, b[0].time) == AtTime(b, b[0].time);
      if a[0].time < b[0].time { NoneAtTime(b, a[0].time); }
      if b[0].time < a[0].time { NoneAtTime(a, b[0].time); }
    }
  }

  lemma FirstAtTime<T>(s: seq<Timed<T>>)
    requires s != []
    ensures AtTime(s, s[0].time) != [] && AtTime(s, s[0].time)[0] == s[0]
  {
  }

  lemma InsertCons<T>(y: Timed<T>, s: seq<Timed<T>>, x: Timed<T>)
    requires y.time <= x.time
    ensures Insert([y] + s, x) == [y] + Insert(s, x)
  {
    assert ([y] + s)[1..] == s;
  }

  /** Inserting behind a part that is not newer. */
  lemma {:induction false} InsertBehind<T>(a: seq<Timed<T>>, b: seq<Timed<T>>, x: Timed<T>)
    requires forall i :: 0 <= i < |a| ==> a[i].time <= x.time
    ensures Insert(a + b, x) == a + Insert(b, x)
  {
    hide *;
    if a == [] {
      assert a + b == b && a + Insert(b, x) == Insert(b, x);
    } else {
      var y, rest := a[0], a[1..];
      assert a == [y] + rest && a + b == [y] + (rest + b);
      InsertCons(y, rest + b, x);
      InsertBehind(rest, b, x);
    }
  }
}
