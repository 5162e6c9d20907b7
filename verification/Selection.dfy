/** The part of a sequence that a sequence of fates picks out. */
module Selections {

  /** The items whose fate is true. */
  function Selected<T>(items: seq<T>, fates: seq<bool>): seq<T>
    requires |items| == |fates|
  {
    if items == [] then []
    else (if fates[0] then [items[0]] else []) + Selected(items[1..], fates[1..])
  }

  lemma SelectedCons<T>(x: T, items: seq<T>, fate: bool, fates: seq<bool>)
    requires |items| == |fates|
    ensures Selected([x] + items, [fate] + fates) == (if fate then [x] else []) + Selected(items, fates)
  {
    assert ([x] + items)[1..] == items && ([fate] + fates)[1..] == fates;
  }

  lemma {:induction false} SelectedConcat<T>(a: seq<T>, fa: seq<bool>, b: seq<T>, fb: seq<bool>)
    requires |a| == |fa| && |b| == |fb|
    ensures Selected(a + b, fa + fb) == Selected(a, fa) + Selected(b, fb)
    decreases |a|
  {
    if a == [] {
      assert a + b == b && fa + fb == fb;
    } else {
      hide *;
      var x, rest, fate, fates := a[0], a[1..], fa[0], fa[1..];
      assert a == [x] + rest && fa == [fate] + fates;
      assert a + b == [x] + (rest + b) && fa + fb == [fate] + (fates + fb);
      SelectedCons(x, rest, fate, fates);
      SelectedCons(x, rest + b, fate, fates + fb);
      SelectedConcat(rest, fates, b, fb);
    }
  }

  lemma SelectedExtends<T>(items: seq<T>, f: seq<bool>, g: seq<bool>)
    requires |f + g| <= |items|
    ensures Selected(items[..|f + g|], f + g) == Selected(items[..|f|], f) + Selected(items[|f|..][..|g|], g)
  {
    hide Selected;
    SelectedConcat(items[..|f|], f, items[|f|..][..|g|], g);
    assert items[..|f|] + items[|f|..][..|g|] == items[..|f + g|];
  }

  lemma {:induction false} NothingSelected<T>(items: seq<T>, fates: seq<bool>)
    requires |items| == |fates| && true !in fates
    ensures Selected(items, fates) == []
  {
    if items != [] { NothingSelected(items[1..], fates[1..]); }
  }

  /** More fates select more, at the end. */
  lemma FatesGrow<T>(items: seq<T>, fates: seq<bool>, none: seq<bool>, more: seq<bool>)
    requires |fates + none + more| <= |items| && true !in none
    ensures var m := |fates + none|;
            Selected(items[..|fates + none + more|], fates + none + more)
            == Selected(items[..|fates|], fates) + Selected(items[m..][..|more|], more)
  {
    hide Selected;
    SelectedExtends(items, fates, none);
    NothingSelected(items[|fates|..][..|none|], none);
    SelectedExtends(items, fates + none, more);
  }
}
