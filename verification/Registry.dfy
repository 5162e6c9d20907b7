/** What the address bank is for: an index names one address, from when it is added until it is removed, and
    nothing ever after. */
module Registry {

  /** The index given out next, and the addresses now found by index. */
  datatype State<A> = State(next: nat, live: map<nat, A>)

  /** `Stay` stands for every operation that concerns other banks or only the layout of the table. */
  datatype Event<A> = Add(a: A) | Remove(a: A) | Stay

  function Next<A(==)>(s: State<A>, e: Event<A>): State<A> {
    match e
    case Add(a) => if a in s.live.Values then s else State(s.next + 1, s.live[s.next := a])
    case Remove(a) => s.(live := map i | i in s.live && s.live[i] != a :: s.live[i])
    case Stay => s
  }

  function After<A(==)>(s: State<A>, events: seq<Event<A>>): State<A>
    decreases |events|
  {
    if events == [] then s else After(Next(s, events[0]), events[1..])
  }

  /** Indices are positive, were given out already, and no address has two. */
  ghost predicate Sound<A>(s: State<A>) {
    && s.next > 0
    && (forall i :: i in s.live ==> 0 < i < s.next)
    && (forall i, j :: i in s.live && j in s.live && s.live[i] == s.live[j] ==> i == j)
  }

  lemma {:induction false} RunsAreSound<A>(s: State<A>, events: seq<Event<A>>)
    requires Sound(s)
    ensures Sound(After(s, events)) && After(s, events).next >= s.next
    decreases |events|
  {
    if events != [] {
      assert Sound(Next(s, events[0])) by {
        if events[0].Add? && events[0].a !in s.live.Values {
          forall i | i in s.live ensures s.live[i] != events[0].a { assert s.live[i] in s.live.Values; }
        }
      }
      RunsAreSound(Next(s, events[0]), events[1..]);
    }
  }

  /** An index that was given out and no longer resolves never resolves again, whatever is added, removed or
      resized. */
  lemma {:induction false} StaleForever<A>(s: State<A>, events: seq<Event<A>>, i: nat)
    requires Sound(s) && i < s.next && i !in s.live
    ensures i !in After(s, events).live
    decreases |events|
  {
    if events != [] {
      RunsAreSound(s, [events[0]]);
      assert After(s, [events[0]]) == Next(s, events[0]);
      StaleForever(Next(s, events[0]), events[1..], i);
    }
  }

  /** An index resolves to the address it was given to until exactly that address is removed. */
  lemma {:induction false} ResolvesUntilRemoved<A>(s: State<A>, events: seq<Event<A>>, i: nat)
    requires Sound(s) && i in s.live
    ensures var s' := After(s, events);
            if Remove(s.live[i]) in events then i !in s'.live else i in s'.live && s'.live[i] == s.live[i]
    decreases |events|
  {
    if events != [] {
      var s1 := Next(s, events[0]);
      RunsAreSound(s, [events[0]]);
      assert After(s, [events[0]]) == s1;
      assert events == [events[0]] + events[1..];
      if events[0] == Remove(s.live[i]) {
        StaleForever(s1, events[1..], i);
      } else {
        ResolvesUntilRemoved(s1, events[1..], i);
      }
    }
  }

  /** An address that is added again after its removal gets an index no one has seen before. */
  lemma {:induction false} ReaddedIsNew<A>(s: State<A>, events: seq<Event<A>>, a: A)
    requires Sound(s) && a !in After(s, events).live.Values
    ensures var s' := Next(After(s, events), Add(a));
            forall i :: i in s'.live && s'.live[i] == a ==> i !in s.live && i >= s.next
  {
    RunsAreSound(s, events);
    var s1 := After(s, events);
    forall i | i in s1.live ensures s1.live[i] != a { assert s1.live[i] in s1.live.Values; }
  }
}
