/** What a filter has to read before it can work: every input port but the one that was written to. */
module DataFilters {
  import opened ErrorCodes

  /** What the client of a port answers, whether its address turns out to be gone, and whether the data it
      leaves there are of a wrong type. */
  datatype Pulled = Pulled(code: Code, gone: bool, mistyped: bool)

  /** What one port contributes: its code, whether the filter can do without, and whether its type is wrong. */
  datatype Reading = Reading(code: Code, needed: bool, mistyped: bool)

  /** A port that does not pull has an error exactly if its data are needed. */
  function Asked(isPull: bool, needed: bool, a: Pulled): Reading {
    Reading(if isPull then a.code else if needed then {RESOURCE_ERROR} else OK, needed, a.mistyped)
  }

  /** A port that pulls answers with its client's code; one that does not is an error exactly if its data are
      needed. */
  lemma AskedCode(isPull: bool, needed: bool, a: Pulled)
    ensures isPull ==> Asked(isPull, needed, a).code == a.code
    ensures !isPull && needed ==> Asked(isPull, needed, a).code == {RESOURCE_ERROR}
    ensures !isPull && !needed ==> Asked(isPull, needed, a).code == {}
  {
  }

  /** The port ends the round over the inputs. */
  predicate Stops(x: Reading) {
    if RESOURCE_ERROR in x.code then x.needed else NO_INTERPOLATE in x.code
  }

  predicate Mistyped(x: Reading) {
    x.mistyped || TYPE_ERROR in x.code
  }

  function Told(x: Reading): Code {
    x.code + (if Mistyped(x) then {TYPE_ERROR} else {})
  }

  /** The flags of a round over the inputs from the i-th on, the port `own` left out. */
  function Gathered(readings: seq<Reading>, own: int, i: nat, r: Code): Code
    decreases |readings| - i
  {
    if i >= |readings| then r
    else if i == own then Gathered(readings, own, i + 1, r)
    else if Stops(readings[i]) then r + readings[i].code
    else
      Gathered(readings, own, i + 1, r + Told(readings[i]))
  }

  /** Where the round ends. */
  function Reached(readings: seq<Reading>, own: int, i: nat): (n: nat)
    requires i <= |readings|
    ensures i <= n <= |readings|
    decreases |readings| - i
  {
    if i == |readings| || (i != own && Stops(readings[i])) then i else Reached(readings, own, i + 1)
  }

  lemma RoundUnfolds(readings: seq<Reading>, own: int, i: nat, r: Code)
    requires i <= |readings|
    ensures Gathered(readings, own, i, r)
            == if i == |readings| then r
               else if i == own then Gathered(readings, own, i + 1, r)
               else if Stops(readings[i]) then r + readings[i].code
               else Gathered(readings, own, i + 1, r + Told(readings[i]))
    ensures Reached(readings, own, i)
            == if i == |readings| || (i != own && Stops(readings[i])) then i else Reached(readings, own, i + 1)
  {
  }

  /** Nothing in the code keeps a synchronising filter from using the data. */
  predicate Passing(c: Code) {
    c !! {TIMESTAMP_TOO_OLD, TYPE_ERROR, ADDRESS_INVALID, NO_INTERPOLATE, TIMESTAMP_ERROR, RESOURCE_ERROR}
  }

  /** Only that there were no data yet, or that they lie in the future, may have been said. */
  lemma PassingMeans(c: Code)
    ensures Passing(c) <==> c <= {NO_DATA_AVAILABLE, TIMESTAMP_IN_FUTURE}
  {
    forall f | f in c && Passing(c) ensures f == NO_DATA_AVAILABLE || f == TIMESTAMP_IN_FUTURE {
    }
  }

  /** The round ends at the first port read that is needed and has a resource error, or that has none and cannot
      interpolate. Its flags are those of the ports read so far, that one included; a wrong type adds its flag,
      but at that one it is not looked for. */
  lemma {:induction false} GatheredIs(readings: seq<Reading>, own: int, i: nat, r: Code, f: Flag)
    requires i <= |readings|
    ensures var n := Reached(readings, own, i);
            && (forall j :: i <= j < n && j != own ==>
                  if RESOURCE_ERROR in readings[j].code then !readings[j].needed
                  else NO_INTERPOLATE !in readings[j].code)
            && (n < |readings| ==>
                  n != own && if RESOURCE_ERROR in readings[n].code then readings[n].needed
                              else NO_INTERPOLATE in readings[n].code)
            && (f in Gathered(readings, own, i, r) <==>
                  || f in r
                  || (exists j :: i <= j <= n && j < |readings| && j != own && f in readings[j].code)
                  || (f == TYPE_ERROR && exists j :: i <= j < n && j != own && readings[j].mistyped))
    decreases |readings| - i
  {
    if i < |readings| && (i == own || !Stops(readings[i])) {
      GatheredIs(readings, own, i + 1, if i == own then r else r + Told(readings[i]), f);
    }
  }

  ghost predicate AllPass(readings: seq<Reading>, own: int, i: nat) {
    forall j :: i <= j < |readings| && j != own ==> Passing(readings[j].code) && !readings[j].mistyped
  }

  /** The round gives data exactly if every port but the one left out does. */
  lemma {:induction false} GatheredPasses(readings: seq<Reading>, own: int, i: nat, r: Code)
    ensures Passing(Gathered(readings, own, i, r)) <==> Passing(r) && AllPass(readings, own, i)
    decreases |readings| - i
  {
    if i < |readings| {
      GatheredPasses(readings, own, i + 1, if i == own then r else r + Told(readings[i]));
    }
  }

  lemma RoundPasses(readings: seq<Reading>, own: int)
    ensures Passing(Gathered(readings, own, 0, OK)) <==> AllPass(readings, own, 0)
  {
    GatheredPasses(readings, own, 0, OK);
  }

  /** What the port left out would have answered does not matter. */
  lemma {:induction false} OwnPortUnread(readings: seq<Reading>, own: nat, x: Reading, i: nat, r: Code)
    requires own < |readings|
    ensures Gathered(readings[own := x], own, i, r) == Gathered(readings, own, i, r)
    decreases |readings| - i
  {
    if i < |readings| {
      OwnPortUnread(readings, own, x, i + 1, if i == own then r else r + Told(readings[i]));
    }
  }

  /** A round in which every port read either answers without a flag or neither pulls nor is needed, and whose
      data are of the right types, has no flag. */
  lemma {:induction false} NoErrorWithoutNeed(pulls: seq<bool>, needed: seq<bool>, answers: seq<Pulled>, own: int,
                                              readings: seq<Reading>, i: nat)
    requires |pulls| == |needed| == |answers| == |readings|
    requires forall j :: 0 <= j < |readings| ==> readings[j] == Asked(pulls[j], needed[j], answers[j])
    requires forall j :: 0 <= j < |readings| && j != own ==>
               !answers[j].mistyped && if pulls[j] then answers[j].code == {} else !needed[j]
    ensures Gathered(readings, own, i, {}) == {}
    decreases |readings| - i
  {
    if i < |readings| { NoErrorWithoutNeed(pulls, needed, answers, own, readings, i + 1); }
  }

  /** The data of the port are needed and cannot be had, as when it does not pull. */
  predicate Fails(x: Reading) {
    x.needed && RESOURCE_ERROR in x.code && x.code !! {TIMESTAMP_TOO_OLD, NO_INTERPOLATE}
  }

  /** Of the ports up to the n-th, those that are read neither have lost their data nor fail to interpolate. */
  ghost predicate InTime(readings: seq<Reading>, own: int, n: nat) {
    forall j :: 0 <= j <= n && j < |readings| && j != own ==> readings[j].code !! {TIMESTAMP_TOO_OLD, NO_INTERPOLATE}
  }

  /** A port whose data are needed and cannot be had makes every round that comes to it a resource error. */
  lemma {:induction false} RoundFails(readings: seq<Reading>, own: int, n: nat, i: nat, r: Code)
    requires i <= n < |readings| && n != own && Fails(readings[n])
    requires InTime(readings, own, n) && r !! {TIMESTAMP_TOO_OLD, NO_INTERPOLATE}
    ensures RESOURCE_ERROR in Gathered(readings, own, i, r)
    ensures Gathered(readings, own, i, r) !! {TIMESTAMP_TOO_OLD, NO_INTERPOLATE}
    decreases n - i
  {
    if i < n && (i == own || !Stops(readings[i])) {
      RoundFails(readings, own, n, i + 1, if i == own then r else r + Told(readings[i]));
    }
  }

  /** Which inputs still pull once the first m were asked and the first n of them had their type checked: not
      those whose client was found to be gone or whose data were of a wrong type. */
  ghost predicate PullsAfter(now: seq<bool>, was: seq<bool>, answers: seq<Pulled>, readings: seq<Reading>,
                             own: int, m: nat, n: nat) {
    && |now| == |was| == |answers| == |readings|
    && forall i :: 0 <= i < |now| ==>
         now[i] == (was[i] && (i == own || ((i < m ==> !answers[i].gone) &&
                                            (i < n ==> !readings[i].mistyped && TYPE_ERROR !in readings[i].code))))
  }

  lemma PullAsked(now: seq<bool>, was: seq<bool>, answers: seq<Pulled>, readings: seq<Reading>, own: int, n: nat)
    requires PullsAfter(now, was, answers, readings, own, n, n) && n < |now|
    ensures now[n] == was[n]
    ensures n == own ==> PullsAfter(now, was, answers, readings, own, n + 1, n + 1)
    ensures n != own ==>
              PullsAfter(now[n := now[n] && !answers[n].gone], was, answers, readings, own, n + 1, n)
  {
  }

  lemma PullChecked(now: seq<bool>, was: seq<bool>, answers: seq<Pulled>, readings: seq<Reading>, own: int, n: nat)
    requires PullsAfter(now, was, answers, readings, own, n + 1, n) && n < |now| && n != own
    ensures PullsAfter(if Mistyped(readings[n]) then now[n := false] else now, was, answers, readings, own,
                       n + 1, n + 1)
  {
  }

  lemma PullsAtFirst(was: seq<bool>, answers: seq<Pulled>, readings: seq<Reading>, own: int)
    requires |was| == |answers| == |readings|
    ensures PullsAfter(was, was, answers, readings, own, 0, 0)
  {
  }

  lemma PullsAtEnd(now: seq<bool>, was: seq<bool>, answers: seq<Pulled>, readings: seq<Reading>, own: int)
    requires PullsAfter(now, was, answers, readings, own, |was|, |was|)
    ensures PullsAfter(now, was, answers, readings, own, |was| + 1, |was|)
  {
  }

  lemma ToldIs(r: Code, x: Reading)
    ensures r + Told(x) == if Mistyped(x) then r + x.code + {TYPE_ERROR} else r + x.code
  {
  }

  class DataFilter {
    const Ins: nat
    /** Per input: whether it pulls, and whether its data are needed. */
    var IsPull: seq<bool>
    var DataNeeded: seq<bool>

    ghost predicate Valid()
      reads this
    {
      |IsPull| == |DataNeeded| == Ins
    }

    constructor (ins: nat)
      ensures Valid() && Ins == ins
    {
      Ins := ins;
      IsPull, DataNeeded := seq(ins, _ => false), seq(ins, _ => true);
    }

    ghost function Readings(answers: seq<Pulled>): seq<Reading>
      requires Valid() && |answers| == Ins
      reads this
    {
      seq(Ins, i requires 0 <= i < Ins reads this requires Valid() =>
            Asked(IsPull[i], DataNeeded[i], answers[i]))
    }

    /** Reads the inputs for data written to `port`, or for a trigger if that is negative; `accepted` says
        whether the port takes the type of the data. A port whose data are of a wrong type pulls no more, nor
        does one whose client is gone. */
    method GetInputs(port: int, accepted: bool, answers: seq<Pulled>) returns (r: Code)
      requires Valid() && |answers| == Ins
      modifies this`IsPull
      ensures Valid()
      ensures port >= Ins ==> r == {ADDRESS_INVALID, RESOURCE_ERROR} && IsPull == old(IsPull)
      ensures 0 <= port < Ins && !accepted ==> r == {TYPE_ERROR, RESOURCE_ERROR} && IsPull == old(IsPull)
      ensures port < 0 || (port < Ins && accepted) ==>
                var readings := old(Readings(answers));
                && r == Gathered(readings, port, 0, OK)
                && (Passing(r) <==> AllPass(readings, port, 0))
                && PullsAfter(IsPull, old(IsPull), answers, readings, port,
                              Reached(readings, port, 0) + 1, Reached(readings, port, 0))
    {
      hide Gathered, Reached, AllPass, Passing, PullsAfter, Mistyped, Told;
      r := OK;
      if port >= Ins { return {ADDRESS_INVALID, RESOURCE_ERROR}; }
      if port > -1 && !accepted { return {TYPE_ERROR, RESOURCE_ERROR}; }
      ghost var readings := Readings(answers);
      RoundPasses(readings, port);
      PullsAtFirst(IsPull, answers, readings, port);
      var i := 0;
      while i < Ins
        invariant 0 <= i <= Ins && Valid()
        invariant Gathered(readings, port, i, r) == Gathered(readings, port, 0, OK)
        invariant Reached(readings, port, i) == Reached(readings, port, 0)
        invariant PullsAfter(IsPull, old(IsPull), answers, readings, port, i, i)
      {
        RoundUnfolds(readings, port, i, r);
        PullAsked(IsPull, old(IsPull), answers, readings, port, i);
        if i != port {
          var x := Asked(IsPull[i], DataNeeded[i], answers[i]);
          assert x == readings[i];
          IsPull := IsPull[i := IsPull[i] && !answers[i].gone];
          ghost var before := r;
          r := r + x.code;
          if RESOURCE_ERROR in x.code {
            if x.needed { return; }
          } else if NO_INTERPOLATE in x.code { return; }
          PullChecked(IsPull, old(IsPull), answers, readings, port, i);
          if Mistyped(x) {
            IsPull := IsPull[i := false];
            r := r + {TYPE_ERROR};
          }
          ToldIs(before, x);
        }
        i := i + 1;
      }
      RoundUnfolds(readings, port, i, r);
      PullsAtEnd(IsPull, old(IsPull), answers, readings, port);
    }
  }
}
