/** A filter's port: how it asks its pull client for data and keeps its place in the client's history. */
module DataFilterAddresses {
  import opened ErrorCodes
  import opened History
  import opened DataSlots
  import opened SequencedPull

  class DataFilterAddress {
    var DataNeeded: bool
    var Interpolate: bool
    var PullExact: bool
    var PullSequenced: bool
    var PullLatest: bool
    var NextData: int
    var LastTime: int
    var LastErrorCode: Code
    var IsPull: bool
    /** The slot behind the pull client's index; null if that index no longer resolves. */
    var PullClient: DataSlot?

    /** Exactly one of the three ways to pull is on. */
    ghost predicate Valid()
      reads this
    {
      && (PullExact || PullSequenced || PullLatest)
      && !(PullExact && PullSequenced) && !(PullExact && PullLatest) && !(PullSequenced && PullLatest)
      && (PullLatest ==> LastTime == 0)
    }

    function Place(): Cursor
      reads this
    {
      Cursor(LastTime, NextData)
    }

    constructor ()
      ensures Valid() && PullExact && !IsPull && DataNeeded && Interpolate && LastErrorCode == OK
    {
      DataNeeded, Interpolate := true, true;
      PullExact, PullSequenced, PullLatest := true, false, false;
      NextData, LastTime, LastErrorCode := 0, 0, OK;
      IsPull, PullClient := false, null;
    }

    method SetExact()
      modifies this`PullExact, this`PullSequenced, this`PullLatest
      ensures Valid() && PullExact
    {
      PullExact, PullSequenced, PullLatest := true, false, false;
    }

    method SetSequenced(t: int, nextdata: int)
      modifies this`PullExact, this`PullSequenced, this`PullLatest, this`LastTime, this`NextData
      ensures Valid() && PullSequenced && Place() == Cursor(t, nextdata)
    {
      PullExact, PullSequenced, PullLatest := false, true, false;
      LastTime, NextData := t, nextdata;
    }

    method SetLatest()
      modifies this`PullExact, this`PullSequenced, this`PullLatest, this`LastTime
      ensures Valid() && PullLatest
    {
      PullExact, PullSequenced, PullLatest := false, false, true;
      LastTime := 0;
    }

    /** The time and the flag this port reads its client with. */
    ghost function Asked(t: int): (int, int)
      reads this
    {
      if PullExact then (t, 0) else if PullSequenced then (LastTime, NextData) else (LastTime, 0)
    }

    /** Makes of a client's answer this port's own code, and moves the cursor; `time` is the time of the
        caller's object as the client left it. */
    method Settle(code: Code, time: int) returns (r: Code)
      requires Valid()
      modifies this`NextData, this`LastTime, this`LastErrorCode, this`IsPull
      ensures Valid()
      ensures ADDRESS_INVALID in code || TYPE_ERROR in code || RESOURCE_ERROR in code ==>
                r == {RESOURCE_ERROR} && LastErrorCode == code && Place() == old(Place())
      ensures IsPull == (old(IsPull) && ADDRESS_INVALID !in code)
      ensures !(ADDRESS_INVALID in code || TYPE_ERROR in code || RESOURCE_ERROR in code) ==>
                && r == LastErrorCode == (if Interpolate then code else code - {NO_INTERPOLATE})
                && Place() == if PullSequenced then Moved(old(Place()), code, time) else old(Place())
      ensures PullSequenced && TIMESTAMP_TOO_OLD in code && !(ADDRESS_INVALID in code || TYPE_ERROR in code
                                                               || RESOURCE_ERROR in code) ==>
                LastTime == time && NextData == 1
      ensures PullSequenced && code == {} && time != old(LastTime) ==> LastTime == time && NextData == 1
      ensures PullSequenced && code == {} && time == old(LastTime) ==>
                LastTime == time && NextData == old(NextData) + (if old(NextData) < 0 then -1 else 1)
    {
      LastErrorCode := code;
      if LastErrorCode != OK {
        if ADDRESS_INVALID in LastErrorCode {
          IsPull := false;
          return {RESOURCE_ERROR};
        } else if TYPE_ERROR in LastErrorCode {
          return {RESOURCE_ERROR};
        } else if RESOURCE_ERROR in LastErrorCode {
          return {RESOURCE_ERROR};
        }
        if !Interpolate {
          LastErrorCode := LastErrorCode - {NO_INTERPOLATE};
        }
        if PullSequenced && TIMESTAMP_TOO_OLD in LastErrorCode {
          NextData := 1;
          LastTime := time;
        }
        return LastErrorCode;
      } else if PullSequenced {
        if LastTime == time {
          if NextData < 0 { NextData := NextData - 1; } else { NextData := NextData + 1; }
        } else {
          NextData := 1;
          LastTime := time;
        }
      }
      return LastErrorCode;
    }

    /** This port and its slot as one reader of a log; `time` is the time of the caller's object. */
    ghost function Sees(time: int, log: seq<Item>, pulled: seq<Item>): World
      requires PullClient != null && PullClient.Valid()
      reads this, PullClient, PullClient.History
    {
      World(PullClient.Hist(), PullClient.NumItems, Place(), time, log, pulled)
    }

    /** Pulls from the client into an object whose time was `before`. A sequenced pull is one `Pull` of the
        reader model: it gives what the history holds next and moves the cursor accordingly. */
    method PullData(t: int, before: int, sameClass: bool, ghost log: seq<Item>, ghost pulled: seq<Item>)
      returns (r: Code, value: Value, time: int)
      requires Valid() && (PullClient != null ==> PullClient.Valid())
      modifies this`NextData, this`LastTime, this`LastErrorCode, this`IsPull
      ensures Valid() && time == TimeAfter(value, old(Asked(t)).0, before)
      ensures !old(IsPull) ==>
                && r == (if DataNeeded then {RESOURCE_ERROR} else OK) && value == Untouched
                && !IsPull && Place() == old(Place()) && LastErrorCode == old(LastErrorCode)
      ensures old(IsPull) && PullClient == null ==>
                r == {RESOURCE_ERROR} && !IsPull && value == Untouched && Place() == old(Place())
      ensures old(IsPull) && PullClient != null ==> IsPull
      ensures old(IsPull) && PullClient != null && PullClient.DoTypeCheck && !sameClass ==>
                r == {RESOURCE_ERROR} && value == Untouched && Place() == old(Place())
      ensures old(IsPull) && PullClient != null && !(PullClient.DoTypeCheck && !sameClass) ==>
                var a := Answered(PullClient.Hist(), PullClient.NumItems, old(Asked(t)).0, old(Asked(t)).1);
                && r == a.code && value == a.value
                && (PullExact && t != 0 && PullClient.NumItems > 0 && r == OK ==> Current(PullClient.Hist(), value, t))
                && (PullLatest && PullClient.NumItems > 0 ==>
                      r == OK && value == Copy(PullClient.Hist()[|PullClient.Hist()| - 1]))
                && (!PullSequenced ==> Place() == old(Place()))
                && (PullSequenced && PullClient.Size > 0 ==>
                      Sees(time, log, if r == OK && value.Copy? then pulled + [value.item] else pulled)
                      == Next(old(Sees(before, log, pulled)), Pull))
    {
      hide Answered, Current;
      if !IsPull {
        if DataNeeded { return {RESOURCE_ERROR}, Untouched, before; }
        return OK, Untouched, before;
      }
      var askedTime := if PullExact then t else LastTime;
      var askedNext := if PullSequenced then NextData else 0;
      var code, next;
      if PullClient == null {
        code, value := {RESOURCE_ERROR, ADDRESS_INVALID}, Untouched;
      } else {
        code, value, next := PullClient.Read(askedTime, askedNext, sameClass);
        SlotCodes(PullClient.Hist(), PullClient.NumItems, askedTime, askedNext);
        if PullLatest && PullClient.NumItems > 0 { LatestAnswer(PullClient.Hist(), PullClient.NumItems); }
        if PullExact && PullClient.NumItems > 0 && t != 0 { CurrentIff(PullClient.Hist(), PullClient.NumItems, t); }
      }
      time := match value case Untouched => before case Copy(item) => item.time case Between(_, _) => askedTime;
      r := Settle(code, time);
    }
  }

  /** A slot never answers with a code that would disconnect its reader or that it cannot interpolate. */
  lemma SlotCodes(h: seq<Item>, filled: nat, t: int, k: int)
    requires filled <= |h|
    ensures var code := Answered(h, filled, t, k).code;
            ADDRESS_INVALID !in code && TYPE_ERROR !in code && RESOURCE_ERROR !in code && NO_INTERPOLATE !in code
  {
  }
}
