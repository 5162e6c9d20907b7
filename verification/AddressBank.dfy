/** The address bank of one thread: a hash table from indices to addresses. */
module AddressBanks {
  import opened AddressLists
  import opened ErrorCodes
  import opened Registry

  function PowerOfTwo(depth: nat): (n: nat)
    ensures n > 0
  {
    if depth == 0 then 1 else 2 * PowerOfTwo(depth - 1)
  }

  /** The greatest depth whose table size fits the 16 bits of `Size`. */
  const MAX_DEPTH := 14

  /** The shift that computes a table size is one of an int, which is defined below its 32 bits. */
  const INT_BITS := 32

  /** The low bits of an index, for a table whose size is a power of two. */
  function Low(index: nat, size: nat): (b: nat)
    requires size > 0
    ensures b < size
  {
    index % size
  }

  // ---- tables of buckets -------------------------------------------------------------

  /** The buckets are proper lists within `nodes` that share no node. */
  ghost predicate Chained(t: seq<AddressList>, nodes: set<AddressList>)
    reads t, nodes
  {
    && (forall b :: 0 <= b < |t| ==> t[b].Repr <= nodes && t[b].Valid())
    && (forall b, c :: 0 <= b < c < |t| ==> t[b].Repr !! t[c].Repr)
  }

  ghost predicate Within(t: seq<AddressList>, nodes: set<AddressList>) {
    forall b :: 0 <= b < |t| ==> t[b] in nodes
  }

  /** The addresses in each bucket. */
  ghost function Rows(t: seq<AddressList>): (rows: seq<seq<Address>>)
    reads t
    ensures |rows| == |t| && forall b :: 0 <= b < |t| ==> rows[b] == t[b].Items
  {
    if t == [] then [] else [t[0].Items] + Rows(t[1..])
  }

  /** The list calls leave the other buckets alone. */
  method AddAt(t: array<AddressList>, inx: nat, pa: Address, ghost nodes: set<AddressList>)
    returns (ghost after: set<AddressList>)
    requires inx < t.Length && Chained(t[..], nodes)
    modifies nodes
    ensures Chained(t[..], after) && nodes <= after && fresh(after - nodes)
    ensures Rows(t[..]) == old(Rows(t[..]))[inx := old(Rows(t[..])[inx]) + [pa]]
  {
    hide AddressList.Valid, Rows;
    ghost var s := t[..];
    assert forall b :: 0 <= b < |s| ==> s[b] in s[b].Repr;
    var r := t[inx].Add(pa);
    after := nodes + t[inx].Repr;
    forall c | 0 <= c < |s| && c != inx
      ensures s[c].Repr == old(s[c].Repr) && s[c].Items == old(s[c].Items) && s[c].Valid()
    {
    }
    assert t[..] == s;
  }

  method RemoveAt(t: array<AddressList>, inx: nat, pa: Address, ghost nodes: set<AddressList>)
    requires inx < t.Length && Chained(t[..], nodes)
    modifies nodes
    ensures Chained(t[..], nodes)
    ensures Rows(t[..]) == old(Rows(t[..]))[inx := Without(old(Rows(t[..])[inx]), pa)]
  {
    hide AddressList.Valid, Rows, Without;
    ghost var s := t[..];
    assert forall b :: 0 <= b < |s| ==> s[b] in s[b].Repr;
    var r := t[inx].Remove(pa);
    forall c | 0 <= c < |s| && c != inx
      ensures s[c].Repr == old(s[c].Repr) && s[c].Items == old(s[c].Items) && s[c].Valid()
    {
    }
    assert t[..] == s;
  }

  lemma OneBucket(node: AddressList)
    requires node.Valid()
    ensures Chained([node], node.Repr)
  {
    hide AddressList.Valid;
  }

  lemma OneMoreBucket(t: seq<AddressList>, nodes: set<AddressList>, node: AddressList)
    requires Chained(t, nodes) && node.Valid() && node.Repr !! nodes
    ensures Chained(t + [node], nodes + node.Repr)
  {
    hide AddressList.Valid;
  }

  /** A table of empty buckets. */
  method NewTable(size: nat) returns (t: array<AddressList>, ghost nodes: set<AddressList>)
    requires size > 0
    ensures fresh(t) && fresh(nodes) && t.Length == size && Chained(t[..], nodes)
    ensures Within(t[..], nodes) && Keeps(Rows(t[..]), map[])
  {
    hide AddressList.Valid, Rows, Keeps, Chained;
    var first := new AddressList();
    t := new AddressList[size](_ => first);
    nodes := first.Repr;
    assert t[..1] == [first];
    OneBucket(first);
    var k := 1;
    while k < size
      invariant 1 <= k <= size && fresh(nodes) && Chained(t[..k], nodes)
      invariant forall b :: 0 <= b < k ==> t[b] in nodes && t[b].Items == []
    {
      ghost var s := t[..k];
      var node := new AddressList();
      OneMoreBucket(s, nodes, node);
      t[k] := node;
      nodes := nodes + node.Repr;
      assert t[..k + 1] == s + [node];
      k := k + 1;
    }
    assert t[..size] == t[..];
    EmptyKeeps(Rows(t[..]));
  }

  lemma EmptyKeeps(rows: seq<seq<Address>>)
    requires rows != [] && forall b :: 0 <= b < |rows| ==> rows[b] == []
    ensures Keeps(rows, map[])
  {
  }

  // ---- what a table keeps ------------------------------------------------------------

  /** The rows hold exactly the live addresses, each once, in the bucket its index selects. */
  ghost predicate Keeps(rows: seq<seq<Address>>, live: map<nat, Address>)
    requires rows != []
  {
    && (forall b :: 0 <= b < |rows| ==> Distinct(rows[b]))
    && (forall b, k :: 0 <= b < |rows| && 0 <= k < |rows[b]| ==> InBucket(rows[b][k], b, |rows|, live))
    && (forall i :: i in live ==> live[i] in rows[Low(i, |rows|)])
  }

  ghost predicate InBucket(x: Address, b: nat, size: nat, live: map<nat, Address>)
    requires size > 0
  {
    exists i :: i in live && live[i] == x && Low(i, size) == b
  }

  /** Every live address carries its index. */
  ghost predicate Numbered(live: map<nat, Address>)
    reads live.Values
  {
    forall i :: i in live ==> live[i].Index == i
  }

  lemma AddKeeps(rows: seq<seq<Address>>, live: map<nat, Address>, i: nat, pa: Address)
    requires rows != [] && Keeps(rows, live) && i !in live && pa !in live.Values
    ensures Keeps(rows[Low(i, |rows|) := rows[Low(i, |rows|)] + [pa]], live[i := pa])
  {
    var inx := Low(i, |rows|);
    var more := rows[inx := rows[inx] + [pa]];
    var grown := live[i := pa];
    forall b, k | 0 <= b < |rows| && 0 <= k < |more[b]| ensures InBucket(more[b][k], b, |rows|, grown) {
      var x := more[b][k];
      if k < |rows[b]| {
        var j: nat :| j in live && live[j] == x && Low(j, |rows|) == b;
        assert j in grown && grown[j] == x;
      } else {
        assert grown[i] == x;
      }
    }
    OnlyLive(rows, live, inx);
  }

  lemma RemoveKeeps(rows: seq<seq<Address>>, live: map<nat, Address>, i: nat)
    requires rows != [] && Keeps(rows, live) && i in live
    requires forall j :: j in live && j != i ==> live[j] != live[i]
    ensures Keeps(rows[Low(i, |rows|) := Without(rows[Low(i, |rows|)], live[i])], live - {i})
  {
    hide Without, Low, InBucket, Distinct;
    var inx := Low(i, |rows|);
    WithoutKeepsOthers(rows[inx], live[i]);
    var kept := Without(rows[inx], live[i]);
    var fewer := rows[inx := kept];
    forall b, k | 0 <= b < |rows| && 0 <= k < |fewer[b]| ensures InBucket(fewer[b][k], b, |rows|, live - {i}) {
      if b == inx {
        assert kept[k] in rows[inx] && kept[k] in kept;
      }
      OthersStay(fewer[b][k], b, |rows|, live, i);
    }
  }

  lemma OthersStay(x: Address, b: nat, size: nat, live: map<nat, Address>, i: nat)
    requires size > 0 && InBucket(x, b, size, live) && i in live && (b == Low(i, size) ==> x != live[i])
    ensures InBucket(x, b, size, live - {i})
  {
    hide Low;
    var j: nat :| j in live && live[j] == x && Low(j, size) == b;
    assert j in live - {i};
  }

  /** An address that is not live is in no bucket. */
  lemma StrangerKeeps(rows: seq<seq<Address>>, live: map<nat, Address>, inx: nat, pa: Address)
    requires rows != [] && Keeps(rows, live) && inx < |rows| && pa !in live.Values
    ensures rows[inx := Without(rows[inx], pa)] == rows
  {
    OnlyLive(rows, live, inx);
  }

  lemma OnlyLive(rows: seq<seq<Address>>, live: map<nat, Address>, b: nat)
    requires rows != [] && Keeps(rows, live) && b < |rows|
    ensures forall x :: x in rows[b] ==> x in live.Values
  {
    forall x | x in rows[b] ensures x in live.Values {
      assert InBucket(x, b, |rows|, live);
    }
  }

  /** Looking in the bucket an index selects finds what the live map says. */
  lemma LookupIs(t: seq<AddressList>, nodes: set<AddressList>, live: map<nat, Address>, i: nat)
    requires t != [] && Chained(t, nodes) && Keeps(Rows(t), live) && Numbered(live)
    ensures t[Low(i, |t|)].Valid() && t[Low(i, |t|)].Get(i) == if i in live then live[i] else null
  {
    hide AddressList.Valid, Rows, Chained, Low;
    assert t[Low(i, |t|)].Valid() by { RowValid(t, nodes, Low(i, |t|)); }
    var pa := t[Low(i, |t|)].Get(i);
    if pa != null {
      assert InBucket(pa, Low(i, |t|), |t|, live);
    }
  }

  lemma RowValid(t: seq<AddressList>, nodes: set<AddressList>, b: nat)
    requires b < |t| && Chained(t, nodes)
    ensures t[b].Valid()
  {
  }

  /** Puts an address that is not in the table into the bucket its index selects. */
  method Insert(t: array<AddressList>, pa: Address, ghost nodes: set<AddressList>, ghost live: map<nat, Address>)
    returns (ghost after: set<AddressList>)
    requires t.Length > 0 && Chained(t[..], nodes) && Keeps(Rows(t[..]), live)
    requires pa.Index !in live && pa !in live.Values
    modifies nodes
    ensures Chained(t[..], after) && fresh(after - nodes) && nodes <= after
    ensures Keeps(Rows(t[..]), live[pa.Index := pa])
  {
    hide AddressList.Valid, Chained, Rows, Low, Keeps;
    AddKeeps(Rows(t[..]), live, pa.Index, pa);
    after := AddAt(t, Low(pa.Index, t.Length), pa, nodes);
  }

  /** Looks up every index given out so far and puts what it finds into the new table. */
  method Refill(t: array<AddressList>, ghost nodes: set<AddressList>, from: array<AddressList>, next: nat,
                ghost fromNodes: set<AddressList>, ghost live: map<nat, Address>)
    returns (ghost after: set<AddressList>)
    requires from.Length > 0 && Chained(from[..], fromNodes) && Keeps(Rows(from[..]), live) && Numbered(live)
    requires Within(from[..], fromNodes)
    requires forall i :: i in live ==> i < next
    requires t.Length > 0 && Chained(t[..], nodes) && nodes !! fromNodes
    requires Keeps(Rows(t[..]), map[])
    modifies nodes
    ensures Chained(t[..], after) && fresh(after - nodes) && nodes <= after
    ensures Keeps(Rows(t[..]), live)
  {
    hide AddressList.Valid, AddressList.Get, Chained, Rows, Low, Keeps;
    after := nodes;
    var index := 0;
    UptoEnds(live, next);
    while index < next
      invariant index <= next && nodes <= after && fresh(after - nodes) && after !! fromNodes
      invariant Chained(from[..], fromNodes) && Rows(from[..]) == old(Rows(from[..])) && Numbered(live)
      invariant Chained(t[..], after) && Keeps(Rows(t[..]), Upto(live, index))
      modifies after
    {
      hide Upto;
      UptoStep(live, index);
      LookupIs(from[..], fromNodes, live, index);
      var pa := from[Low(index, from.Length)].Get(index);
      if pa != null {
        after := Insert(t, pa, after, Upto(live, index));
      }
      index := index + 1;
    }
  }

  /** A new table of another size with the same addresses. */
  method Rebuilt(size: nat, from: array<AddressList>, next: nat, ghost fromNodes: set<AddressList>,
                 ghost live: map<nat, Address>) returns (t: array<AddressList>, ghost nodes: set<AddressList>)
    requires size > 0 && from.Length > 0
    requires Chained(from[..], fromNodes) && Keeps(Rows(from[..]), live) && Numbered(live)
    requires Within(from[..], fromNodes) && forall i :: i in live ==> i < next
    ensures fresh(t) && fresh(nodes) && t.Length == size && Within(t[..], nodes)
    ensures Chained(t[..], nodes) && Keeps(Rows(t[..]), live)
  {
    hide AddressList.Valid, AddressList.Get, Chained, Rows, Keeps, Low;
    t, nodes := NewTable(size);
    nodes := Refill(t, nodes, from, next, fromNodes, live);
  }

  lemma UptoStep(live: map<nat, Address>, n: nat)
    requires Numbered(live)
    ensures n !in Upto(live, n) && n in live ==> live[n] !in Upto(live, n).Values
    ensures Upto(live, n + 1) == if n in live then Upto(live, n)[n := live[n]] else Upto(live, n)
  {
  }

  // ---- the bank ----------------------------------------------------------------------

  class AddressBankThread {
    var Addresses: array<AddressList>
    var Permanent: array<bool>
    var Size: int
    var Mask: int
    var NextIndex: nat
    ghost var Depth: nat
    ghost var Nodes: set<AddressList>
    ghost var Live: map<nat, Address>

    /** The table is a power of two long, so the mask selects `index` modulo its size. */
    ghost predicate Valid()
      reads this, Addresses, Nodes, Live.Values
    {
      && Depth <= MAX_DEPTH && Size == PowerOfTwo(Depth) && Mask == Size - 1
      && Addresses.Length == Size && Permanent.Length == Size
      && Within(Addresses[..], Nodes)
      && Chained(Addresses[..], Nodes) && Keeps(Rows(Addresses[..]), Live) && Numbered(Live)
      && 0 < NextIndex && forall i :: i in Live ==> 0 < i < NextIndex
    }

    /** The bank as a registry. */
    ghost function Known(): State<Address>
      reads this
    {
      State(NextIndex, Live)
    }

    /** The bucket of an index: its low bits. */
    function Bucket(index: nat): (b: nat)
      requires Mask >= 0
      reads this
      ensures b <= Mask
    {
      Low(index, Mask + 1)
    }

    constructor (depth: nat)
      ensures Known() == State(1, map[])
      ensures depth < INT_BITS ==> Size == Short(PowerOfTwo(depth)) && (Size > 0 <==> depth <= MAX_DEPTH)
      ensures depth <= MAX_DEPTH ==> Valid() && fresh(Nodes) && fresh(Addresses) && fresh(Permanent)
    {
      hide AddressList.Valid, Rows, PowerOfTwo, Short;
      if depth < INT_BITS { DepthFits(depth); }
      var size := Short(PowerOfTwo(depth));
      NextIndex := 1;
      Size, Mask := size, size - 1;
      Depth, Live := depth, map[];
      if size > 0 {
        var t;
        ghost var nodes;
        t, nodes := NewTable(size);
        Addresses, Nodes := t, nodes;
        Permanent := new bool[size](_ => false);
      } else {
        Addresses, Nodes := new AddressList[0], {};
        Permanent := new bool[0];
      }
    }

    /** The address an index stands for, if any. */
    function Resolve(index: nat): (pa: Address?)
      requires Valid()
      reads this, Addresses, Nodes, Live.Values
      ensures pa == if index in Live then Live[index] else null
    {
      OnlyLive(Rows(Addresses[..]), Live, Bucket(index));
      LookupIs(Addresses[..], Nodes, Live, index);
      Addresses[Bucket(index)].Get(index)
    }

    /** Gives the address the next index, unless it has one in some bank. */
    method Add(pa: Address)
      requires Valid()
      modifies this`NextIndex, this`Nodes, this`Live, Nodes, pa
      ensures Valid() && fresh(Nodes - old(Nodes))
      ensures old(pa.Index) != 0 ==> Known() == old(Known()) && pa.Index == old(pa.Index)
      ensures old(pa.Index) == 0 ==> Known() == Next(old(Known()), Event.Add(pa))
      ensures old(pa.Index) == 0 ==>
                NextIndex == old(NextIndex) + 1 && pa.Index == old(NextIndex) && Live == old(Live)[pa.Index := pa]
    {
      hide AddressList.Valid, Chained, Rows, Keeps, Low, PowerOfTwo, Without;
      if pa.Index != 0 { return; }
      assert pa !in Live.Values;
      pa.Index := NextIndex;
      Nodes := Insert(Addresses, pa, Nodes, Live);
      Live := Live[NextIndex := pa];
      NextIndex := NextIndex + 1;
    }

    /** Takes the address out of the bank and its index away. */
    method Remove(pa: Address)
      requires Valid()
      modifies this`Live, Nodes, pa
      ensures Valid() && pa.Index == 0 && Known() == Next(old(Known()), Event.Remove(pa))
    {
      hide AddressList.Valid, Chained, Rows, Keeps, Low, PowerOfTwo, Without;
      if pa.Index == 0 {
        assert pa !in Live.Values;
        return;
      }
      var inx := Bucket(pa.Index);
      ghost var left := Next(Known(), Event.Remove(pa)).live;
      if pa in Live.Values {
        assert left == Live - {pa.Index};
        RemoveKeeps(Rows(Addresses[..]), Live, pa.Index);
      } else {
        assert left == Live;
        StrangerKeeps(Rows(Addresses[..]), Live, inx, pa);
      }
      RemoveAt(Addresses, inx, pa, Nodes);
      Live := left;
      pa.Index := 0;
    }

    /** Rebuilds the table for another size: every address keeps its index and is found by it as before, for
        exactly the depths whose size is positive in 16 bits. For any other there is no bucket to hold one.
        Nothing is said of a depth for which the shift is undefined. */
    method ResizeHash(depth: nat) returns (ok: bool)
      requires Valid()
      modifies this`Addresses, this`Permanent, this`Size, this`Mask, this`Depth, this`Nodes
      ensures Known() == old(Known())
      ensures depth < INT_BITS ==> Size == Short(PowerOfTwo(depth)) && (ok <==> depth <= MAX_DEPTH)
      ensures depth <= MAX_DEPTH ==>
                && Valid() && Depth == depth && fresh(Addresses) && fresh(Permanent) && fresh(Nodes)
                && forall b :: 0 <= b < Size ==> !Permanent[b]
    {
      hide Short, Valid, AddressList.Valid, AddressList.Get, Chained, Within, Rows, Keeps, Low, PowerOfTwo, Numbered;
      Parts();
      if depth < INT_BITS { DepthFits(depth); }
      var size := Short(PowerOfTwo(depth));
      if size <= 0 {
        Size, Mask := size, size - 1;
        return false;
      }
      var t;
      ghost var nodes;
      t, nodes := Rebuilt(size, Addresses, NextIndex, Nodes, Live);
      var perm := new bool[size](_ => false);
      Addresses, Permanent, Nodes := t, perm, nodes;
      Size, Mask, Depth := size, size - 1, depth;
      if depth <= MAX_DEPTH { Whole(); }
      ok := true;
    }

    /** What `Valid` says of the table, for proofs that keep its definition out of sight. */
    lemma Parts()
      requires Valid()
      ensures Addresses.Length > 0 && Within(Addresses[..], Nodes) && Chained(Addresses[..], Nodes)
      ensures Keeps(Rows(Addresses[..]), Live) && Numbered(Live)
      ensures 0 < NextIndex && forall i :: i in Live ==> i < NextIndex
      ensures forall i :: i in Live ==> 0 < i
    {
    }

    /** What it takes for a rebuilt table to be `Valid`. */
    lemma Whole()
      requires Depth <= MAX_DEPTH && Size == PowerOfTwo(Depth) && Mask == Size - 1
      requires Addresses.Length == Size && Permanent.Length == Size
      requires Within(Addresses[..], Nodes) && Chained(Addresses[..], Nodes)
      requires Keeps(Rows(Addresses[..]), Live) && Numbered(Live)
      requires 0 < NextIndex && (forall i :: i in Live ==> i < NextIndex) && forall i :: i in Live ==> 0 < i
      ensures Valid()
    {
    }

    /** Whatever was added, removed and resized between two states of the bank: an index that resolved still
        does so, to the same address, exactly if that address was not removed; one that did not, though it had
        been given out, does not. */
    twostate lemma IndexOverRun(events: seq<Event<Address>>, index: nat)
      requires old(Valid()) && Valid() && Known() == After(old(Known()), events) && index < old(NextIndex)
      ensures old(Resolve(index)) == null ==> Resolve(index) == null
      ensures old(Resolve(index)) != null ==>
                Resolve(index) == if Event.Remove(old(Live)[index]) in events then null else old(Live)[index]
    {
      hide Chained, Rows, Keeps;
      assert Sound(old(Known()));
      if index in old(Live) {
        ResolvesUntilRemoved(old(Known()), events, index);
      } else {
        StaleForever(old(Known()), events, index);
      }
    }

    /** Whether an index resolves. */
    method Query(index: nat) returns (r: Code)
      requires Valid()
      ensures r == if index in Live then OK else {RESOURCE_ERROR, ADDRESS_INVALID}
    {
      var pa := Resolve(index);
      if pa == null { return {RESOURCE_ERROR, ADDRESS_INVALID}; }
      return OK;
    }

    /** Passes a write or a read on to the address behind an index; `answer` is what an address replies. The
        caller sees ADDRESS_INVALID exactly if the index does not resolve. */
    method Forward(index: nat, answer: Address -> Code) returns (r: Code)
      requires Valid()
      ensures r == if index in Live then answer(Live[index]) - {ADDRESS_INVALID} else {RESOURCE_ERROR, ADDRESS_INVALID}
      ensures ADDRESS_INVALID in r <==> index !in Live
    {
      if index == 0 { return {RESOURCE_ERROR, ADDRESS_INVALID}; }
      var pa := Resolve(index);
      if pa == null { return {RESOURCE_ERROR, ADDRESS_INVALID}; }
      return answer(pa) - {ADDRESS_INVALID};
    }

    /** Counts the addresses. */
    method Count() returns (cnt: nat)
      requires Valid()
      ensures cnt == |Live|
    {
      hide AddressList.Valid, Chained, Rows, Keeps, CountBelow;
      CountEnds(Live, NextIndex);
      cnt := 0;
      var index := 0;
      while index < NextIndex
        invariant index <= NextIndex && cnt == CountBelow(Live, index)
      {
        CountStep(Live, index);
        var r := Query(index);
        if r == OK { cnt := cnt + 1; }
        index := index + 1;
      }
    }

    /** Makes the table as small as one bucket per address allows. The 16-bit doubling only ends for up to
        16384 addresses; see `OptimizeFinishes`. */
    method OptimizeHash()
      requires Valid() && |Live| <= 16384
      modifies this`Addresses, this`Permanent, this`Size, this`Mask, this`Depth, this`Nodes
      ensures Valid() && Known() == old(Known())
      ensures |Live| <= Size && (Size > 1 ==> Size < 2 * |Live|)
    {
      hide AddressList.Valid, Chained, Rows, Keeps, PowerOfTwo, Short;
      FirstPower();
      var cnt := Count();
      var s, depth := 1, 0;
      while s < cnt
        invariant 0 <= depth <= MAX_DEPTH && s == PowerOfTwo(depth)
        invariant depth > 0 ==> s < 2 * cnt
        modifies {}
        decreases cnt - s
      {
        if depth == MAX_DEPTH { GreatestPower(); }
        FitsShort(depth);
        PowerStep(depth);
        s := Short(2 * s);
        depth := depth + 1;
      }
      DepthFits(depth);
      var ok := ResizeHash(depth);
    }
  }

  // ---- doubling in 16 bits ------------------------------------------------------------

  /** The value a 16-bit signed integer takes. */
  function Short(x: int): int {
    if x % 0x1_0000 < 0x8000 then x % 0x1_0000 else x % 0x1_0000 - 0x1_0000
  }

  /** The doubling loop's variable after k rounds. */
  function Doubled(k: nat): int {
    if k == 0 then 1 else Short(2 * Doubled(k - 1))
  }

  lemma FirstPower()
    ensures PowerOfTwo(0) == 1
  {
  }

  lemma PowerStep(depth: nat)
    ensures PowerOfTwo(depth + 1) == 2 * PowerOfTwo(depth)
  {
  }

  lemma GreatestPower()
    ensures PowerOfTwo(MAX_DEPTH) == 16384
  {
    assert PowerOfTwo(7) == 128;
  }

  lemma FitsShort(depth: nat)
    requires depth <= MAX_DEPTH && PowerOfTwo(depth) < 16384
    ensures depth < MAX_DEPTH && Short(2 * PowerOfTwo(depth)) == PowerOfTwo(depth + 1) <= 16384
  {
    GreatestPower();
    PowersGrow(depth + 1, MAX_DEPTH);
  }

  lemma {:induction false} DoubledEarly(k: nat)
    requires k <= MAX_DEPTH
    ensures Doubled(k) == PowerOfTwo(k) <= 16384
  {
    GreatestPower();
    PowersGrow(k, MAX_DEPTH);
    if k > 0 {
      DoubledEarly(k - 1);
      FitsShort(k - 1);
    }
  }

  lemma DoubledStep(k: nat)
    requires k > 0
    ensures Doubled(k) == Short(2 * Doubled(k - 1))
  {
  }

  lemma Overflows()
    ensures Short(2 * 16384) == -32768 && Short(2 * -32768) == 0 && Short(2 * 0) == 0
  {
  }

  lemma {:induction false} DoubledLate(k: nat)
    requires k > MAX_DEPTH
    ensures Doubled(k) == if k == 15 then -32768 else 0
  {
    DoubledStep(k);
    hide *;
    if k == 15 {
      DoubledEarly(MAX_DEPTH);
      GreatestPower();
      Overflows();
    } else {
      DoubledLate(k - 1);
      Overflows();
    }
  }

  /** Of the depths the shift is defined for, exactly those up to 14 give a size that its 16 bits hold; 15 gives
      a negative one and the others none at all. */
  lemma DepthFits(depth: nat)
    requires depth < INT_BITS
    ensures Short(PowerOfTwo(depth)) == PowerOfTwo(depth) <==> depth <= MAX_DEPTH
    ensures depth > MAX_DEPTH ==> Short(PowerOfTwo(depth)) == if depth == 15 then -32768 else 0
  {
    hide PowerOfTwo, Short;
    if depth <= MAX_DEPTH {
      PowersGrow(depth, MAX_DEPTH);
      GreatestPower();
      SmallFits(PowerOfTwo(depth));
    } else if depth == 15 {
      PowerStep(MAX_DEPTH);
      GreatestPower();
      Overflows();
    } else {
      EvenPowers(depth);
    }
  }

  lemma SmallFits(x: nat)
    requires x <= 16384
    ensures Short(x) == x
  {
  }

  lemma {:induction false} EvenPowers(depth: nat)
    requires depth >= 16
    ensures Short(PowerOfTwo(depth)) == 0
  {
    GreatestPower();
    PowerStep(MAX_DEPTH);
    PowerStep(15);
    hide PowerOfTwo;
    if depth > 16 {
      EvenPowers(depth - 1);
      PowerStep(depth - 1);
    }
  }

  lemma {:induction false} PowersGrow(k: nat, n: nat)
    requires k <= n
    ensures PowerOfTwo(k) <= PowerOfTwo(n)
    decreases n - k
  {
    if k < n { PowersGrow(k + 1, n); }
  }

  /** The loop that looks for a table size ends exactly when there are at most 16384 addresses: then the
      size wraps to a negative number and to zero, and stays there. */
  lemma OptimizeFinishes(cnt: int)
    ensures (exists k :: Doubled(k) >= cnt) <==> cnt <= 16384
  {
    hide PowerOfTwo, Doubled;
    if cnt <= 16384 {
      DoubledEarly(MAX_DEPTH);
      GreatestPower();
    }
    if k: nat :| Doubled(k) >= cnt {
      if k <= MAX_DEPTH { DoubledEarly(k); } else { DoubledLate(k); }
    }
  }

  /** The part of the live map below an index. */
  ghost function Upto(live: map<nat, Address>, n: nat): map<nat, Address> {
    map i | i in live && i < n :: live[i]
  }

  lemma UptoEnds(live: map<nat, Address>, next: nat)
    requires forall i :: i in live ==> i < next
    ensures Upto(live, 0) == map[] && Upto(live, next) == live
  {
  }

  /** How many indices below n are live. */
  ghost function CountBelow(live: map<nat, Address>, n: nat): nat {
    |Upto(live, n)|
  }

  lemma CountStep(live: map<nat, Address>, n: nat)
    ensures CountBelow(live, n + 1) == CountBelow(live, n) + if n in live then 1 else 0
  {
    assert Upto(live, n + 1) == if n in live then Upto(live, n)[n := live[n]] else Upto(live, n);
  }

  lemma CountEnds(live: map<nat, Address>, next: nat)
    requires forall i :: i in live ==> i < next
    ensures CountBelow(live, 0) == 0 && CountBelow(live, next) == |live|
  {
    UptoEnds(live, next);
  }
}
