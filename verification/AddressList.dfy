/** Linked lists of addresses: the buckets of the address bank. */
module AddressLists {

  /** A reader or writer of data; `Index` is its number in a bank, 0 outside of any. */
  class Address {
    var Index: nat

    constructor ()
      ensures Index == 0
    {
      Index := 0;
    }
  }

  /** The items without the first occurrence of `pa`. */
  function Without(items: seq<Address>, pa: Address): (r: seq<Address>)
    ensures pa !in items ==> r == items
  {
    if items == [] then []
    else if items[0] == pa then items[1..]
    else [items[0]] + Without(items[1..], pa)
  }

  ghost predicate Distinct(items: seq<Address>) {
    forall i, j :: 0 <= i < j < |items| ==> items[i] != items[j]
  }

  lemma {:induction false} WithoutKeepsOthers(items: seq<Address>, pa: Address)
    requires Distinct(items)
    ensures Distinct(Without(items, pa)) && pa !in Without(items, pa)
    ensures forall k :: 0 <= k < |Without(items, pa)| ==> Without(items, pa)[k] in items
    ensures forall k :: 0 <= k < |items| && items[k] != pa ==> items[k] in Without(items, pa)
  {
    if items != [] {
      var rest := items[1..];
      assert Distinct(rest);
      assert items == [items[0]] + rest && items[0] !in rest;
      WithoutKeepsOthers(rest, pa);
    }
  }

  /** A node; the last one of a list holds no address. */
  class AddressList {
    var Element: Address?
    var Next: AddressList?
    ghost var Repr: set<AddressList>
    ghost var Items: seq<Address>

    ghost predicate Valid()
      reads this, Repr
      ensures Valid() ==> this in Repr
      decreases Repr
    {
      && this in Repr
      && if Next == null then Items == []
         else
           && Next in Repr && Next.Repr < Repr && this !in Next.Repr && Next.Valid()
           && Element != null && Items == [Element] + Next.Items
    }

    constructor ()
      ensures Valid() && Items == [] && Repr == {this}
    {
      Element, Next, Repr, Items := null, null, {this}, [];
    }

    /** Puts the address at the end. */
    method Add(pa: Address) returns (r: int)
      requires Valid()
      modifies Repr
      ensures Valid() && Items == old(Items) + [pa] && fresh(Repr - old(Repr)) && r == 1
      decreases Repr
    {
      if Next == null {
        Element := pa;
        Next := new AddressList();
        Repr := {this} + Next.Repr;
        Items := [pa];
        return 1;
      }
      r := Next.Add(pa);
      Repr := {this} + Next.Repr;
      Items := [Element] + Next.Items;
    }

    /** Takes out the first occurrence of the address, if there is one. */
    method Remove(pa: Address) returns (r: int)
      requires Valid()
      modifies Repr
      ensures Valid() && Items == Without(old(Items), pa) && Repr <= old(Repr)
      ensures r == 0 <==> pa in old(Items)
      decreases Repr
    {
      if Next == null { return 1; }
      if Element == pa {
        Element := Next.Element;
        Items := Next.Items;
        var l := Next;
        Next := Next.Next;
        Repr := Repr - {l};
        l.Next := null;
        return 0;
      }
      r := Next.Remove(pa);
      Repr := {this} + Next.Repr;
      Items := [Element] + Next.Items;
    }

    /** The first address with this index. */
    function Get(n: nat): (pa: Address?)
      requires Valid()
      reads this, Repr, Items
      ensures pa == null ==> forall x :: x in Items ==> x.Index != n
      ensures pa != null ==> pa in Items && pa.Index == n
      decreases Repr
    {
      if Next == null then null
      else
        assert Items[0] == Element && Items[1..] == Next.Items;
        if Element.Index == n then Element
      else Next.Get(n)
    }
  }
}
