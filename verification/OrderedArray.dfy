/** The ordered array: elements kept in ascending order by insertion, in a fixed storage. */
module OrderedArray {
  import opened Words

  type Greater = (u64, u64) -> bool

  /** The first position whose element is greater than `x`. */
  function Place(s: seq<u64>, x: u64, greater: Greater): (p: nat)
    ensures p <= |s|
    ensures forall i | 0 <= i < p :: !greater(s[i], x)
    ensures p < |s| ==> greater(s[p], x)
  {
    if s == [] || greater(s[0], x) then 0 else 1 + Place(s[1..], x, greater)
  }

  function Insert(s: seq<u64>, x: u64, greater: Greater): seq<u64> {
    var p := Place(s, x, greater);
    s[..p] + [x] + s[p..]
  }

  ghost predicate Ordered(s: seq<u64>, greater: Greater) {
    forall i, j | 0 <= i < j < |s| :: !greater(s[i], s[j])
  }

  /** `greater` compares by a total preorder. */
  ghost predicate Comparison(greater: Greater) {
    && (forall a, b :: greater(a, b) ==> !greater(b, a))
    && (forall a, b, c :: !greater(a, b) && !greater(b, c) ==> !greater(a, c))
  }

  /** Insertion keeps the order and adds exactly the new element, behind all it does not precede. */
  lemma {:induction false} InsertKeepsOrder(s: seq<u64>, x: u64, greater: Greater)
    requires Comparison(greater) && Ordered(s, greater)
    ensures Ordered(Insert(s, x, greater), greater)
    ensures multiset(Insert(s, x, greater)) == multiset(s) + multiset{x}
  {
    var p := Place(s, x, greater);
    var r := Insert(s, x, greater);
    assert s == s[..p] + s[p..];
    forall i, j | 0 <= i < j < |r|
      ensures !greater(r[i], r[j])
    {
      if i == p {
        assert !greater(x, s[p]);
      }
    }
  }

  lemma {:induction false} InsertHolds(s: seq<u64>, x: u64, greater: Greater)
    ensures x in Insert(s, x, greater)
  {
    assert Insert(s, x, greater)[Place(s, x, greater)] == x;
  }

  class OArray {
    const items: array<u64>
    var idx: nat

    ghost predicate Valid()
      reads this
    {
      idx <= items.Length
    }

    ghost function Contents(): seq<u64>
      requires Valid()
      reads this, items
    {
      items[..idx]
    }

    constructor (maxElements: nat)
      ensures Valid() && Contents() == [] && fresh(items) && items.Length == maxElements
    {
      items := new u64[maxElements](_ => 0);
      idx := 0;
    }

    /** Returns 0 when the storage is full. */
    method InsertElement(element: u64, greater: Greater) returns (r: u64)
      requires Valid()
      modifies this`idx, items
      ensures Valid()
      ensures if old(idx) >= items.Length then r == 0 && Contents() == old(Contents())
              else r == element && Contents() == Insert(old(Contents()), element, greater)
    {
      if idx >= items.Length {
        return 0;
      }
      ghost var s := Contents();
      var itr := 0;
      while itr < idx && !greater(items[itr], element)
        invariant itr <= idx
        invariant forall i | 0 <= i < itr :: !greater(items[i], element)
      {
        itr := itr + 1;
      }
      ghost var p := itr;
      PlaceIs(s, element, greater, p);
      if itr == idx {
        items[idx] := element;
      } else {
        Displace(itr, element);
      }
      idx := idx + 1;
      assert Contents() == s[..p] + [element] + s[p..];
      return element;
    }

    /** Puts `element` at position `p` and moves what was there and above one place up. */
    method Displace(p: nat, element: u64)
      requires p < idx < items.Length
      modifies items
      ensures forall i | 0 <= i < p :: items[i] == old(items[i])
      ensures items[p] == element
      ensures forall i | p < i <= idx :: items[i] == old(items[i - 1])
    {
      var itr := p;
      var displaced := items[itr];
      items[itr] := element;
      while itr < idx
        invariant p <= itr <= idx
        invariant forall i | 0 <= i < p :: items[i] == old(items[i])
        invariant items[p] == element
        invariant forall i | p < i <= itr :: items[i] == old(items[i - 1])
        invariant forall i | itr < i < idx :: items[i] == old(items[i])
        invariant itr < idx ==> displaced == old(items[itr])
      {
        itr := itr + 1;
        var tmp := items[itr];
        items[itr] := displaced;
        displaced := tmp;
      }
    }

    /** Shifts the elements above `i` down; with an index beyond them the last element goes. One past the
        last element is read on the way: `behind` is the word found there when the storage is full. The
        32-bit count of an empty array wraps. */
    method RemoveElement(i: nat, behind: u64)
      requires Valid()
      modifies this`idx, items
      ensures old(idx) > 0 ==> Valid()
      ensures i < old(idx) ==> Contents() == old(Contents()[..i] + Contents()[i + 1..])
      ensures i >= old(idx) > 0 ==> Contents() == old(Contents()[..idx - 1])
      ensures old(idx) == 0 ==> idx == 0xFFFF_FFFF && items[..] == old(items[..])
    {
      ghost var s := Contents();
      var k := i;
      while k < idx
        invariant i <= k && (k <= idx || k == i) && idx == |s|
        invariant forall j | 0 <= j < i && j < idx :: items[j] == s[j]
        invariant forall j | i <= j < k && j + 1 < |s| :: items[j] == s[j + 1]
        invariant forall j | k <= j < idx :: items[j] == s[j]
        invariant idx == 0 ==> items[..] == old(items[..])
      {
        items[k] := if k + 1 < items.Length then items[k + 1] else behind;
        k := k + 1;
      }
      idx := if idx > 0 then idx - 1 else 0xFFFF_FFFF;
      assert |s| > 0 ==> Contents() == if i < |s| then s[..i] + s[i + 1..] else s[..|s| - 1];
    }

    /** Only an index beyond `idx` gives 0: at `idx` itself the word past the last element is read, which
        is `behind` when the storage is full. */
    method Get(i: nat, behind: u64) returns (r: u64)
      requires Valid()
      ensures i < idx ==> r == Contents()[i]
      ensures i > idx ==> r == 0
      ensures i == idx ==> r == if idx < items.Length then items[idx] else behind
    {
      if i > idx {
        return 0;
      }
      return if i < items.Length then items[i] else behind;
    }
  }

  lemma {:induction false} PlaceIs(s: seq<u64>, x: u64, greater: Greater, p: nat)
    requires p <= |s| && (p < |s| ==> greater(s[p], x))
    requires forall i | 0 <= i < p :: !greater(s[i], x)
    ensures Place(s, x, greater) == p
  {
  }
}
