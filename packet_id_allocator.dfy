/** `PacketIdAllocator`: hands out packet identifiers 1..65535 from a rotating cursor. */
module PacketIds {
  import opened Wire

  /** `increment()`: a wrapping 16-bit add, then 0 is skipped, so 65535 is followed by 1. */
  function Successor(id: uint16): (r: uint16)
    ensures r != 0
    ensures id < 65535 ==> r == id + 1
    ensures id == 65535 ==> r == 1
  {
    var n := (id + 1) % 0x1_0000;
    if n == 0 then 1 else n
  }

  /** The cursor after `k` increments from `start`. */
  function Walk(start: uint16, k: nat): uint16
  {
    if k == 0 then start else Successor(Walk(start, k - 1))
  }

  /** How many increments take the cursor from `x` to `target`, both in 1..65535. */
  function Distance(x: uint16, target: uint16): (d: nat)
    requires x != 0 && target != 0
    ensures d < 65535
  {
    (target - x + 65535) % 65535
  }

  /** Each increment from anywhere but the target brings the cursor one step closer. */
  lemma SuccessorCloser(x: uint16, target: uint16)
    requires x != 0 && target != 0 && x != target
    ensures Distance(Successor(x), target) == Distance(x, target) - 1
  {
    if x == 65535 {
      assert Distance(x, target) == target;
    } else if target > x {
      assert Distance(x, target) == target - x;
    } else {
      assert Distance(x, target) == target - x + 65535;
    }
  }

  /** The identifiers 1..n. */
  function Range(n: nat): set<int>
  {
    if n == 0 then {} else Range(n - 1) + {n}
  }

  lemma {:induction false} RangeSize(n: nat)
    ensures |Range(n)| == n
    ensures forall x :: x in Range(n) <==> 1 <= x <= n
  {
    if n > 0 {
      RangeSize(n - 1);
      assert n !in Range(n - 1);
    }
  }

  /** Pigeonhole: fewer than 65535 identifiers in use leaves one of 1..65535 free. */
  lemma SomeIdFree(allocatedIds: set<uint16>) returns (f: uint16)
    requires 0 !in allocatedIds && |allocatedIds| < 65535
    ensures f != 0 && f !in allocatedIds
  {
    if forall x: uint16 :: 1 <= x ==> x in allocatedIds {
      var all: set<int> := allocatedIds;
      RangeSize(65535);
      assert Range(65535) <= all;
      SubsetSize(Range(65535), all);
      assert false;
    }
    var x: uint16 :| 1 <= x && x !in allocatedIds;
    f := x;
  }

  /**
   * The loop of `next()` as written: with all 65535 identifiers in use, every
   * cursor the increments reach is allocated, so the search never stops.
   */
  lemma FullTableNeverFree(allocatedIds: set<uint16>, start: uint16, k: nat)
    requires 0 !in allocatedIds && |allocatedIds| == 65535 && start != 0
    ensures Walk(start, k) in allocatedIds
  {
    FullTable(allocatedIds, Walk(start, k));
  }

  /** Pigeonhole: 65535 identifiers, none of them 0, take every one of 1..65535. */
  lemma FullTable(allocatedIds: set<uint16>, x: uint16)
    requires 0 !in allocatedIds && |allocatedIds| == 65535 && x != 0
    ensures x in allocatedIds
  {
    if x !in allocatedIds {
      var all: set<int> := allocatedIds;
      MissingOneOfRange(all, 65535, x as int);
      assert false;
    }
  }

  /** A set of numbers in 1..n that misses one of them has fewer than n elements. */
  lemma MissingOneOfRange(s: set<int>, n: nat, x: int)
    requires forall y :: y in s ==> 1 <= y <= n
    requires 1 <= x <= n && x !in s
    ensures |s| < n
  {
    RangeSize(n);
    forall y | y in s
      ensures y in Range(n) - {x}
    {
    }
    SubsetSize(s, Range(n) - {x});
  }

  lemma SubsetSize(a: set<int>, b: set<int>)
    requires a <= b
    ensures |a| <= |b|
  {
    assert b == a + (b - a);
  }

  class PacketIdAllocator {
    /** The next identifier to try. */
    var free: uint16
    /** The identifiers in use (`allocated` in the original; the word is reserved in Dafny). */
    var allocatedIds: set<uint16>

    /** The cursor never rests on 0, and 0 is never handed out. */
    predicate Valid()
      reads this
    {
      free != 0 && 0 !in allocatedIds
    }

    constructor()
      ensures Valid() && free == 1 && allocatedIds == {}
    {
      free := 1;
      allocatedIds := {};
    }

    method Increment()
      modifies this
      ensures free == Successor(old(free)) && allocatedIds == old(allocatedIds)
    {
      free := (free + 1) % 0x1_0000;
      if free == 0 {
        free := 1;
      }
    }

    /**
     * `next()`: the first identifier at or after the cursor that is not in use,
     * going round from 65535 to 1, with at least one identifier still free.
     */
    method Next() returns (id: uint16, ghost skipped: nat)
      requires Valid() && |allocatedIds| < 65535
      modifies this
      ensures Valid()
      ensures id != 0 && id !in old(allocatedIds)
      ensures allocatedIds == old(allocatedIds) + {id}
      ensures id == Walk(old(free), skipped)
      ensures forall k :: 0 <= k < skipped ==> Walk(old(free), k) in old(allocatedIds)
      ensures free == Successor(id)
    {
      ghost var target := SomeIdFree(allocatedIds);
      skipped := 0;
      while free in allocatedIds
        invariant Valid() && allocatedIds == old(allocatedIds)
        invariant free == Walk(old(free), skipped)
        invariant forall k :: 0 <= k < skipped ==> Walk(old(free), k) in old(allocatedIds)
        decreases Distance(free, target)
      {
        SuccessorCloser(free, target);
        Increment();
        skipped := skipped + 1;
      }
      id := free;
      allocatedIds := allocatedIds + {id};
      Increment();
    }

    /** `release(id:)`: the identifier may be handed out again; releasing a free one changes nothing. */
    method Release(id: uint16)
      modifies this
      ensures allocatedIds == old(allocatedIds) - {id} && free == old(free)
      ensures id !in old(allocatedIds) ==> allocatedIds == old(allocatedIds)
    {
      allocatedIds := allocatedIds - {id};
    }
  }

  /** A fresh allocator hands out 1, then 2: identifiers in use are never handed out twice. */
  method FreshAllocatorCountsUp() returns (first: uint16, second: uint16)
    ensures first == 1 && second == 2
  {
    var a := new PacketIdAllocator();
    ghost var skipped;
    first, skipped := a.Next();
    assert skipped == 0;
    assert a.free == 2 && a.allocatedIds == {1};
    second, skipped := a.Next();
    assert skipped != 0 ==> Walk(2, 0) in {1};
  }

  /** Two successive identifiers without a release in between are distinct. */
  method TwoInARow(a: PacketIdAllocator) returns (x: uint16, y: uint16)
    requires a.Valid() && |a.allocatedIds| < 65534
    modifies a
    ensures x != y && x !in old(a.allocatedIds) && y !in old(a.allocatedIds)
    ensures a.allocatedIds == old(a.allocatedIds) + {x, y}
  {
    ghost var skipped;
    x, skipped := a.Next();
    y, skipped := a.Next();
  }
}
