/**
 The growing array of patches (has_pow2_count and add_new_patch in src/intercept_desc.c).
 */
module PatchArray {
  import opened Listing

  /** The bitwise and of two numbers. */
  function And(a: nat, b: nat): nat {
    if a == 0 || b == 0 then 0 else 2 * And(a / 2, b / 2) + (if a % 2 == 1 && b % 2 == 1 then 1 else 0)
  }

  function Pow2(k: nat): (p: nat)
    ensures p > 0
  {
    if k == 0 then 1 else 2 * Pow2(k - 1)
  }

  ghost predicate IsPow2(n: nat) {
    exists k: nat :: n == Pow2(k)
  }

  lemma {:induction false} AndSelf(n: nat)
    ensures And(n, n) == n
  {
    if n > 0 {
      AndSelf(n / 2);
    }
  }

  /** The bit trick is exact. */
  lemma {:induction false} HasPow2CountIff(n: nat)
    requires n > 0
    ensures And(n, n - 1) == 0 <==> IsPow2(n)
  {
    if n == 1 {
      assert Pow2(0) == 1;
    } else if n % 2 == 1 {
      AndSelf(n / 2);
    } else {
      HasPow2CountIff(n / 2);
      if IsPow2(n / 2) {
        var k: nat :| n / 2 == Pow2(k);
        assert n == Pow2(k + 1);
      }
      if IsPow2(n) {
        var k: nat :| n == Pow2(k);
        assert n / 2 == Pow2(k - 1);
      }
    }
  }

  /** The array holds `capacity` entries: the least power of two that is not below count, or none. */
  ghost predicate Fitting(count: nat, capacity: nat) {
    if count == 0 then capacity == 0 else IsPow2(capacity) && count <= capacity < 2 * count
  }

  lemma {:induction false} Pow2Grows(j: nat, k: nat)
    requires j < k
    ensures 2 * Pow2(j) <= Pow2(k)
  {
    if j < k - 1 {
      Pow2Grows(j, k - 1);
    }
  }

  /** Between a power of two and its double there is no other. */
  lemma Pow2Gap(m: nat, n: nat)
    requires IsPow2(m) && IsPow2(n) && m < n
    ensures 2 * m <= n
  {
    var j: nat :| m == Pow2(j);
    var k: nat :| n == Pow2(k);
    if k < j {
      Pow2Grows(k, j);
    } else {
      Pow2Grows(j, k);
    }
  }

  /** No smaller power of two holds the entries. */
  lemma FittingIsLeast(count: nat, capacity: nat, other: nat)
    requires count > 0 && Fitting(count, capacity) && IsPow2(other) && count <= other
    ensures capacity <= other
  {
    if other < capacity {
      Pow2Gap(other, capacity);
    }
  }

  /** The array is full exactly when its count is a power of two: then, and only then, it must grow. */
  lemma FullIff(count: nat, capacity: nat)
    requires count > 0 && Fitting(count, capacity)
    ensures count == capacity <==> And(count, count - 1) == 0
  {
    HasPow2CountIff(count);
    if IsPow2(count) && count < capacity {
      Pow2Gap(count, capacity);
    }
  }

  class Items {
    var items: array<Patch>
    var count: nat

    ghost predicate Valid()
      reads this
    {
      Fitting(count, items.Length)
    }

    constructor ()
      ensures Valid() && count == 0 && fresh(items)
    {
      items := new Patch[0];
      count := 0;
    }

    /** The entry acquired is in bounds, and every earlier one survives the move. */
    method AddNewPatch(p: Patch) returns (index: nat)
      requires Valid()
      modifies this, items
      ensures Valid() && count == old(count) + 1 && index == old(count) < items.Length
      ensures items[..count] == old(items[..count]) + [p]
      ensures items == old(items) || fresh(items)
    {
      if count == 0 {
        items := new Patch[1](_ => p);
        assert Pow2(0) == 1;
      } else if And(count, count - 1) == 0 {
        FullIff(count, items.Length);
        var moved := new Patch[2 * count](i requires 0 <= i < 2 * count reads this, items =>
          if i < count && i < items.Length then items[i] else p);
        items := moved;
        Doubled(count);
      } else {
        FullIff(count, items.Length);
      }
      index := count;
      items[index] := p;
      count := count + 1;
    }
  }

  lemma Doubled(n: nat)
    requires IsPow2(n)
    ensures IsPow2(2 * n)
  {
    var k: nat :| n == Pow2(k);
    assert 2 * n == Pow2(k + 1);
  }
}
