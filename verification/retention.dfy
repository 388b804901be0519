/** The retention ladder of ami-create/main.py:119-131. For a history of
    `n` images sorted newest first, with `k = COPIES_TO_KEEP - 1`, the
    source keeps the ranks in `list(range(k)) + list(range(k, n, 7))`
    and deregisters every other rank. Nothing checks `COPIES_TO_KEEP`:
    zero or a negative count is simply handed to `range`. */
module Retention {
  import Arith

  /** The thinning stride of the ladder beyond the recent window. */
  const Stride := 7

  /** `COPIES_TO_KEEP` when `AMI_RETENTION_COUNT` is not set. */
  const DefaultCopiesToKeep := 10

  /** Python's `range(lo, hi)`. */
  function Range(lo: int, hi: int): (r: seq<int>)
    ensures forall x :: x in r <==> lo <= x < hi
    decreases hi - lo
  {
    if lo >= hi then [] else [lo] + Range(lo + 1, hi)
  }

  /** Python's `range(start, stop, 7)`. */
  function StrideRange(start: int, stop: int): (r: seq<int>)
    ensures forall x :: x in r <==> start <= x < stop && (x - start) % Stride == 0
    decreases stop - start
  {
    if start >= stop then []
    else
      [start] + StrideRange(start + Stride, stop)
  }

  /** `indices_to_keep` for a history of `n` images. */
  function Ladder(copiesToKeep: int, n: nat): seq<int>
  {
    var k := copiesToKeep - 1;
    Range(0, k) + StrideRange(k, n)
  }

  /** The ladder rule stated directly on a rank: the newest `k` ranks, then
      every seventh rank counted from `k`. */
  predicate Kept(k: int, i: int)
  {
    i < k || (i >= k && (i - k) % Stride == 0)
  }

  /** A rank of the history is in `indices_to_keep` exactly when the ladder rule keeps it. */
  lemma LadderMembership(copiesToKeep: int, n: nat, i: int)
    requires 0 <= i < n
    ensures i in Ladder(copiesToKeep, n) <==> Kept(copiesToKeep - 1, i)
  {
  }

  /** The ranks below `n`, in increasing order, whose membership in `keep`
      is `want`: the `enumerate` loop at line 122 visits ranks in this order. */
  function Ranks(n: nat, keep: seq<int>, want: bool): seq<nat>
  {
    if n == 0 then []
    else Ranks(n - 1, keep, want) + (if ((n - 1) in keep) == want then [n - 1] else [])
  }

  /** The ranks listed are exactly the ranks below `n` whose membership is `want`. */
  lemma {:induction false} RanksMembers(n: nat, keep: seq<int>, want: bool)
    ensures forall i :: i in Ranks(n, keep, want) <==> 0 <= i < n && (i in keep) == want
  {
    if n > 0 {
      RanksMembers(n - 1, keep, want);
    }
  }

  /** Strictly increasing. */
  predicate Increasing(a: seq<int>)
  {
    forall x, y :: 0 <= x < y < |a| ==> a[x] < a[y]
  }

  /** The ranks are listed in strictly increasing order. */
  lemma {:induction false} RanksIncreasing(n: nat, keep: seq<int>, want: bool)
    ensures Increasing(Ranks(n, keep, want))
  {
    if n > 0 {
      var lower := Ranks(n - 1, keep, want);
      RanksIncreasing(n - 1, keep, want);
      RanksMembers(n - 1, keep, want);
      assert forall a :: 0 <= a < |lower| ==> lower[a] in lower;
    }
  }

  /** The ranks that are kept. */
  function Retained(copiesToKeep: int, n: nat): seq<nat>
  {
    Ranks(n, Ladder(copiesToKeep, n), true)
  }

  /** The ranks that are deregistered. */
  function Deregistered(copiesToKeep: int, n: nat): seq<nat>
  {
    Ranks(n, Ladder(copiesToKeep, n), false)
  }

  /** A rank is retained exactly when it is below `n` and the ladder rule keeps it. */
  lemma RetainedMember(copiesToKeep: int, n: nat, i: int)
    ensures i in Retained(copiesToKeep, n) <==> 0 <= i < n && Kept(copiesToKeep - 1, i)
  {
    RanksMembers(n, Ladder(copiesToKeep, n), true);
    if 0 <= i < n {
      LadderMembership(copiesToKeep, n, i);
    }
  }

  /** Kept and deregistered ranks between them count every rank once. */
  lemma {:induction false} RanksSplit(n: nat, keep: seq<int>)
    ensures |Ranks(n, keep, true)| + |Ranks(n, keep, false)| == n
  {
    if n > 0 {
      RanksSplit(n - 1, keep);
    }
  }

  /** The ladder splits the ranks `0 .. n-1` into two disjoint parts that
      together hold every rank exactly once, and a rank is retained
      exactly when the ladder rule keeps it. */
  lemma RetentionPartition(copiesToKeep: int, n: nat)
    ensures forall i :: 0 <= i < n ==> (i in Retained(copiesToKeep, n) <==> i !in Deregistered(copiesToKeep, n))
    ensures forall i :: i in Retained(copiesToKeep, n) <==> 0 <= i < n && Kept(copiesToKeep - 1, i)
    ensures forall i :: i in Deregistered(copiesToKeep, n) <==> 0 <= i < n && !Kept(copiesToKeep - 1, i)
    ensures |Retained(copiesToKeep, n)| + |Deregistered(copiesToKeep, n)| == n
  {
    forall i | 0 <= i < n {
      LadderMembership(copiesToKeep, n, i);
    }
    RanksMembers(n, Ladder(copiesToKeep, n), true);
    RanksMembers(n, Ladder(copiesToKeep, n), false);
    RanksSplit(n, Ladder(copiesToKeep, n));
  }

  /** A history no longer than `COPIES_TO_KEEP` loses nothing. */
  lemma NothingDeregisteredWhenFew(copiesToKeep: int, n: nat)
    requires copiesToKeep >= 1 && n <= copiesToKeep
    ensures Deregistered(copiesToKeep, n) == []
    ensures Retained(copiesToKeep, n) == Range(0, n)
  {
    var r := Retained(copiesToKeep, n);
    RetentionPartition(copiesToKeep, n);
    assert forall i :: i in r <==> i in Range(0, n) by {
      forall i ensures i in r <==> i in Range(0, n) {
        if 0 <= i < n {
          assert Kept(copiesToKeep - 1, i);
        }
      }
    }
    RanksIncreasing(n, Ladder(copiesToKeep, n), true);
    RangeIncreasing(0, n);
    IncreasingUnique(r, Range(0, n));
    assert |Deregistered(copiesToKeep, n)| == 0;
  }

  /** `Range(0, n)` is increasing. */
  lemma {:induction false} RangeIncreasing(lo: int, hi: int)
    ensures Increasing(Range(lo, hi))
    ensures lo <= hi ==> |Range(lo, hi)| == hi - lo
    decreases hi - lo
  {
    if lo < hi {
      RangeIncreasing(lo + 1, hi);
      var r := Range(lo, hi);
      assert forall a :: 0 < a < |r| ==> r[a] == Range(lo + 1, hi)[a - 1] && r[a] in Range(lo + 1, hi);
    }
  }

  /** The head of a strictly increasing sequence is its least element. */
  lemma HeadIsLeast(a: seq<int>, v: int)
    requires Increasing(a) && v in a
    ensures a[0] <= v
  {
    var k :| 0 <= k < |a| && a[k] == v;
    if k > 0 {
      assert a[0] < a[k];
    }
  }

  /** Two strictly increasing sequences with the same elements start alike. */
  lemma IncreasingHeads(a: seq<int>, b: seq<int>)
    requires Increasing(a) && Increasing(b) && (|a| > 0 || |b| > 0)
    requires forall v :: v in a <==> v in b
    ensures |a| > 0 && |b| > 0 && a[0] == b[0]
  {
    var w := if |a| > 0 then a[0] else b[0];
    assert w in a && w in b;
    assert a[0] in a && b[0] in b;
    HeadIsLeast(a, b[0]);
    HeadIsLeast(b, a[0]);
  }

  /** Dropping equal heads keeps the elements equal. */
  lemma IncreasingTails(a: seq<int>, b: seq<int>)
    requires Increasing(a) && Increasing(b) && |a| > 0 && |b| > 0 && a[0] == b[0]
    requires forall v :: v in a <==> v in b
    ensures Increasing(a[1..]) && Increasing(b[1..])
    ensures forall v :: v in a[1..] <==> v in b[1..]
  {
    forall v ensures v in a[1..] <==> v in b[1..] {
      if v in a[1..] {
        var k :| 1 <= k < |a| && a[k] == v;
        assert a[0] < v;
      }
      if v in b[1..] {
        var k :| 1 <= k < |b| && b[k] == v;
        assert b[0] < v;
      }
      assert v in a <==> v == a[0] || v in a[1..];
      assert v in b <==> v == b[0] || v in b[1..];
    }
  }

  /** Two strictly increasing sequences with the same elements are equal. */
  lemma {:induction false} IncreasingUnique(a: seq<int>, b: seq<int>)
    requires Increasing(a) && Increasing(b)
    requires forall v :: v in a <==> v in b
    ensures a == b
  {
    if |a| > 0 || |b| > 0 {
      IncreasingHeads(a, b);
      IncreasingTails(a, b);
      IncreasingUnique(a[1..], b[1..]);
      assert a == [a[0]] + a[1..] && b == [b[0]] + b[1..];
    }
  }

  /** Ranks depend only on which ranks below `n` the keep list names. */
  lemma {:induction false} RanksAgree(n: nat, keep1: seq<int>, keep2: seq<int>, want: bool)
    requires forall i :: 0 <= i < n ==> (i in keep1 <==> i in keep2)
    ensures Ranks(n, keep1, want) == Ranks(n, keep2, want)
  {
    if n > 0 {
      RanksAgree(n - 1, keep1, keep2, want);
    }
  }

  /** Growing the history by one rank adds that rank to the retained
      ranks exactly when the ladder rule keeps it. */
  lemma RetainedStep(copiesToKeep: int, n: nat)
    ensures Retained(copiesToKeep, n + 1)
      == Retained(copiesToKeep, n) + (if Kept(copiesToKeep - 1, n) then [n] else [])
  {
    forall i | 0 <= i < n
      ensures i in Ladder(copiesToKeep, n + 1) <==> i in Ladder(copiesToKeep, n)
    {
      LadderMembership(copiesToKeep, n + 1, i);
      LadderMembership(copiesToKeep, n, i);
    }
    LadderMembership(copiesToKeep, n + 1, n);
    RanksAgree(n, Ladder(copiesToKeep, n + 1), Ladder(copiesToKeep, n), true);
  }

  /** How many images survive: the newest `k` plus one in seven of the
      rest, rounded up. */
  lemma {:induction false} RetainedCount(copiesToKeep: int, n: nat)
    requires 1 <= copiesToKeep <= n + 1
    ensures |Retained(copiesToKeep, n)| == (copiesToKeep - 1) + (n - copiesToKeep + 7) / Stride
  {
    var k := copiesToKeep - 1;
    if n == k {
      NothingDeregisteredWhenFew(copiesToKeep, n);
      RangeIncreasing(0, n);
    } else {
      RetainedCount(copiesToKeep, n - 1);
      RetainedGrows(copiesToKeep, n - 1);
      CountStep(n - 1 - k);
    }
  }

  /** Past the window, one more rank adds one retained rank exactly when
      it lies on the stride. */
  lemma RetainedGrows(copiesToKeep: int, n: nat)
    requires n >= copiesToKeep - 1
    ensures |Retained(copiesToKeep, n + 1)|
      == |Retained(copiesToKeep, n)| + (if (n - (copiesToKeep - 1)) % Stride == 0 then 1 else 0)
  {
    RetainedStep(copiesToKeep, n);
  }

  /** One more rank past the window adds one kept rank in seven. */
  lemma CountStep(m: int)
    ensures (m + 7) / Stride == (m + 6) / Stride + (if m % Stride == 0 then 1 else 0)
  {
    Arith.DivStep(m + 7, Stride);
    assert (m + 7) % Stride == m % Stride;
  }

  /** Under the default count the ranks below twenty that the ladder rule
      keeps are 0 to 9 and 16. */
  lemma DefaultRuleBelowTwenty(i: int)
    ensures (0 <= i < 20 && Kept(DefaultCopiesToKeep - 1, i)) <==> (0 <= i <= 9 || i == 16)
  {
  }

  /** With the default `COPIES_TO_KEEP` of 10 and twenty images, ranks
      0 to 9 and 16 are kept and the other nine are deregistered. */
  lemma DefaultLadderOnTwenty()
    ensures forall i :: i in Retained(DefaultCopiesToKeep, 20) <==> 0 <= i <= 9 || i == 16
    ensures |Retained(DefaultCopiesToKeep, 20)| == 11
    ensures |Deregistered(DefaultCopiesToKeep, 20)| == 9
  {
    DefaultLadderMembers();
    DefaultRetainedCount();
    DefaultDeregisteredCount();
  }

  lemma DefaultRetainedCount()
    ensures |Retained(DefaultCopiesToKeep, 20)| == 11
  {
    RetainedCount(DefaultCopiesToKeep, 20);
  }

  lemma DefaultDeregisteredCount()
    ensures |Deregistered(DefaultCopiesToKeep, 20)| == 9
  {
    DefaultRetainedCount();
    RanksSplit(20, Ladder(DefaultCopiesToKeep, 20));
  }

  lemma DefaultLadderMembers()
    ensures forall i :: i in Retained(DefaultCopiesToKeep, 20) <==> 0 <= i <= 9 || i == 16
  {
    forall i ensures i in Retained(DefaultCopiesToKeep, 20) <==> 0 <= i <= 9 || i == 16 {
      RetainedMember(DefaultCopiesToKeep, 20, i);
      DefaultRuleBelowTwenty(i);
    }
  }
}
