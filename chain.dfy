/** The directory chain as a path of sector numbers. getFileList has no cycle
    guard, so its loop may never end; since every sector the chain moves to
    has a number below 0xFF, 255 passes always decide whether it ends. */
module Chain {
  import opened Image
  import opened Walker

  /** Continuing chain sectors are 0x00..0xFE: 255 values. */
  const MaxChainLength: nat := 0xFF

  /** The chain of the sector with number s has ended there. */
  predicate EndsAt(disk: seq<byte>, s: nat)
    requires ChainReach <= |disk| && s < MaxChainLength
  {
    !Continues(disk[SectorStart(s)], disk[SectorStart(s) + 1])
  }

  /** One pass of the outer loop on the sector number: follow the chain
      sector, or stay put once the chain has ended. */
  function Step(disk: seq<byte>, s: nat): (r: nat)
    requires ChainReach <= |disk| && s < MaxChainLength
    ensures r < MaxChainLength
    ensures !EndsAt(disk, s) ==> r == disk[SectorStart(s) + 1]
    ensures EndsAt(disk, s) ==> r == s
  {
    if EndsAt(disk, s) then s else disk[SectorStart(s) + 1]
  }

  /** The sector number after i passes from sector s. */
  function PathAt(disk: seq<byte>, s: nat, i: nat): (r: nat)
    requires ChainReach <= |disk| && s < MaxChainLength
    ensures r < MaxChainLength
  {
    if i == 0 then s else Step(disk, PathAt(disk, s, i - 1))
  }

  /** The path from a sector that continues is the path from its successor,
      one pass later. */
  lemma {:induction false} PathFront(disk: seq<byte>, s: nat, i: nat)
    requires ChainReach <= |disk| && s < MaxChainLength && !EndsAt(disk, s)
    ensures PathAt(disk, s, i + 1) == PathAt(disk, Step(disk, s), i)
  {
    if i > 0 {
      PathFront(disk, s, i - 1);
    }
  }

  /** Two passes that reach the same sector go on alike. */
  lemma {:induction false} PathShift(disk: seq<byte>, s: nat, i: nat, j: nat, t: nat)
    requires ChainReach <= |disk| && s < MaxChainLength
    ensures PathAt(disk, s, i) == PathAt(disk, s, j) ==> PathAt(disk, s, i + t) == PathAt(disk, s, j + t)
  {
    if t > 0 {
      PathShift(disk, s, i, j, t - 1);
    }
  }

  /** A finished walk has scanned its first sector, and if the chain goes on
      from there, the rest of the walk finished as well. */
  lemma FinishedStep(disk: seq<byte>, s: nat, fuel: nat)
    requires ChainReach <= |disk| && s < MaxChainLength
    requires WalkFrom(disk, SectorStart(s), fuel).Finished?
    ensures fuel > 0
    ensures !EndsAt(disk, s) ==> WalkFrom(disk, SectorStart(Step(disk, s)), fuel - 1).Finished?
  {
    WalkStep(disk, SectorStart(s), fuel);
  }

  /** A walk with passes left finishes when the chain ends at its first
      sector or the walk from the next sector finishes. */
  lemma FinishesStep(disk: seq<byte>, s: nat, fuel: nat)
    requires ChainReach <= |disk| && s < MaxChainLength && fuel > 0
    requires EndsAt(disk, s) || WalkFrom(disk, SectorStart(Step(disk, s)), fuel - 1).Finished?
    ensures WalkFrom(disk, SectorStart(s), fuel).Finished?
  {
    WalkStep(disk, SectorStart(s), fuel);
  }

  /** The sectors before a first end, seen from one sector further back. */
  lemma ContinuesBefore(disk: seq<byte>, s: nat, k: nat)
    requires ChainReach <= |disk| && s < MaxChainLength && !EndsAt(disk, s)
    requires forall i :: 0 <= i < k ==> !EndsAt(disk, PathAt(disk, Step(disk, s), i))
    ensures forall i :: 0 <= i < k + 1 ==> !EndsAt(disk, PathAt(disk, s, i))
  {
    forall i | 0 < i < k + 1
      ensures !EndsAt(disk, PathAt(disk, s, i))
    {
      PathFront(disk, s, i - 1);
    }
  }

  /** A walk that finishes within `fuel` sectors has a first sector, within
      them, where the chain ends. */
  lemma {:induction false} FinishedHasEnd(disk: seq<byte>, s: nat, fuel: nat) returns (k: nat)
    requires ChainReach <= |disk| && s < MaxChainLength
    requires WalkFrom(disk, SectorStart(s), fuel).Finished?
    ensures k < fuel && EndsAt(disk, PathAt(disk, s, k))
    ensures forall i :: 0 <= i < k ==> !EndsAt(disk, PathAt(disk, s, i))
    decreases fuel
  {
    FinishedStep(disk, s, fuel);
    if EndsAt(disk, s) {
      k := 0;
    } else {
      var k' := FinishedHasEnd(disk, Step(disk, s), fuel - 1);
      PathFront(disk, s, k');
      ContinuesBefore(disk, s, k');
      k := k' + 1;
    }
  }

  /** A chain that ends at pass k < fuel gives a walk that finishes. */
  lemma {:induction false} EndFinishes(disk: seq<byte>, s: nat, k: nat, fuel: nat)
    requires ChainReach <= |disk| && s < MaxChainLength
    requires k < fuel && EndsAt(disk, PathAt(disk, s, k))
    ensures WalkFrom(disk, SectorStart(s), fuel).Finished?
    decreases k
  {
    if !EndsAt(disk, s) {
      PathFront(disk, s, k - 1);
      EndFinishes(disk, Step(disk, s), k - 1, fuel - 1);
    }
    FinishesStep(disk, s, fuel);
  }

  /** Before the chain ends, no sector is visited twice. */
  lemma FirstEndDistinct(disk: seq<byte>, s: nat, k: nat)
    requires ChainReach <= |disk| && s < MaxChainLength
    requires EndsAt(disk, PathAt(disk, s, k))
    requires forall i :: 0 <= i < k ==> !EndsAt(disk, PathAt(disk, s, i))
    ensures forall i, j :: 0 <= i < j <= k ==> PathAt(disk, s, i) != PathAt(disk, s, j)
  {
    forall i, j | 0 <= i < j <= k
      ensures PathAt(disk, s, i) != PathAt(disk, s, j)
    {
      PathShift(disk, s, i, j, k - j);
    }
  }

  /** The chain ends within 255 passes if it ends at all. */
  lemma FirstEndBelow(disk: seq<byte>, s: nat, k: nat)
    requires ChainReach <= |disk| && s < MaxChainLength
    requires EndsAt(disk, PathAt(disk, s, k))
    requires forall i :: 0 <= i < k ==> !EndsAt(disk, PathAt(disk, s, i))
    ensures k < MaxChainLength
  {
    FirstEndDistinct(disk, s, k);
    var visited := seq(k + 1, i requires 0 <= i <= k => PathAt(disk, s, i));
    DistinctBelow(visited, MaxChainLength);
  }

  /** 255 passes decide getFileList: if the walk finishes with any fuel, it
      finishes with 255 passes and gives the same files. */
  lemma WalkDecidedWithin(disk: seq<byte>, fuel: nat)
    requires ChainReach <= |disk|
    ensures Walk(disk, fuel).Finished? ==> Walk(disk, MaxChainLength) == Walk(disk, fuel)
  {
    if Walk(disk, fuel).Finished? {
      assert DirectoryStart == SectorStart(1);
      var k := FinishedHasEnd(disk, 1, fuel);
      FirstEndBelow(disk, 1, k);
      EndFinishes(disk, 1, k, MaxChainLength);
      if fuel <= MaxChainLength {
        WalkFuelMonotone(disk, DirectoryStart, fuel, MaxChainLength);
      } else {
        WalkFuelMonotone(disk, DirectoryStart, MaxChainLength, fuel);
      }
    }
  }

  /** A walk still going after 255 passes is a cycle: the source's loop never
      ends, whatever the bound. */
  lemma EndlessBeyond(disk: seq<byte>, fuel: nat)
    requires ChainReach <= |disk| && Walk(disk, MaxChainLength).OutOfFuel?
    ensures Walk(disk, fuel).OutOfFuel?
  {
    WalkDecidedWithin(disk, fuel);
  }

  // ---------------------------------------------------------------------
  // Counting: a sequence of distinct numbers below n has at most n elements

  predicate Distinct(xs: seq<nat>) {
    forall i, j :: 0 <= i < j < |xs| ==> xs[i] != xs[j]
  }

  function Below(n: nat): (r: set<nat>)
    ensures forall x: nat :: x in r <==> x < n
  {
    if n == 0 then {} else Below(n - 1) + {n - 1}
  }

  /** The set of the elements of xs. */
  function Elements(xs: seq<nat>): (r: set<nat>)
    ensures forall x :: x in r <==> x in xs
  {
    if xs == [] then {} else Elements(xs[..|xs| - 1]) + {xs[|xs| - 1]}
  }

  lemma {:induction false} BelowCount(n: nat)
    ensures |Below(n)| == n
  {
    if n > 0 {
      BelowCount(n - 1);
    }
  }

  lemma {:induction false} SubsetCount(a: set<nat>, b: set<nat>)
    requires a <= b
    ensures |a| <= |b|
    decreases |a|
  {
    if a != {} {
      var x :| x in a;
      SubsetCount(a - {x}, b - {x});
    }
  }

  lemma {:induction false} DistinctCount(xs: seq<nat>)
    requires Distinct(xs)
    ensures |Elements(xs)| == |xs|
  {
    if xs != [] {
      var init := xs[..|xs| - 1];
      assert Distinct(init);
      DistinctCount(init);
      assert xs[|xs| - 1] !in init;
    }
  }

  lemma DistinctBelow(xs: seq<nat>, n: nat)
    requires Distinct(xs) && forall i :: 0 <= i < |xs| ==> xs[i] < n
    ensures |xs| <= n
  {
    DistinctCount(xs);
    SubsetCount(Elements(xs), Below(n));
    BelowCount(n);
  }
}
