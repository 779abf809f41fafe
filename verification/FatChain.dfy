/** Cluster chains in a file allocation table: how fat32_write_file grows one, takes it back when
    the volume is full, and what that leaves of every other chain. */
module FatChain {
  import opened Words
  import opened FatTable

  const LAST := 0xFFF_FFF8

  function Next(fat: seq<u32>, c: nat): u32
    requires c < |fat|
  {
    fat[c] % TOP4
  }

  /** The first free cluster from i on, or the length of the table. */
  function FirstFree(fat: seq<u32>, i: nat): (c: nat)
    requires i <= |fat|
    ensures i <= c <= |fat|
    ensures c < |fat| ==> Next(fat, c) == 0
    ensures forall k :: i <= k < c ==> Next(fat, k) != 0
    decreases |fat| - i
  {
    if i == |fat| || Next(fat, i) == 0 then i else FirstFree(fat, i + 1)
  }

  /** cs is the chain that starts at cs[0]. */
  ghost predicate Chain(fat: seq<u32>, cs: seq<nat>) {
    |cs| > 0 && forall i :: 0 <= i < |cs| ==> Link(fat, cs, i)
  }

  predicate Link(fat: seq<u32>, cs: seq<nat>, i: nat)
    requires i < |cs|
  {
    2 <= cs[i] < |fat| && if i + 1 < |cs| then Next(fat, cs[i]) == cs[i + 1] else Next(fat, cs[i]) >= LAST
  }

  ghost predicate Distinct(cs: seq<nat>) {
    forall i, j :: 0 <= i < j < |cs| ==> cs[i] != cs[j]
  }

  /** A chain never comes back to a cluster. */
  lemma ChainDistinct(fat: seq<u32>, cs: seq<nat>)
    requires Chain(fat, cs) && |fat| <= LAST
    ensures Distinct(cs)
  {
    forall i, j | 0 <= i < j < |cs| ensures cs[i] != cs[j] {
      NoReturn(fat, cs, i, j);
    }
  }

  lemma {:induction false} NoReturn(fat: seq<u32>, cs: seq<nat>, i: nat, j: nat)
    requires Chain(fat, cs) && |fat| <= LAST && i < j < |cs|
    ensures cs[i] != cs[j]
    decreases |cs| - j
  {
    assert Link(fat, cs, i) && Link(fat, cs, j) && Link(fat, cs, i + 1);
    if j + 1 < |cs| {
      NoReturn(fat, cs, i + 1, j + 1);
    }
  }

  // ---------------------------------------------------------------- growing

  /** The entry cluster cs[i] has once the chain is built on top of what was there. */
  function Linked(fat0: seq<u32>, cs: seq<nat>, i: nat): u32
    requires i < |cs| && cs[i] < |fat0| <= LAST && (i + 1 < |cs| ==> cs[i + 1] < |fat0|)
  {
    Merged(fat0[cs[i]], if i + 1 < |cs| then cs[i + 1] else EOC)
  }

  ghost predicate AllFree(fat0: seq<u32>, cs: seq<nat>) {
    forall i :: 0 <= i < |cs| ==> 2 <= cs[i] < |fat0| && Next(fat0, cs[i]) == 0
  }

  /** fat is fat0 with the clusters of cs from k on linked; the rest is as it was. */
  ghost predicate Grown(fat0: seq<u32>, fat: seq<u32>, cs: seq<nat>, k: nat)
    requires k <= |cs|
  {
    && |fat| == |fat0| <= LAST && Distinct(cs) && AllFree(fat0, cs)
    && (forall c :: 0 <= c < |fat0| && c !in cs[k..] ==> fat[c] == fat0[c])
    && forall i :: k <= i < |cs| ==> fat[cs[i]] == Linked(fat0, cs, i)
  }

  lemma MergedTwice(x: u32, a: u32, b: u32)
    ensures Merged(Merged(x, a), b) == Merged(x, b)
  {
    hide And, Or;
    SameParts(Merged(Merged(x, a), b), Merged(x, b));
    hide Merged;
  }

  lemma SameParts(x: u32, y: u32)
    requires x % TOP4 == y % TOP4 && x / TOP4 == y / TOP4
    ensures x == y
  {}

  lemma MergedZero(x: u32)
    requires x % TOP4 == 0
    ensures Merged(x, 0) == x
  {
    hide And, Or;
    SameParts(Merged(x, 0), x);
    hide Merged;
  }

  lemma GrownStart(fat0: seq<u32>)
    requires |fat0| <= LAST
    ensures Grown(fat0, fat0, [], 0)
  {}

  /** A linked cluster is not free. */
  lemma LinkedBusy(fat0: seq<u32>, fat: seq<u32>, cs: seq<nat>, k: nat, i: nat)
    requires k <= i < |cs| && Grown(fat0, fat, cs, k)
    ensures Next(fat, cs[i]) == if i + 1 < |cs| then cs[i + 1] else EOC
    ensures Next(fat, cs[i]) >= 2
  {
    hide Merged, Grown;
    LinkedAt(fat0, fat, cs, k, i);
    var v := if i + 1 < |cs| then cs[i + 1] else EOC;
    MergedLow(fat0[cs[i]], v);
  }

  lemma MergedLow(x: u32, v: u32)
    requires v < TOP4
    ensures Merged(x, v) % TOP4 == v
  {
    hide And, Or;
    assert v % TOP4 == v;
    hide Merged;
  }

  lemma LinkedAt(fat0: seq<u32>, fat: seq<u32>, cs: seq<nat>, k: nat, i: nat)
    requires k <= i < |cs| && Grown(fat0, fat, cs, k)
    ensures |fat| == |fat0| <= LAST && 2 <= cs[i] < |fat0| && (i + 1 < |cs| ==> 2 <= cs[i + 1] < |fat0|)
    ensures fat[cs[i]] == Linked(fat0, cs, i) && Next(fat0, cs[i]) == 0
  {
    hide Merged;
  }

  /** One round of the allocation loop: cl is marked as the end, then linked from the last cluster. */
  function Extended(fat: seq<u32>, cs: seq<nat>, cl: u32): (r: seq<u32>)
    requires cl < |fat| && (|cs| > 0 ==> cs[|cs| - 1] < |fat|)
    ensures |r| == |fat|
  {
    var fat1 := SetEntry(fat, cl, EOC);
    if |cs| == 0 then fat1 else SetEntry(fat1, cs[|cs| - 1], cl)
  }

  lemma GrownStep(fat0: seq<u32>, fat: seq<u32>, cs: seq<nat>, cl: u32)
    requires Grown(fat0, fat, cs, 0) && 2 <= cl < |fat| && Next(fat, cl) == 0
    ensures Grown(fat0, Extended(fat, cs, cl), cs + [cl], 0)
  {
    var ds := cs + [cl];
    FreeStep(fat0, fat, cs, cl);
    OthersStep(fat0, fat, cs, cl);
    LastOf(fat0, fat, cs);
    var fat2 := Extended(fat, cs, cl);
    assert ds[0..] == ds;
    forall i | 0 <= i < |ds| ensures fat2[ds[i]] == Linked(fat0, ds, i) {
      GrownStepAt(fat0, fat, cs, cl, i);
    }
    hide Linked, Extended, Distinct, AllFree, Next;
  }

  lemma FreeStep(fat0: seq<u32>, fat: seq<u32>, cs: seq<nat>, cl: u32)
    requires Grown(fat0, fat, cs, 0) && 2 <= cl < |fat| && Next(fat, cl) == 0
    ensures Distinct(cs + [cl]) && AllFree(fat0, cs + [cl])
  {
    NotYetLinked(fat0, fat, cs, cl);
    hide Linked;
  }

  lemma LastOf(fat0: seq<u32>, fat: seq<u32>, cs: seq<nat>)
    requires Grown(fat0, fat, cs, 0)
    ensures |cs| > 0 ==> 2 <= cs[|cs| - 1] < |fat|
  {}

  lemma OthersStep(fat0: seq<u32>, fat: seq<u32>, cs: seq<nat>, cl: u32)
    requires Grown(fat0, fat, cs, 0) && cl < |fat|
    ensures |cs| > 0 ==> cs[|cs| - 1] < |fat|
    ensures |fat| == |fat0| && forall c :: 0 <= c < |fat0| && c !in cs + [cl] ==> Extended(fat, cs, cl)[c] == fat0[c]
  {
    LastOf(fat0, fat, cs);
    forall c | 0 <= c < |fat0| && c !in cs + [cl] ensures Extended(fat, cs, cl)[c] == fat0[c] {
      StillSame(fat0, fat, cs, c);
      assert cl in cs + [cl] && (|cs| > 0 ==> cs[|cs| - 1] in cs + [cl]);
    }
    hide Grown, Merged;
  }

  lemma GrownStepAt(fat0: seq<u32>, fat: seq<u32>, cs: seq<nat>, cl: u32, i: nat)
    requires Grown(fat0, fat, cs, 0) && 2 <= cl < |fat| && Next(fat, cl) == 0 && i <= |cs|
    ensures |fat0| == |fat| <= LAST && cl < |fat0|
    ensures
      var ds := cs + [cl];
      ds[i] < |fat0| && (i < |cs| ==> ds[i + 1] < |fat0|) && Extended(fat, cs, cl)[ds[i]] == Linked(fat0, ds, i)
  {
    hide Merged, Grown, Extended;
    NotYetLinked(fat0, fat, cs, cl);
    LastOf(fat0, fat, cs);
    GrownSize(fat0, fat, cs);
    if i == |cs| {
      ExtendedNew(fat, cs, cl);
    } else {
      LinkedAt(fat0, fat, cs, 0, i);
      ExtendedOld(fat0, fat, cs, cl, i);
      MergedTwice(fat0[cs[i]], EOC, cl);
    }
  }

  lemma GrownSize(fat0: seq<u32>, fat: seq<u32>, cs: seq<nat>)
    requires Grown(fat0, fat, cs, 0)
    ensures |fat0| == |fat| <= LAST
  {}

  lemma ExtendedNew(fat: seq<u32>, cs: seq<nat>, cl: u32)
    requires cl < |fat| && cl !in cs && (|cs| > 0 ==> cs[|cs| - 1] < |fat|)
    ensures Extended(fat, cs, cl)[cl] == Merged(fat[cl], EOC)
  {
    hide Merged;
  }

  lemma ExtendedOld(fat0: seq<u32>, fat: seq<u32>, cs: seq<nat>, cl: u32, i: nat)
    requires Grown(fat0, fat, cs, 0) && cl < |fat| && cl !in cs && i < |cs|
    ensures cs[i] < |fat| && cs[|cs| - 1] < |fat|
    ensures Extended(fat, cs, cl)[cs[i]] == if i == |cs| - 1 then Merged(fat[cs[i]], cl) else fat[cs[i]]
  {
    hide Merged, Linked;
    assert cs[i] in cs;
    assert i < |cs| - 1 ==> cs[i] != cs[|cs| - 1];
  }

  lemma StillSame(fat0: seq<u32>, fat: seq<u32>, cs: seq<nat>, c: nat)
    requires Grown(fat0, fat, cs, 0) && c < |fat0| && c !in cs
    ensures fat[c] == fat0[c]
  {
    assert cs[0..] == cs;
  }

  lemma NotYetLinked(fat0: seq<u32>, fat: seq<u32>, cs: seq<nat>, cl: nat)
    requires Grown(fat0, fat, cs, 0) && cl < |fat| && Next(fat, cl) == 0
    ensures cl !in cs && Next(fat0, cl) == 0 && fat[cl] == fat0[cl]
  {
    if i: nat :| i < |cs| && cs[i] == cl {
      LinkedBusy(fat0, fat, cs, 0, i);
      assert false;
    }
    assert cs[0..] == cs;
  }

  /** One round of the rollback: the entry is zero again, as it was. */
  lemma GrownBack(fat0: seq<u32>, fat: seq<u32>, cs: seq<nat>, k: nat)
    requires k < |cs| && Grown(fat0, fat, cs, k)
    ensures Grown(fat0, SetEntry(fat, cs[k], 0), cs, k + 1)
  {
    LinkedAt(fat0, fat, cs, k, k);
    BackOthers(fat0, fat, cs, k);
    var fat1 := SetEntry(fat, cs[k], 0);
    forall i | k + 1 <= i < |cs| ensures fat1[cs[i]] == Linked(fat0, cs, i) {
      LinkedAt(fat0, fat, cs, k, i);
      assert cs[i] != cs[k];
    }
    hide Merged, Linked, AllFree;
  }

  lemma BackOthers(fat0: seq<u32>, fat: seq<u32>, cs: seq<nat>, k: nat)
    requires k < |cs| && Grown(fat0, fat, cs, k) && cs[k] < |fat|
    ensures |fat| == |fat0|
    ensures forall c :: 0 <= c < |fat0| && c !in cs[k + 1..] ==> SetEntry(fat, cs[k], 0)[c] == fat0[c]
  {
    Restored(fat0, fat, cs, k);
    assert cs[k..] == [cs[k]] + cs[k + 1..];
    hide Merged, Linked, AllFree, Distinct;
  }

  lemma Restored(fat0: seq<u32>, fat: seq<u32>, cs: seq<nat>, k: nat)
    requires k < |cs| && Grown(fat0, fat, cs, k)
    ensures cs[k] < |fat| == |fat0| && Merged(fat[cs[k]], 0) == fat0[cs[k]]
  {
    hide Grown, Merged;
    LinkedAt(fat0, fat, cs, k, k);
    MergedTwice(fat0[cs[k]], if k + 1 < |cs| then cs[k + 1] else EOC, 0);
    MergedZero(fat0[cs[k]]);
  }

  /** Taking the whole chain back restores the table. */
  lemma GrownNone(fat0: seq<u32>, fat: seq<u32>, cs: seq<nat>)
    requires Grown(fat0, fat, cs, |cs|)
    ensures fat == fat0
  {
    assert cs[|cs|..] == [];
  }

  /** The last write of the loop, EOC into the last cluster, changes nothing. */
  lemma EndAgain(fat0: seq<u32>, fat: seq<u32>, cs: seq<nat>)
    requires |cs| > 0 && Grown(fat0, fat, cs, 0)
    ensures cs[|cs| - 1] < |fat| && SetEntry(fat, cs[|cs| - 1], EOC) == fat
  {
    hide Merged;
    var i := |cs| - 1;
    assert fat[cs[i]] == Linked(fat0, cs, i);
    MergedTwice(fat0[cs[i]], EOC, EOC);
  }

  // ---------------------------------------------------------------- what it means for chains

  /** What was grown is a chain, free of cycles. */
  lemma GrownIsChain(fat0: seq<u32>, fat: seq<u32>, cs: seq<nat>)
    requires |cs| > 0 && Grown(fat0, fat, cs, 0)
    ensures Chain(fat, cs) && Distinct(cs)
  {
    forall i | 0 <= i < |cs| ensures Link(fat, cs, i) {
      LinkedBusy(fat0, fat, cs, 0, i);
    }
  }

  /** Every chain there was is still there, cluster for cluster, and shares none with the new one. */
  lemma OtherChains(fat0: seq<u32>, fat: seq<u32>, cs: seq<nat>, ds: seq<nat>)
    requires Grown(fat0, fat, cs, 0) && Chain(fat0, ds)
    ensures Chain(fat, ds) && (forall c :: c in ds ==> c !in cs)
  {
    assert cs[0..] == cs;
    forall i | 0 <= i < |ds| ensures ds[i] !in cs && Link(fat, ds, i) {
      assert Link(fat0, ds, i) && (i + 1 < |ds| ==> Link(fat0, ds, i + 1));
      assert Next(fat0, ds[i]) != 0;
    }
  }

  ghost function FreeSet(fat: seq<u32>): set<nat> {
    set c: nat | 2 <= c < |fat| && Next(fat, c) == 0
  }

  function Elements(cs: seq<nat>): set<nat> {
    set c | c in cs
  }

  lemma {:induction false} ElementsSize(cs: seq<nat>)
    requires Distinct(cs)
    ensures |Elements(cs)| == |cs|
  {
    if |cs| > 0 {
      var n := |cs| - 1;
      var t := cs[..n];
      ElementsSize(t);
      assert cs == t + [cs[n]];
      assert Elements(cs) == Elements(t) + {cs[n]};
      assert cs[n] !in t;
    }
  }

  lemma {:induction false} SubsetSize(a: set<nat>, b: set<nat>)
    requires a <= b
    ensures |a| <= |b|
  {
    if a != {} {
      var x :| x in a;
      SubsetSize(a - {x}, b - {x});
    }
  }

  /** The clusters taken are free ones; when no free one is left they are all of them. */
  lemma GrownCounts(fat0: seq<u32>, fat: seq<u32>, cs: seq<nat>)
    requires Grown(fat0, fat, cs, 0)
    ensures |cs| <= |FreeSet(fat0)|
    ensures 2 <= |fat| && FirstFree(fat, 2) == |fat| ==> |cs| == |FreeSet(fat0)|
  {
    ElementsSize(cs);
    assert Elements(cs) <= FreeSet(fat0);
    SubsetSize(Elements(cs), FreeSet(fat0));
    if 2 <= |fat| && FirstFree(fat, 2) == |fat| {
      AllTaken(fat0, fat, cs);
      SubsetSize(FreeSet(fat0), Elements(cs));
    }
    hide Grown, FreeSet, Elements, FirstFree;
  }

  lemma AllTaken(fat0: seq<u32>, fat: seq<u32>, cs: seq<nat>)
    requires Grown(fat0, fat, cs, 0) && 2 <= |fat| && FirstFree(fat, 2) == |fat|
    ensures FreeSet(fat0) <= Elements(cs)
  {
    forall c | c in FreeSet(fat0) ensures c in Elements(cs) {
      NoneFree(fat, c);
      if c !in cs {
        StillSame(fat0, fat, cs, c);
      }
    }
    hide Grown, Linked, FirstFree;
  }

  lemma NoneFree(fat: seq<u32>, c: nat)
    requires 2 <= c < |fat| && FirstFree(fat, 2) == |fat|
    ensures Next(fat, c) != 0
  {}

  // ---------------------------------------------------------------- which clusters

  /** The free clusters from i on, lowest first. */
  function Frees(fat: seq<u32>, i: nat): seq<nat>
    requires i <= |fat|
    decreases |fat| - i
  {
    if i == |fat| then []
    else if Next(fat, i) == 0 then [i] + Frees(fat, i + 1)
    else Frees(fat, i + 1)
  }

  lemma {:induction false} FreesAre(fat: seq<u32>, i: nat, c: nat)
    requires i <= |fat|
    ensures c in Frees(fat, i) <==> i <= c < |fat| && Next(fat, c) == 0
    decreases |fat| - i
  {
    if i < |fat| {
      FreesAre(fat, i + 1, c);
      hide Next;
    }
  }

  lemma {:induction false} FreesIncrease(fat: seq<u32>, i: nat, j: nat, k: nat)
    requires i <= |fat| && j < k < |Frees(fat, i)|
    ensures i <= Frees(fat, i)[j] < Frees(fat, i)[k]
    decreases |fat| - i
  {
    if Next(fat, i) != 0 {
      FreesIncrease(fat, i + 1, j, k);
    } else if j > 0 {
      FreesIncrease(fat, i + 1, j - 1, k - 1);
    } else {
      FreesAre(fat, i + 1, Frees(fat, i + 1)[k - 1]);
    }
    hide Next;
  }

  lemma FreesDistinct(fat: seq<u32>, i: nat)
    requires i <= |fat|
    ensures Distinct(Frees(fat, i))
  {
    forall j, k | 0 <= j < k < |Frees(fat, i)| ensures Frees(fat, i)[j] != Frees(fat, i)[k] {
      FreesIncrease(fat, i, j, k);
    }
    hide Frees;
  }

  lemma FreesCount(fat: seq<u32>)
    requires 2 <= |fat|
    ensures |Frees(fat, 2)| == |FreeSet(fat)|
  {
    FreesDistinct(fat, 2);
    ElementsSize(Frees(fat, 2));
    assert Elements(Frees(fat, 2)) == FreeSet(fat) by {
      forall c: nat ensures c in Elements(Frees(fat, 2)) <==> c in FreeSet(fat) {
        FreesAre(fat, 2, c);
      }
    }
    hide Frees;
  }

  lemma InFrees(fat: seq<u32>, c: nat) returns (j: nat)
    requires 2 <= c < |fat| && Next(fat, c) == 0
    ensures j < |Frees(fat, 2)| && Frees(fat, 2)[j] == c
  {
    FreesAre(fat, 2, c);
    j :| j < |Frees(fat, 2)| && Frees(fat, 2)[j] == c;
  }

  /** cs are the lowest free clusters. */
  ghost predicate Lowest(fat: seq<u32>, cs: seq<nat>) {
    2 <= |fat| && cs <= Frees(fat, 2)
  }

  /** When the clusters taken so far are the lowest free ones, so are they with the next. */
  lemma NextFree(fat0: seq<u32>, fat: seq<u32>, cs: seq<nat>, cl: nat)
    requires Grown(fat0, fat, cs, 0) && Lowest(fat0, cs) && 2 <= |fat| && cl == FirstFree(fat, 2) < |fat|
    ensures Lowest(fat0, cs + [cl])
  {
    hide Grown, Frees, FirstFree, Lowest, Next;
    NotYetLinked(fat0, fat, cs, cl);
    GrownSize(fat0, fat, cs);
    var j := InFrees(fat0, cl);
    NotPast(fat0, fat, cs, j);
    NotTaken(fat0, cs, j);
    OneMore(fat0, cs);
  }

  lemma NotTaken(fat: seq<u32>, cs: seq<nat>, j: nat)
    requires Lowest(fat, cs) && j < |Frees(fat, 2)| && Frees(fat, 2)[j] !in cs
    ensures j >= |cs|
  {
    hide Frees;
    if j < |cs| {
      InPrefix(cs, Frees(fat, 2), j);
    }
  }

  lemma InPrefix(s: seq<nat>, t: seq<nat>, j: nat)
    requires s <= t && j < |s|
    ensures t[j] in s
  {
    assert s[j] == t[j];
  }

  lemma OneMore(fat: seq<u32>, cs: seq<nat>)
    requires Lowest(fat, cs)
    ensures |cs| < |Frees(fat, 2)| ==> Lowest(fat, cs + [Frees(fat, 2)[|cs|]])
  {
    hide Frees;
  }

  lemma NotPast(fat0: seq<u32>, fat: seq<u32>, cs: seq<nat>, j: nat)
    requires Grown(fat0, fat, cs, 0) && Lowest(fat0, cs) && 2 <= |fat|
    ensures |cs| < j < |Frees(fat0, 2)| ==> FirstFree(fat, 2) < Frees(fat0, 2)[j]
  {
    var f := Frees(fat0, 2);
    if |cs| < j < |f| {
      var c := f[|cs|];
      FreesIncrease(fat0, 2, |cs|, j);
      FreesAre(fat0, 2, c);
      FreesDistinct(fat0, 2);
      assert forall i :: 0 <= i < |cs| ==> cs[i] == f[i];
      assert c !in cs;
      StillSame(fat0, fat, cs, c);
      Reached(fat, c);
    }
    hide Grown, Frees, FirstFree;
  }

  lemma Reached(fat: seq<u32>, c: nat)
    requires 2 <= c < |fat| && Next(fat, c) == 0
    ensures FirstFree(fat, 2) <= c
  {}
}
