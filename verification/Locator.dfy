/**
 Block locators, blockchain/chainview.go: which heights a locator lists, and the
 loop with the doubling step and the bit-trick logarithm that builds it.
 */
module Locators {
  import opened Common
  import opened BlockTree
  import opened ChainViews

  /** How far below the located block entry `j` lies, before stopping at genesis. */
  function EntryDepth(j: nat): nat {
    if j <= 10 then j else 9 + Pow2(j - 10)
  }

  function EntryHeight(h: nat, j: nat): nat {
    if EntryDepth(j) >= h then 0 else h - EntryDepth(j)
  }

  /** The floor of the base-2 logarithm of a positive number. */
  function Log2Floor(n: nat): nat
    requires n > 0
  {
    if n == 1 then 0 else 1 + Log2Floor(n / 2)
  }

  lemma {:induction false} Log2FloorBounds(n: nat)
    requires n > 0
    ensures Pow2(Log2Floor(n)) <= n < Pow2(Log2Floor(n) + 1)
  {
    if n > 1 {
      Log2FloorBounds(n / 2);
    }
  }

  /** The number of entries the source reserves room for. */
  function MaxEntries(h: nat): nat {
    if h <= 12 then h + 1 else 12 + Log2Floor(h - 10)
  }

  /** The reserved count is exact: entry `j` is above genesis just when it is not the last. */
  lemma EntryAboveGenesis(h: nat, j: nat)
    ensures EntryHeight(h, j) > 0 <==> j + 1 < MaxEntries(h)
    ensures MaxEntries(h) >= 1
  {
    if h <= 12 {
      if j > 11 { Pow2Monotonic(1, j - 10); }
    } else {
      var l := Log2Floor(h - 10);
      Log2FloorBounds(h - 10);
      assert l >= 1;
      if j > 10 {
        if j - 10 < l {
          Pow2Monotonic(j - 10, l);
        } else if j - 10 > l {
          if j - 10 > l + 1 { Pow2Monotonic(l + 1, j - 10); }
        }
      }
    }
  }

  /** The shift distances of the five rounds, and two to each of them. */
  const SHIFTS: seq<nat> := [16, 8, 4, 2, 1]
  const POWERS: seq<nat> := [65536, 256, 16, 4, 2]

  /** The mask test of a round with shift `e`, `p` being two to the `e`: any of the bits `e .. 2e-1` is set. */
  predicate AnyHighBit(n: nat, p: nat)
    requires p > 0
  {
    n / p % p != 0
  }

  lemma Log2Shift1(n: nat)
    requires n >= 2
    ensures Log2Floor(n) == 1 + Log2Floor(n / 2)
  {
  }

  lemma Log2Shift2(n: nat)
    requires n >= 4
    ensures Log2Floor(n) == 2 + Log2Floor(n / 4)
  {
    Log2Shift1(n);
    Log2Shift1(n / 2);
    assert n / 2 / 2 == n / 4;
  }

  lemma Log2Shift4(n: nat)
    requires n >= 16
    ensures Log2Floor(n) == 4 + Log2Floor(n / 16)
  {
    Log2Shift2(n);
    Log2Shift2(n / 4);
    assert n / 4 / 4 == n / 16;
  }

  lemma Log2Shift8(n: nat)
    requires n >= 256
    ensures Log2Floor(n) == 8 + Log2Floor(n / 256)
  {
    Log2Shift4(n);
    Log2Shift4(n / 16);
    assert n / 16 / 16 == n / 256;
  }

  lemma Log2Shift16(n: nat)
    requires n >= 65536
    ensures Log2Floor(n) == 16 + Log2Floor(n / 65536)
  {
    Log2Shift8(n);
    Log2Shift8(n / 256);
    assert n / 256 / 256 == n / 65536;
  }

  /** The number a round may be given: less than two to twice its shift. */
  const LIMITS: seq<nat> := [TWO_32, 65536, 256, 16, 4, 2]

  lemma MaskTest(n: nat, i: nat)
    requires i < 5 && n < LIMITS[i]
    ensures AnyHighBit(n, POWERS[i]) <==> n >= POWERS[i]
    ensures n / POWERS[i] < LIMITS[i + 1]
    ensures n >= POWERS[i] ==> n / POWERS[i] > 0
  {
    if i == 0 { assert POWERS[i] == 65536; MaskTestAt(n, 65536); }
    else if i == 1 { assert POWERS[i] == 256; MaskTestAt(n, 256); }
    else if i == 2 { assert POWERS[i] == 16; MaskTestAt(n, 16); }
    else if i == 3 { assert POWERS[i] == 4; MaskTestAt(n, 4); }
    else { assert POWERS[i] == 2; MaskTestAt(n, 2); }
  }

  lemma MaskTestAt(n: nat, p: nat)
    requires p in {65536, 256, 16, 4, 2} && n < p * p
    ensures AnyHighBit(n, p) <==> n >= p
    ensures n / p < p
    ensures n >= p ==> n / p > 0
  {
    if p == 65536 {
    } else if p == 256 {
    } else if p == 16 {
    } else if p == 4 {
    } else {
    }
  }

  /** One round: shifting a large number takes the shift off its logarithm. */
  lemma Log2Round(n: nat, i: nat)
    requires i < 5 && n >= POWERS[i] && n / POWERS[i] > 0
    ensures Log2Floor(n) == SHIFTS[i] + Log2Floor(n / POWERS[i])
  {
    if i == 0 { Log2Shift16(n); }
    else if i == 1 { Log2Shift8(n); }
    else if i == 2 { Log2Shift4(n); }
    else if i == 3 { Log2Shift2(n); }
    else { Log2Shift1(n); }
  }

  /** floor(log2(n)) in five rounds of halving exponents. */
  method FastLog2Floor(n: nat) returns (rv: nat)
    requires n < TWO_32
    ensures n > 0 ==> rv == Log2Floor(n)
    ensures rv < 32
  {
    rv := 0;
    var m, i := n, 0;
    while i < 5
      invariant 0 <= i <= 5 && rv <= [0, 16, 24, 28, 30, 31][i]
      invariant m < LIMITS[i]
      invariant n > 0 ==> m > 0 && Log2Floor(n) == rv + Log2Floor(m)
    {
      MaskTest(m, i);
      if AnyHighBit(m, POWERS[i]) {
        Log2Round(m, i);
        rv := rv + SHIFTS[i];
        m := m / POWERS[i];
      }
      i := i + 1;
    }
  }

  /** The hashes of a locator: the block, then ancestors at the listed heights. */
  ghost predicate IsLocatorOf(locator: seq<Hash>, node: BlockNode) {
    && |locator| == MaxEntries(node.Height())
    && forall j :: 0 <= j < |locator| ==> locator[j] == node.At(EntryHeight(node.Height(), j)).Hash()
  }

  /** The value of the 32-bit step variable when entry `j` is added. */
  function StepAt(j: nat): int {
    if j <= 10 then 1 else ToInt32(Pow2(j - 10))
  }

  /** Moving on from an entry above genesis: the 32-bit step has not overflowed yet,
      so it leads to the next listed height, although doubling it may overflow. */
  lemma LocatorMove(h: nat, j: nat)
    requires h < TWO_31 && EntryHeight(h, j) > 0
    ensures EntryHeight(h, j + 1) == if EntryHeight(h, j) < StepAt(j) then 0 else EntryHeight(h, j) - StepAt(j)
    ensures StepAt(j + 1) == if j >= 10 then ToInt32(StepAt(j) * 2) else StepAt(j)
    ensures 1 <= StepAt(j) < TWO_31
  {
    if j > 10 {
      assert Pow2(j - 9) == 2 * Pow2(j - 10);
      assert Pow2(j - 10) < TWO_31;
    } else if j == 10 {
      assert Pow2(1) == 2 && Pow2(0) == 1;
    }
  }

  /** Builds the locator of a node, or of the tip when none is given. */
  method BlockLocator(view: ChainView, from: Option<BlockNode>) returns (locator: seq<Hash>)
    requires view.Valid()
    requires |view.branch| <= TWO_31 && (from.Some? ==> from.value.Height() < TWO_31)
    ensures from.None? && view.branch == [] ==> locator == []
    ensures from.None? && view.branch != [] ==> IsLocatorOf(locator, view.branch[|view.branch| - 1])
    ensures from.Some? ==> IsLocatorOf(locator, from.value)
  {
    var node := if from.None? then view.Tip() else from;
    if node.None? {
      return [];
    }
    var h := node.value.Height();
    var maxEntries;
    if h <= 12 {
      maxEntries := h + 1;
    } else {
      var lg := FastLog2Floor(h - 10);
      maxEntries := 12 + lg;
    }
    locator := LocatorLoop(view, node.value, maxEntries);
  }

  /** The loop that fills the reserved entries. */
  method LocatorLoop(view: ChainView, first: BlockNode, maxEntries: nat) returns (locator: seq<Hash>)
    requires view.Valid()
    requires first.Height() < TWO_31 && maxEntries == MaxEntries(first.Height())
    ensures IsLocatorOf(locator, first)
  {
    ghost var h := first.Height();
    locator := [];
    var step, n, more := 1, first, true;
    EntryAboveGenesis(h, 0);
    while more
      invariant |locator| <= maxEntries && (!more <==> |locator| == maxEntries)
      invariant more ==> n == first.At(EntryHeight(h, |locator|)) && step == StepAt(|locator|)
      invariant forall j :: 0 <= j < |locator| ==> locator[j] == first.At(EntryHeight(h, j)).Hash()
      decreases maxEntries - |locator|
    {
      EntryAboveGenesis(h, |locator|);
      locator := locator + [n.Hash()];
      if n.Height() == 0 {
        more := false;
      } else {
        LocatorMove(h, |locator| - 1);
        var height := n.Height() - step;
        if height < 0 {
          height := 0;
        }
        AtAt(first, n.Height(), height);
        n := AncestorInView(view, n, height);
        if |locator| > 10 {
          step := ToInt32(step * 2);
        }
      }
    }
  }

  /** The ancestor lookup that uses the view when the node is in it. */
  method AncestorInView(view: ChainView, node: BlockNode, height: nat) returns (r: BlockNode)
    requires view.Valid() && height <= node.Height()
    ensures r == node.At(height)
  {
    if view.Contains(node) {
      BranchClosed(view.branch, node, height);
      r := view.nodes[height].value;
    } else {
      var a := Ancestor(node, height);
      r := a.value;
    }
  }

  /** Listed heights start at the block, strictly descend and end at genesis. */
  lemma LocatorShape(h: nat)
    ensures EntryHeight(h, 0) == h && EntryHeight(h, MaxEntries(h) - 1) == 0
    ensures forall j, k :: 0 <= j < k < MaxEntries(h) ==> EntryHeight(h, j) > EntryHeight(h, k)
  {
    EntryAboveGenesis(h, 0);
    EntryAboveGenesis(h, MaxEntries(h) - 1);
    forall j: nat, k: nat | j < k < MaxEntries(h)
      ensures EntryHeight(h, j) > EntryHeight(h, k)
    {
      EntryAboveGenesis(h, j);
      DepthMonotonic(j, k);
    }
  }

  lemma DepthMonotonic(j: nat, k: nat)
    requires j < k
    ensures EntryDepth(j) < EntryDepth(k)
  {
    if k > 10 {
      if j > 10 { Pow2Monotonic(j - 10, k - 10); }
      else { Pow2Monotonic(0, k - 10); }
    }
  }
}
