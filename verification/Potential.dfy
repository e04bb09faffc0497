/**
 * How often a counter can be incremented when increments are a read followed by an absolute write.
 *
 * One register holds a state that starts at 0 and may be incremented while it is below `m`. Up to `c`
 * handlers copy the register, and later write their copy plus one. A write may put the register back,
 * so more than `m` increments are possible: this module bounds their number.
 */
module Potential {
  import opened Registry

  /** What a late write adds: nothing where it would put back the maximum that others have written already. */
  function Late(counting: Counting, k: nat, gap: nat): (n: nat) {
    if counting.Changed? && gap == 1 && k >= 2 then 0 else 1
  }

  /** The most increments that `k` handlers get out of a register `gap` below its maximum. */
  function Most(counting: Counting, k: nat, gap: nat): (n: nat)
    decreases k + gap
  {
    if k == 0 || gap == 0 then 0
    else Most(counting, k - 1, gap) + Late(counting, k, gap) + Most(counting, k, gap - 1)
  }

  /** What the last of `k` handlers contributes to Most at one gap. */
  function Weight(counting: Counting, k: nat, gap: nat): (n: nat) {
    if k == 0 || gap == 0 then 0 else Most(counting, k - 1, gap) + Late(counting, k, gap)
  }

  lemma MostIsWeights(counting: Counting, k: nat, gap: nat)
    ensures Most(counting, k, 0) == 0
    ensures gap > 0 ==> Most(counting, k, gap) == Weight(counting, k, gap) + Most(counting, k, gap - 1)
  {
  }

  /** One more handler at a gap outweighs all that the others do above it. */
  lemma WeightStep(counting: Counting, k: nat, gap: nat)
    requires gap > 0
    ensures Weight(counting, k + 1, gap) ==
            Weight(counting, k, gap) + Most(counting, k, gap - 1) + Late(counting, k + 1, gap)
  {
    MostIsWeights(counting, k, gap);
  }

  lemma {:induction false} WeightMonotone(counting: Counting, k: nat, k': nat, gap: nat)
    requires k <= k'
    ensures Weight(counting, k, gap) <= Weight(counting, k', gap)
    decreases k'
  {
    hide Weight, Most;
    if k < k' && gap > 0 {
      WeightMonotone(counting, k, k' - 1, gap);
      WeightStep(counting, k' - 1, gap);
    } else if k < k' {
      WeightAtZero(counting, k);
    }
  }

  lemma WeightAtZero(counting: Counting, k: nat)
    ensures Weight(counting, k, 0) == 0 && Weight(counting, 0, k) == 0
  {
  }

  // ----- Most in closed form -----

  /** Binomial coefficients. */
  function Choose(n: nat, k: nat): (r: nat) {
    if k == 0 then 1 else if n == 0 then 0 else Choose(n - 1, k - 1) + Choose(n - 1, k)
  }

  /** (k + gap choose gap) - 1, less (k + gap - 2 choose gap) where only changed rows count. */
  function ClosedForm(counting: Counting, k: nat, gap: nat): (n: int) {
    Choose(k + gap, gap) - 1 - if counting.Changed? && k >= 2 then Choose(k + gap - 2, gap) else 0
  }

  lemma {:induction false} ChooseTooMany(n: nat, k: nat)
    requires n < k
    ensures Choose(n, k) == 0
  {
    if n > 0 {
      ChooseTooMany(n - 1, k - 1);
      ChooseTooMany(n - 1, k);
    }
  }

  lemma {:induction false} ChooseSmall(n: nat)
    ensures Choose(n, n) == 1 && Choose(n, n + 1) == 0 && Choose(n, 1) == n
  {
    ChooseTooMany(n, n + 1);
    if n > 0 {
      ChooseSmall(n - 1);
    }
  }

  lemma Pascal(n: nat, k: nat)
    requires n > 0 && k > 0
    ensures Choose(n, k) == Choose(n - 1, k - 1) + Choose(n - 1, k)
  {
  }

  lemma ClosedFormStep(counting: Counting, k: nat, gap: nat)
    requires k > 0 && gap > 1
    ensures ClosedForm(counting, k, gap) == ClosedForm(counting, k - 1, gap) + 1 + ClosedForm(counting, k, gap - 1)
  {
    hide Choose;
    Pascal(k + gap, gap);
    if k > 2 {
      Pascal(k + gap - 2, gap);
    } else {
      ChooseSmall(gap);
      ChooseSmall(gap - 1);
    }
  }

  lemma {:induction false} MostAtOne(counting: Counting, k: nat)
    ensures Most(counting, k, 1) == if counting.Changed? && k > 0 then 1 else k
  {
    if k > 0 {
      MostAtOne(counting, k - 1);
    }
  }

  lemma {:induction false} MostInClosedForm(counting: Counting, k: nat, gap: nat)
    requires gap > 0
    ensures Most(counting, k, gap) == ClosedForm(counting, k, gap)
    decreases k + gap
  {
    hide Choose;
    if k == 0 {
      ChooseSmall(gap);
    } else if gap == 1 {
      MostAtOne(counting, k);
      ChooseSmall(k + 1);
      ChooseSmall(k - 1);
    } else {
      MostInClosedForm(counting, k - 1, gap);
      MostInClosedForm(counting, k, gap - 1);
      ClosedFormStep(counting, k, gap);
    }
  }

  lemma {:induction false} MostOfOne(counting: Counting, gap: nat)
    ensures Most(counting, 1, gap) == gap
  {
    if gap > 0 {
      MostOfOne(counting, gap - 1);
    }
  }

  lemma {:induction false} MostOfMany(counting: Counting, k: nat, gap: nat)
    requires k >= 2 && gap > 0
    ensures Most(counting, k, gap) >= gap
    ensures counting.Matched? || gap > 1 ==> Most(counting, k, gap) > gap
    decreases k
  {
    if k == 2 {
      MostOfOne(counting, gap);
    } else {
      MostOfMany(counting, k - 1, gap);
    }
  }

  lemma AtLeastOnce(r: nat, n: nat)
    ensures r == 0 ==> r * n == 0
    ensures n == 0 ==> r * n == 0
    ensures r > 0 ==> r * n >= n
  {
  }

  lemma MostStep(counting: Counting, k: nat, gap: nat)
    ensures Most(counting, k, gap) ==
            if k == 0 || gap == 0 then 0
            else Most(counting, k - 1, gap) + Late(counting, k, gap) + Most(counting, k, gap - 1)
  {
  }

  /** When the most increments, with `r` resets, are no more than the maximum. */
  lemma MostVersusMaximum(counting: Counting, k: nat, m: nat, r: nat)
    requires m > 0
    ensures Most(counting, k, m) + r * Most(counting, k, m + 1) <= m <==>
            k == 0 || (r == 0 && (k == 1 || (counting.Changed? && m == 1)))
  {
    hide Most;
    AtLeastOnce(r, Most(counting, k, m + 1));
    MostStep(counting, k, m);
    MostStep(counting, k, m + 1);
    if k == 1 {
      MostOfOne(counting, m);
      MostOfOne(counting, m + 1);
    } else if k > 1 {
      MostOfMany(counting, k, m);
      MostOfMany(counting, k, m + 1);
      MostAtOne(counting, k);
    }
  }

  // ----- Cells: the register and the handlers' copies -----

  /** How many cells hold at least `x`. */
  function AtLeast(cells: seq<int>, x: int): (n: nat)
    ensures n <= |cells|
  {
    if cells == [] then 0 else (if cells[0] >= x then 1 else 0) + AtLeast(cells[1..], x)
  }

  /** All but one of them. */
  function Others(cells: seq<int>, x: int): (n: nat) {
    if AtLeast(cells, x) == 0 then 0 else AtLeast(cells, x) - 1
  }

  /** The potential of the cells, over the `n` highest levels m, m - 1, ... */
  function Potential(counting: Counting, cells: seq<int>, m: int, n: nat): (p: nat) {
    if n == 0 then 0
    else Potential(counting, cells, m, n - 1) + Weight(counting, Others(cells, m - n + 1), n)
  }

  lemma {:induction false} AtLeastAntitone(cells: seq<int>, x: int, y: int)
    requires x <= y
    ensures AtLeast(cells, y) <= AtLeast(cells, x)
  {
    if cells != [] {
      AtLeastAntitone(cells[1..], x, y);
    }
  }

  lemma {:induction false} AtLeastGrows(cells: seq<int>, cells': seq<int>, x: int)
    requires |cells| == |cells'|
    requires forall i :: 0 <= i < |cells| ==> cells[i] >= x ==> cells'[i] >= x
    ensures AtLeast(cells, x) <= AtLeast(cells', x)
  {
    if cells != [] {
      AtLeastGrows(cells[1..], cells'[1..], x);
    }
  }

  lemma {:induction false} AtLeastGrowsStrictly(cells: seq<int>, cells': seq<int>, x: int, w: nat)
    requires |cells| == |cells'| && w < |cells|
    requires forall i :: 0 <= i < |cells| ==> cells[i] >= x ==> cells'[i] >= x
    requires cells[w] < x <= cells'[w]
    ensures AtLeast(cells, x) + 1 <= AtLeast(cells', x)
  {
    if w == 0 {
      AtLeastGrows(cells[1..], cells'[1..], x);
    } else {
      AtLeastGrowsStrictly(cells[1..], cells'[1..], x, w - 1);
    }
  }

  lemma {:induction false} AtLeastCounts(cells: seq<int>, x: int, w: nat)
    requires w < |cells| && cells[w] >= x
    ensures AtLeast(cells, x) >= 1
  {
    if w > 0 {
      AtLeastCounts(cells[1..], x, w - 1);
    }
  }

  lemma {:induction false} AtLeastCountsTwo(cells: seq<int>, x: int, v: nat, w: nat)
    requires v < w < |cells| && cells[v] >= x && cells[w] >= x
    ensures AtLeast(cells, x) >= 2
  {
    if v > 0 {
      AtLeastCountsTwo(cells[1..], x, v - 1, w - 1);
    } else {
      AtLeastCounts(cells[1..], x, w - 1);
    }
  }

  lemma {:induction false} AtLeastNone(cells: seq<int>, x: int)
    requires forall i :: 0 <= i < |cells| ==> cells[i] < x
    ensures AtLeast(cells, x) == 0
  {
    if cells != [] {
      AtLeastNone(cells[1..], x);
    }
  }

  /** The levels above one with `k` others weigh at most what `k` handlers get out of them. */
  lemma {:induction false} PotentialBelow(counting: Counting, cells: seq<int>, m: int, n: nat, k: nat)
    requires Others(cells, m - n + 1) <= k
    ensures Potential(counting, cells, m, n) <= Most(counting, k, n)
  {
    hide Most, Weight;
    MostIsWeights(counting, k, n);
    if n > 0 {
      AtLeastAntitone(cells, m - n + 1, m - (n - 1) + 1);
      PotentialBelow(counting, cells, m, n - 1, k);
      WeightMonotone(counting, Others(cells, m - n + 1), k, n);
    }
  }

  /**
   * A write of the copy `v`: the register, the writer and perhaps other cells now hold v + 1, the
   * rest stays. However far back this puts the register, the potential goes up. Where only changed
   * rows count, a write of the maximum must find no cell there.
   */
  lemma {:induction false} WriteRaisesPotential(
      counting: Counting, cells: seq<int>, cells': seq<int>, m: int, v: int, writer: nat, register: nat, n: nat)
    requires |cells| == |cells'| && writer < register < |cells|
    requires -1 <= v < m && m - v <= n
    requires forall i :: 0 <= i < |cells| ==> cells'[i] == cells[i] || cells'[i] == v + 1
    requires cells[writer] == v && cells'[writer] == v + 1 && cells'[register] == v + 1
    requires counting.Changed? && v + 1 == m ==> AtLeast(cells, m) == 0
    ensures Potential(counting, cells, m, n) + 1 <= Potential(counting, cells', m, n)
    decreases n
  {
    hide Most, Weight, AtLeast;
    var x := m - n + 1;
    if n > m - v {
      WriteRaisesPotential(counting, cells, cells', m, v, writer, register, n - 1);
      AtLeastGrows(cells, cells', x);
      WeightMonotone(counting, Others(cells, x), Others(cells', x), n);
    } else {
      assert x == v + 1;
      var k := Others(cells, x);
      AtLeastGrowsStrictly(cells, cells', x, writer);
      AtLeastCountsTwo(cells', x, writer, register);
      WeightMonotone(counting, k + 1, Others(cells', x), n);
      WeightStep(counting, k, n);
      AtLeastAntitone(cells, x, m - (n - 1) + 1);
      PotentialBelow(counting, cells, m, n - 1, k);
    }
  }

  lemma PotentialBounded(counting: Counting, cells: seq<int>, m: int, n: nat)
    requires |cells| >= 1
    ensures Potential(counting, cells, m, n) <= Most(counting, |cells| - 1, n)
  {
    PotentialBelow(counting, cells, m, n, |cells| - 1);
  }

  lemma {:induction false} AtLeastOfEqual(cells: seq<int>, v: int, x: int)
    requires forall i :: 0 <= i < |cells| ==> cells[i] == v
    ensures AtLeast(cells, x) == if v >= x then |cells| else 0
  {
    if cells != [] {
      AtLeastOfEqual(cells[1..], v, x);
    }
  }

  lemma {:induction false} PotentialAtZero(counting: Counting, cells: seq<int>, m: nat, n: nat)
    requires |cells| >= 1 && n <= m + 1
    requires forall i :: 0 <= i < |cells| ==> cells[i] == 0
    ensures Potential(counting, cells, m, n) == if n == m + 1 then Weight(counting, |cells| - 1, n) else 0
  {
    hide Weight;
    if n > 0 {
      PotentialAtZero(counting, cells, m, n - 1);
      AtLeastOfEqual(cells, 0, m - n + 1);
      WeightAtZero(counting, n);
    }
  }

  // ----- The register and its handlers as a machine -----

  /** The register's state and the copies that handlers hold. */
  datatype View = View(state: int, held: map<nat, int>)

  datatype Event = Nothing | Take(h: nat) | Release(h: nat) | Win(h: nat) | Reset

  predicate Enabled(counting: Counting, c: nat, m: int, v: View, e: Event) {
    match e
    case Take(h) => h < c && h !in v.held
    case Win(h) => h in v.held && v.held[h] < m && (counting.Changed? ==> v.state != v.held[h] + 1)
    case _ => true
  }

  function Advance(v: View, e: Event): (v': View)
    requires e.Win? ==> e.h in v.held
  {
    match e
    case Nothing => v
    case Take(h) => v.(held := v.held[h := v.state])
    case Release(h) => v.(held := v.held - {h})
    case Win(h) => View(v.held[h] + 1, v.held - {h})
    case Reset => v.(state := -1)
  }

  /** The cells, when the copies of the handlers in `keep` are counted and the others follow the register. */
  function Cells(c: nat, v: View, keep: set<nat>): (cells: seq<int>)
    ensures |cells| == c + 1
  {
    seq(c + 1, h => if h < c && h in v.held && h in keep then v.held[h] else v.state)
  }

  /** All states lie between -1 and m, and none exceeds the number of wins so far. */
  predicate InRange(c: nat, m: int, v: View, wins: nat) {
    && -1 <= v.state <= m && v.state <= wins
    && forall h :: h in v.held ==> h < c && -1 <= v.held[h] <= m && v.held[h] <= wins
  }

  /** Wins so far are paid for by the potential, whichever copies are counted. */
  ghost predicate Paid(counting: Counting, c: nat, m: nat, v: View, wins: nat, resets: nat) {
    forall keep: set<nat> ::
      wins + Weight(counting, c, m + 1)
      <= Potential(counting, Cells(c, v, keep), m, m + 1) + resets * Most(counting, c, m + 1)
  }

  lemma RangeKept(counting: Counting, c: nat, m: nat, v: View, wins: nat, e: Event)
    requires InRange(c, m, v, wins) && Enabled(counting, c, m, v, e)
    ensures InRange(c, m, Advance(v, e), if e.Win? then wins + 1 else wins)
  {
  }

  /** The copies to count before a win, so that the write raises the potential. */
  function KeptBefore(counting: Counting, m: int, v: View, h: nat, keep: set<nat>): (r: set<nat>)
    requires h in v.held
  {
    if counting.Changed? && v.held[h] + 1 == m
    then (set g | g in keep && g in v.held && v.held[g] < m) + {h}
    else keep + {h}
  }

  lemma PaidByWin(counting: Counting, c: nat, m: nat, v: View, wins: nat, resets: nat, h: nat, keep: set<nat>)
    requires InRange(c, m, v, wins) && Enabled(counting, c, m, v, Win(h)) && Paid(counting, c, m, v, wins, resets)
    ensures wins + 1 + Weight(counting, c, m + 1)
         <= Potential(counting, Cells(c, Advance(v, Win(h)), keep), m, m + 1) + resets * Most(counting, c, m + 1)
  {
    hide Potential, Weight, Most;
    var before := KeptBefore(counting, m, v, h, keep);
    var cells, cells' := Cells(c, v, before), Cells(c, Advance(v, Win(h)), keep);
    if counting.Changed? && v.held[h] + 1 == m {
      AtLeastNone(cells, m);
    }
    WriteRaisesPotential(counting, cells, cells', m, v.held[h], h, c, m + 1);
  }

  lemma PaidByReset(counting: Counting, c: nat, m: nat, v: View, wins: nat, resets: nat, keep: set<nat>)
    requires Paid(counting, c, m, v, wins, resets)
    ensures wins + Weight(counting, c, m + 1)
         <= Potential(counting, Cells(c, Advance(v, Reset), keep), m, m + 1) + (resets + 1) * Most(counting, c, m + 1)
  {
    hide Potential, Weight, Most;
    PotentialBounded(counting, Cells(c, v, keep), m, m + 1);
    var most := Most(counting, c, m + 1);
    assert (resets + 1) * most == resets * most + most;
  }

  /** Every event keeps the account, also when a copy is given up or overtaken. */
  lemma PaidKept(counting: Counting, c: nat, m: nat, v: View, wins: nat, resets: nat, e: Event)
    requires InRange(c, m, v, wins) && Enabled(counting, c, m, v, e) && Paid(counting, c, m, v, wins, resets)
    ensures Paid(counting, c, m, Advance(v, e),
                 if e.Win? then wins + 1 else wins, if e.Reset? then resets + 1 else resets)
  {
    hide Potential, Weight, Most;
    forall keep: set<nat>
      ensures (if e.Win? then wins + 1 else wins) + Weight(counting, c, m + 1)
           <= Potential(counting, Cells(c, Advance(v, e), keep), m, m + 1)
              + (if e.Reset? then resets + 1 else resets) * Most(counting, c, m + 1)
    {
      match e
      case Nothing =>
      case Take(h) => assert Cells(c, Advance(v, e), keep) == Cells(c, v, keep);
      case Release(h) => assert Cells(c, Advance(v, e), keep) == Cells(c, v, keep - {h});
      case Win(h) => PaidByWin(counting, c, m, v, wins, resets, h, keep);
      case Reset => PaidByReset(counting, c, m, v, wins, resets, keep);
    }
  }

  lemma PaidAtStart(counting: Counting, c: nat, m: nat)
    ensures Paid(counting, c, m, View(0, map[]), 0, 0)
  {
    forall keep: set<nat>
      ensures Weight(counting, c, m + 1) <= Potential(counting, Cells(c, View(0, map[]), keep), m, m + 1)
    {
      PotentialAtZero(counting, Cells(c, View(0, map[]), keep), m, m + 1);
    }
  }

  /** The bound on wins that the account amounts to. */
  lemma WinsBounded(counting: Counting, c: nat, m: nat, v: View, wins: nat, resets: nat)
    requires Paid(counting, c, m, v, wins, resets)
    ensures wins <= Most(counting, c, m) + resets * Most(counting, c, m + 1)
  {
    hide Potential, Weight, Most;
    var cells := Cells(c, v, {});
    PotentialBounded(counting, cells, m, m + 1);
    MostIsWeights(counting, c, m + 1);
    assert wins + Weight(counting, c, m + 1)
        <= Potential(counting, cells, m, m + 1) + resets * Most(counting, c, m + 1);
  }
}
