/** The arg-max loops of colors/ChineseColors.py. Each loop keeps a current
    best (`best_color`, `best_next`, `best_start`) and its score, skips the
    candidates it may not take, and replaces the best only on a strictly
    greater score, so the earliest of several equal maxima wins. */
module Scan {
  import opened Common

  datatype Best<T> = Best(choice: Option<T>, score: ExtReal)

  /** One iteration: `if score > best_score: best_score, best = score, x`. */
  function Step<T>(b: Best<T>, x: T, eligible: T -> bool, score: T -> ExtReal): Best<T> {
    if eligible(x) && b.score.Below(score(x)) then Best(Some(x), score(x)) else b
  }

  /** The loop over `xs` starting from the best `b`. */
  function ScanBest<T>(xs: seq<T>, eligible: T -> bool, score: T -> ExtReal, b: Best<T>): (r: Best<T>)
    ensures !r.score.Below(b.score)
    ensures r == b || (r.choice.Some? && r.choice.value in xs && eligible(r.choice.value) &&
                       r.score == score(r.choice.value) && b.score.Below(r.score))
    ensures forall i :: 0 <= i < |xs| && eligible(xs[i]) ==> !r.score.Below(score(xs[i]))
    decreases |xs|
  {
    if xs == [] then b
    else
      var b' := Step(b, xs[0], eligible, score);
      var r := ScanBest(xs[1..], eligible, score, b');
      BelowIsStrictOrder(r.score, b'.score, b.score);
      BelowIsStrictOrder(r.score, score(xs[0]), b.score);
      BelowIsStrictOrder(b.score, b'.score, r.score);
      assert forall i :: 1 <= i < |xs| ==> xs[1..][i - 1] == xs[i];
      r
  }

  /** The first maximum wins: the chosen candidate sits at an index before
      which every eligible candidate scores strictly less. */
  lemma {:induction false} ScanBestFirst<T>(xs: seq<T>, eligible: T -> bool, score: T -> ExtReal, b: Best<T>)
    requires ScanBest(xs, eligible, score, b) != b
    ensures exists j :: 0 <= j < |xs| && xs[j] == ScanBest(xs, eligible, score, b).choice.value &&
                        forall i :: 0 <= i < j && eligible(xs[i]) ==> score(xs[i]).Below(ScanBest(xs, eligible, score, b).score)
    decreases |xs|
  {
    var r := ScanBest(xs, eligible, score, b);
    var b' := Step(b, xs[0], eligible, score);
    assert r == ScanBest(xs[1..], eligible, score, b');
    if r == b' {
      assert xs[0] == r.choice.value;
    } else {
      ScanBestFirst(xs[1..], eligible, score, b');
      var j :| 0 <= j < |xs[1..]| && xs[1..][j] == r.choice.value &&
        forall i :: 0 <= i < j && eligible(xs[1..][i]) ==> score(xs[1..][i]).Below(r.score);
      assert xs[j + 1] == r.choice.value;
      forall i | 0 <= i < j + 1 && eligible(xs[i]) ensures score(xs[i]).Below(r.score) {
        if i == 0 {
          BelowIsStrictOrder(score(xs[0]), b'.score, r.score);
          BelowIsStrictOrder(b'.score, score(xs[0]), r.score);
        } else {
          assert xs[i] == xs[1..][i - 1];
        }
      }
    }
  }

  function All<T>(): T -> bool {
    x => true
  }

  /** A real-valued score, as the loops compare it with a float bound. */
  function FinScore<T>(f: T -> real): T -> ExtReal {
    x => Fin(f(x))
  }

  /** The scan over every candidate with a real score, from a current best
      scoring `floor`: it keeps the current best when no candidate beats
      `floor`, and otherwise picks the first candidate of maximal score. */
  lemma FirstMaxAbove<T>(xs: seq<T>, f: T -> real, c0: Option<T>, floor: real)
    ensures (forall i :: 0 <= i < |xs| ==> f(xs[i]) <= floor) ==>
      ScanBest(xs, All(), FinScore(f), Best(c0, Fin(floor))) == Best(c0, Fin(floor))
    ensures (exists i :: 0 <= i < |xs| && f(xs[i]) > floor) ==>
      exists j :: 0 <= j < |xs| && ScanBest(xs, All(), FinScore(f), Best(c0, Fin(floor))).choice == Some(xs[j]) &&
                  (forall i :: 0 <= i < |xs| ==> f(xs[i]) <= f(xs[j])) &&
                  (forall i :: 0 <= i < j ==> f(xs[i]) < f(xs[j]))
  {
    var init := Best(c0, Fin(floor));
    if ScanBest(xs, All(), FinScore(f), init) != init {
      ScanChangedAtFirstMax(xs, f, init);
    } else {
      ScanKeptBelowFloor(xs, f, init);
    }
  }

  /** When the scan keeps its current best, nothing beat that best's score. */
  lemma ScanKeptBelowFloor<T>(xs: seq<T>, f: T -> real, init: Best<T>)
    requires init.score.Fin? && ScanBest(xs, All(), FinScore(f), init) == init
    ensures forall i :: 0 <= i < |xs| ==> f(xs[i]) <= init.score.v
  {
    var score := FinScore(f);
    forall i | 0 <= i < |xs| ensures f(xs[i]) <= init.score.v {
      assert All()(xs[i]) && score(xs[i]) == Fin(f(xs[i]));
      assert !init.score.Below(score(xs[i]));
    }
  }

  /** When the scan replaces its current best, it chose the first candidate
      of maximal score, and that score beats the old best's. */
  lemma ScanChangedAtFirstMax<T>(xs: seq<T>, f: T -> real, init: Best<T>)
    requires init.score.Fin? && ScanBest(xs, All(), FinScore(f), init) != init
    ensures exists j :: 0 <= j < |xs| && ScanBest(xs, All(), FinScore(f), init).choice == Some(xs[j]) &&
                        init.score.v < f(xs[j]) &&
                        (forall i :: 0 <= i < |xs| ==> f(xs[i]) <= f(xs[j])) &&
                        (forall i :: 0 <= i < j ==> f(xs[i]) < f(xs[j]))
  {
    var score := FinScore(f);
    var b := ScanBest(xs, All(), score, init);
    ScanBestFirst(xs, All(), score, init);
    var j :| 0 <= j < |xs| && xs[j] == b.choice.value &&
             forall i :: 0 <= i < j && All()(xs[i]) ==> score(xs[i]).Below(b.score);
    assert b.choice == Some(xs[j]) && b.score == Fin(f(xs[j])) && init.score.v < f(xs[j]);
    NoneAboveFinal(xs, f, b.score);
    EarlierBelow(xs, f, j, b.score);
  }

  /** The final score of a scan over every candidate bounds every score. */
  lemma NoneAboveFinal<T>(xs: seq<T>, f: T -> real, top: ExtReal)
    requires top.Fin? && forall i :: 0 <= i < |xs| && All()(xs[i]) ==> !top.Below(FinScore(f)(xs[i]))
    ensures forall i :: 0 <= i < |xs| ==> f(xs[i]) <= top.v
  {
    forall i | 0 <= i < |xs| ensures f(xs[i]) <= top.v {
      assert All()(xs[i]) && FinScore(f)(xs[i]) == Fin(f(xs[i]));
    }
  }

  /** Every candidate before the chosen one scores strictly below it. */
  lemma EarlierBelow<T>(xs: seq<T>, f: T -> real, j: int, top: ExtReal)
    requires top.Fin? && 0 <= j <= |xs|
    requires forall i :: 0 <= i < j && All()(xs[i]) ==> FinScore(f)(xs[i]).Below(top)
    ensures forall i :: 0 <= i < j ==> f(xs[i]) < top.v
  {
    forall i | 0 <= i < j ensures f(xs[i]) < top.v {
      assert All()(xs[i]) && FinScore(f)(xs[i]) == Fin(f(xs[i]));
    }
  }

  /** The scan from no best and the bound `floor`, falling back to `dflt`
      when nothing beats the bound. */
  function PickFirstMax<T>(xs: seq<T>, f: T -> real, floor: real, dflt: T): (x: T)
    ensures x in xs || x == dflt
  {
    var b := ScanBest(xs, All(), FinScore(f), Best(None, Fin(floor)));
    if b.choice.Some? then b.choice.value else dflt
  }

  lemma PickFirstMaxIsFirstMax<T>(xs: seq<T>, f: T -> real, floor: real, dflt: T)
    ensures (forall i :: 0 <= i < |xs| ==> f(xs[i]) <= floor) ==> PickFirstMax(xs, f, floor, dflt) == dflt
    ensures (exists i :: 0 <= i < |xs| && f(xs[i]) > floor) ==>
      exists j :: 0 <= j < |xs| && xs[j] == PickFirstMax(xs, f, floor, dflt) &&
                  (forall i :: 0 <= i < |xs| ==> f(xs[i]) <= f(xs[j])) &&
                  (forall i :: 0 <= i < j ==> f(xs[i]) < f(xs[j]))
  {
    FirstMaxAbove(xs, f, None, floor);
  }

  /** A scan from no best and a bound every candidate beats finds a
      candidate whenever one is eligible. */
  lemma ScanFindsAboveFloor<T>(xs: seq<T>, eligible: T -> bool, f: T -> real, floor: real)
    requires forall i :: 0 <= i < |xs| ==> f(xs[i]) > floor
    ensures ScanBest(xs, eligible, FinScore(f), Best(None, Fin(floor))).choice.None? ==>
      forall i :: 0 <= i < |xs| ==> !eligible(xs[i])
  {
    var r := ScanBest(xs, eligible, FinScore(f), Best(None, Fin(floor)));
    if r.choice.None? {
      forall i | 0 <= i < |xs| ensures !eligible(xs[i]) {
        assert FinScore(f)(xs[i]) == Fin(f(xs[i]));
      }
    }
  }

  /** The loop itself, proved against `ScanBest`. */
  method FindBest<T>(xs: seq<T>, eligible: T -> bool, score: T -> ExtReal, init: Best<T>)
      returns (best: Best<T>)
    ensures best == ScanBest(xs, eligible, score, init)
  {
    best := init;
    for i := 0 to |xs|
      invariant ScanBest(xs[i..], eligible, score, best) == ScanBest(xs, eligible, score, init)
    {
      assert xs[i..][1..] == xs[i + 1..];
      var x := xs[i];
      if eligible(x) {
        var s := score(x);
        if best.score.Below(s) {
          best := Best(Some(x), s);
        }
      }
    }
    assert xs[|xs|..] == [];
  }
}
