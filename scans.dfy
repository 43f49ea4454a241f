/**
 * The edge scan behind `search_x` and `search_y` (src/backend/mod.rs).
 *
 * A marker found outside the maze's bounding box is moved onto a border row
 * or column of the grid. The scan walks that line of cells, first forward
 * from a start index and then backward from it, looking for the fifth open
 * cell seen after the first wall: that cell is taken as the marker's
 * coordinate along the line, and 1 is the fallback when no scan finds one.
 * The line is given here as its wall flags.
 */
module Scans {
  import opened Common

  /** The scan has met a wall, or started the pass already having met one. */
  predicate Started(ws: seq<bool>, started: bool)
  {
    started || true in ws
  }

  /**
   * How many cells of `ws` a pass counts: the open cells it reaches once a
   * wall has been met (`started` says whether one was met before the pass).
   */
  function OpenCount(ws: seq<bool>, started: bool): (n: nat)
    ensures n <= |ws|
  {
    if ws == [] then 0
    else
      var prefix := ws[..|ws| - 1];
      OpenCount(prefix, started) + (if !ws[|ws| - 1] && Started(prefix, started) then 1 else 0)
  }

  /** The pass reaches its fifth counted cell at index `k`. */
  predicate Fifth(ws: seq<bool>, started: bool, k: int)
  {
    0 <= k < |ws| && !ws[k] && Started(ws[..k], started) && OpenCount(ws[..k], started) == 4
  }

  /** One step of a pass: counting the next cell. */
  lemma OpenCountStep(ws: seq<bool>, started: bool, k: nat)
    requires k < |ws|
    ensures Started(ws[..k + 1], started) <==> Started(ws[..k], started) || ws[k]
    ensures OpenCount(ws[..k + 1], started) ==
      OpenCount(ws[..k], started) + (if !ws[k] && Started(ws[..k], started) then 1 else 0)
  {
    assert ws[..k + 1][..k] == ws[..k];
    assert ws[..k + 1] == ws[..k] + [ws[k]];
  }

  /** Counts never shrink as a pass goes on. */
  lemma {:induction false} OpenCountMonotone(ws: seq<bool>, started: bool, j: nat, k: nat)
    requires j <= k <= |ws|
    ensures OpenCount(ws[..j], started) <= OpenCount(ws[..k], started)
  {
    if j < k {
      OpenCountMonotone(ws, started, j, k - 1);
      OpenCountStep(ws, started, k - 1);
    }
  }

  /** A pass that never met a wall, and did not start with one, counts nothing. */
  lemma {:induction false} OpenCountNeedsWall(ws: seq<bool>)
    requires !Started(ws, false)
    ensures OpenCount(ws, false) == 0
  {
    if ws != [] {
      OpenCountNeedsWall(ws[..|ws| - 1]);
    }
  }

  /** A pass reaches its fifth counted cell at most once. */
  lemma FifthUnique(ws: seq<bool>, started: bool, j: int, k: int)
    requires Fifth(ws, started, j) && Fifth(ws, started, k)
    ensures j == k
  {
    if j < k {
      OpenCountStep(ws, started, j);
      OpenCountMonotone(ws, started, j + 1, k);
    } else if k < j {
      OpenCountStep(ws, started, k);
      OpenCountMonotone(ws, started, k + 1, j);
    }
  }

  /** The count runs through every value up to its total, one step at a time. */
  lemma {:induction false} FifthFound(ws: seq<bool>, started: bool, k: nat)
    requires k <= |ws| && OpenCount(ws[..k], started) >= 5
    ensures exists i | 0 <= i < k :: Fifth(ws, started, i)
  {
    OpenCountStep(ws, started, k - 1);
    if OpenCount(ws[..k - 1], started) >= 5 {
      FifthFound(ws, started, k - 1);
    } else {
      assert Fifth(ws, started, k - 1);
    }
  }

  /** The pass reaches a fifth counted cell somewhere. */
  ghost predicate HasFifth(ws: seq<bool>, started: bool)
  {
    exists k :: Fifth(ws, started, k)
  }

  /** A pass finds its fifth cell exactly when it counts at least five cells. */
  lemma FifthIffFive(ws: seq<bool>, started: bool)
    ensures HasFifth(ws, started) <==> OpenCount(ws, started) >= 5
  {
    assert ws[..|ws|] == ws;
    if OpenCount(ws, started) >= 5 {
      FifthFound(ws, started, |ws|);
    }
    if k :| Fifth(ws, started, k) {
      OpenCountStep(ws, started, k);
      OpenCountMonotone(ws, started, k + 1, |ws|);
    }
  }

  /** The forward pass covers the line from `lo` on. */
  function Forward(ws: seq<bool>, lo: nat): seq<bool>
  {
    if lo <= |ws| then ws[lo..] else []
  }

  /** The backward pass covers the first `hi` cells of the line, last first. */
  function Backward(ws: seq<bool>, hi: nat): (bwd: seq<bool>)
    requires hi <= |ws|
    ensures |bwd| == hi
    ensures forall k | 0 <= k < hi :: bwd[k] == ws[hi - 1 - k]
  {
    seq(hi, k requires 0 <= k < hi => ws[hi - 1 - k])
  }

  /** The backward pass meets cell `j` of the line at its step `hi - 1 - j`. */
  lemma BackwardAt(ws: seq<bool>, hi: nat, j: nat)
    requires j < hi <= |ws|
    ensures Backward(ws, hi)[hi - 1 - j] == ws[j]
  {
  }

  /**
   * The scan of line `ws` from `pos`, whose forward pass starts at
   * `max(pos, corner)`, returns `r`: the index of the forward pass's fifth
   * counted cell; failing that, the index of the backward pass's, which runs
   * from `min(pos, |ws|) - 1` down to 0 with a fresh count but keeps knowing
   * whether a wall was met; failing both, 1.
   */
  ghost predicate ScanOutcome(ws: seq<bool>, pos: nat, corner: nat, r: nat)
  {
    var lo := Max(pos, corner);
    var fwd := Forward(ws, lo);
    var hi := Min(pos, |ws|);
    var bwd := Backward(ws, hi);
    var started := Started(fwd, false);
    if OpenCount(fwd, false) >= 5 then
      Fifth(fwd, false, r - lo)
    else if OpenCount(bwd, started) >= 5 then
      r < hi && Fifth(bwd, started, hi - 1 - r)
    else
      r == 1
  }

  /** The forward pass reaching its fifth cell at index `r` of the line decides the scan. */
  lemma ForwardOutcome(ws: seq<bool>, pos: nat, corner: nat, r: nat)
    requires r >= Max(pos, corner) && Fifth(Forward(ws, Max(pos, corner)), false, r - Max(pos, corner))
    ensures ScanOutcome(ws, pos, corner, r)
  {
    FifthIffFive(Forward(ws, Max(pos, corner)), false);
  }

  /** Failing the forward pass, the backward pass reaching its fifth cell at index `r` decides it. */
  lemma BackwardOutcome(ws: seq<bool>, pos: nat, corner: nat, r: nat)
    requires OpenCount(Forward(ws, Max(pos, corner)), false) < 5
    requires
      var fwd := Forward(ws, Max(pos, corner));
      r < Min(pos, |ws|) && Fifth(Backward(ws, Min(pos, |ws|)), Started(fwd, false), Min(pos, |ws|) - 1 - r)
    ensures ScanOutcome(ws, pos, corner, r)
  {
    var fwd := Forward(ws, Max(pos, corner));
    FifthIffFive(Backward(ws, Min(pos, |ws|)), Started(fwd, false));
  }

  /** Failing both passes, the scan gives 1. */
  lemma FallbackOutcome(ws: seq<bool>, pos: nat, corner: nat)
    requires OpenCount(Forward(ws, Max(pos, corner)), false) < 5
    requires
      var fwd := Forward(ws, Max(pos, corner));
      OpenCount(Backward(ws, Min(pos, |ws|)), Started(fwd, false)) < 5
    ensures ScanOutcome(ws, pos, corner, 1)
  {
    var fwd := Forward(ws, Max(pos, corner));
    FifthIffFive(fwd, false);
    FifthIffFive(Backward(ws, Min(pos, |ws|)), Started(fwd, false));
  }

  /** At most one index is a scan outcome. */
  lemma ScanDeterministic(ws: seq<bool>, pos: nat, corner: nat, r: nat, r': nat)
    requires ScanOutcome(ws, pos, corner, r) && ScanOutcome(ws, pos, corner, r')
    ensures r == r'
  {
    var lo := Max(pos, corner);
    var fwd := Forward(ws, lo);
    var hi := Min(pos, |ws|);
    var bwd := Backward(ws, hi);
    var started := Started(fwd, false);
    if OpenCount(fwd, false) >= 5 {
      FifthUnique(fwd, false, r - lo, r' - lo);
    } else if OpenCount(bwd, started) >= 5 {
      FifthUnique(bwd, started, hi - 1 - r, hi - 1 - r');
    }
  }

  /** Every scan has an outcome. */
  lemma ScanTotal(ws: seq<bool>, pos: nat, corner: nat)
    ensures exists r :: ScanOutcome(ws, pos, corner, r)
  {
    var lo := Max(pos, corner);
    var fwd := Forward(ws, lo);
    var hi := Min(pos, |ws|);
    var bwd := Backward(ws, hi);
    var started := Started(fwd, false);
    if OpenCount(fwd, false) >= 5 {
      FifthIffFive(fwd, false);
      var k :| Fifth(fwd, false, k);
      var r := lo + k;
      assert r - lo == k;
      ForwardOutcome(ws, pos, corner, r);
    } else if OpenCount(bwd, started) >= 5 {
      FifthIffFive(bwd, started);
      var k :| Fifth(bwd, started, k);
      var r := hi - 1 - k;
      assert hi - 1 - r == k;
      BackwardOutcome(ws, pos, corner, r);
    } else {
      FallbackOutcome(ws, pos, corner);
    }
  }

  /** The outcome of the scan of line `ws` from `pos`: the one index `ScanOutcome` allows. */
  ghost function ScanResult(ws: seq<bool>, pos: nat, corner: nat): nat
  {
    ScanTotal(ws, pos, corner);
    var r :| ScanOutcome(ws, pos, corner, r);
    r
  }

  /** `ScanResult` is a scan outcome, and the only one. */
  lemma ScanResultOutcome(ws: seq<bool>, pos: nat, corner: nat, r: nat)
    ensures ScanOutcome(ws, pos, corner, r) <==> r == ScanResult(ws, pos, corner)
  {
    if ScanOutcome(ws, pos, corner, r) {
      ScanDeterministic(ws, pos, corner, r, ScanResult(ws, pos, corner));
    }
  }

  /**
   * The scan lands on an open cell of the line, after the forward start or
   * before `pos`, unless it falls back to 1.
   */
  lemma ScanLandsOnOpen(ws: seq<bool>, pos: nat, corner: nat, r: nat)
    requires ScanOutcome(ws, pos, corner, r)
    ensures r == 1 || (r < |ws| && !ws[r] && (r >= Max(pos, corner) || r < pos))
  {
  }

  /**
   * The forward pass decides the outcome when the line from `max(pos,
   * corner)` on holds a wall followed by at least five open cells.
   */
  lemma ForwardWins(ws: seq<bool>, pos: nat, corner: nat, r: nat)
    requires ScanOutcome(ws, pos, corner, r)
    requires OpenCount(Forward(ws, Max(pos, corner)), false) >= 5
    ensures Max(pos, corner) <= r < |ws| && !ws[r]
  {
    FifthIffFive(Forward(ws, Max(pos, corner)), false);
  }

  /** A line without walls always gives the fallback 1. */
  lemma NoWallFallback(ws: seq<bool>, pos: nat, corner: nat, r: nat)
    requires forall k | 0 <= k < |ws| :: !ws[k]
    requires ScanOutcome(ws, pos, corner, r)
    ensures r == 1
  {
    var lo := Max(pos, corner);
    var fwd := Forward(ws, lo);
    var hi := Min(pos, |ws|);
    var bwd := Backward(ws, hi);
    assert !Started(fwd, false);
    assert !Started(bwd, false);
    OpenCountNeedsWall(fwd);
    OpenCountNeedsWall(bwd);
    FifthIffFive(fwd, false);
    FifthIffFive(bwd, false);
  }

  /**
   * The forward loop of the scan: from index `lo` to the end of the line,
   * it returns the index of the fifth counted cell, or -1 together with
   * whether a wall was met.
   */
  method ForwardPass(ws: seq<bool>, lo: nat) returns (r: int, start: bool)
    ensures r >= 0 ==> lo <= r && Fifth(Forward(ws, lo), false, r - lo)
    ensures r < 0 ==> r == -1 && OpenCount(Forward(ws, lo), false) < 5
    ensures r < 0 ==> start == Started(Forward(ws, lo), false)
  {
    var counter: nat := 0;
    start := false;
    ghost var fwd := Forward(ws, lo);
    var i := lo;
    while i < |ws|
      invariant lo <= i && (lo <= |ws| ==> i <= |ws|) && i - lo <= |fwd|
      invariant counter < 5
      invariant counter == OpenCount(fwd[..i - lo], false)
      invariant start == Started(fwd[..i - lo], false)
    {
      OpenCountStep(fwd, false, i - lo);
      if ws[i] && !start {
        start := true;
      }
      if !ws[i] && start {
        counter := counter + 1;
      }
      if counter >= 5 {
        return i, start;
      }
      i := i + 1;
    }
    assert fwd[..i - lo] == fwd;
    r := -1;
  }

  /**
   * The backward loop of the scan: from index `hi - 1` down to 0, with a
   * fresh count and the wall flag `start` kept from the forward loop, it
   * returns the index of the fifth counted cell, or -1.
   */
  method BackwardPass(ws: seq<bool>, hi: nat, start: bool) returns (r: int)
    requires hi <= |ws|
    ensures r >= 0 ==> r < hi && Fifth(Backward(ws, hi), start, hi - 1 - r)
    ensures r < 0 ==> r == -1 && OpenCount(Backward(ws, hi), start) < 5
  {
    var counter: nat := 0;
    var started := start;
    ghost var bwd := Backward(ws, hi);
    var j := hi;
    while j > 0
      invariant 0 <= j <= hi
      invariant counter < 5
      invariant counter == OpenCount(bwd[..hi - j], start)
      invariant started == Started(bwd[..hi - j], start)
    {
      j := j - 1;
      OpenCountStep(bwd, start, hi - 1 - j);
      BackwardAt(ws, hi, j);
      if ws[j] && !started {
        started := true;
      }
      if !ws[j] && started {
        counter := counter + 1;
      }
      if counter >= 5 {
        return j;
      }
    }
    assert bwd[..hi] == bwd;
    r := -1;
  }

  /**
   * The scan shared by `search_x` and `search_y` over the wall flags of the
   * scanned line: the forward loop from `max(pos, corner)`, then the
   * backward loop from `min(pos, |ws|) - 1`, then the fallback 1.
   */
  method Scan(ws: seq<bool>, pos: nat, corner: nat) returns (r: nat)
    ensures ScanOutcome(ws, pos, corner, r)
    ensures r < |ws| || r == 1
  {
    var lo := Max(pos, corner);
    var i, start := ForwardPass(ws, lo);
    if i >= 0 {
      ForwardOutcome(ws, pos, corner, i);
      return i;
    }
    var hi := Min(pos, |ws|);
    var j := BackwardPass(ws, hi, start);
    if j >= 0 {
      BackwardOutcome(ws, pos, corner, j);
      return j;
    }
    FallbackOutcome(ws, pos, corner);
    r := 1;
  }
}
