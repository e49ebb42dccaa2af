/**
 The burn section's time-frame button: clicking it moves to the next time
 frame of the list, wrapping from the last back to the first. The concrete
 list is defined outside this model, so the rule is stated over any sequence.
 */
module TimeFrames {

  /** The first position at or after `from` holding `x`, or -1 when there is none. */
  function IndexOfFrom<T(==)>(frames: seq<T>, x: T, from: nat): (i: int)
    ensures i == -1 || from <= i < |frames|
    decreases |frames| - from
  {
    if from >= |frames| then -1
    else if frames[from] == x then from
    else IndexOfFrom(frames, x, from + 1)
  }

  /**
   What the search finds: a position holding `x` with no earlier one at or
   after `from`, and -1 exactly when no position from `from` on holds `x`.
   */
  lemma {:induction false} IndexOfFromFinds<T>(frames: seq<T>, x: T, from: nat)
    ensures var i := IndexOfFrom(frames, x, from);
      i >= 0 ==> frames[i] == x && forall j :: from <= j < i ==> frames[j] != x
    ensures IndexOfFrom(frames, x, from) == -1 <==> forall j :: from <= j < |frames| ==> frames[j] != x
    decreases |frames| - from
  {
    if from < |frames| && frames[from] != x {
      IndexOfFromFinds(frames, x, from + 1);
    }
  }

  /** `indexOf`: the first position of `x` in `frames`, or -1 when absent. */
  function IndexOf<T(==)>(frames: seq<T>, x: T): (i: int)
    ensures -1 <= i < |frames|
  {
    IndexOfFrom(frames, x, 0)
  }

  /** `indexOf` returns the first position holding the frame, and -1 exactly when it is not listed. */
  lemma IndexOfFinds<T>(frames: seq<T>, x: T)
    ensures var i := IndexOf(frames, x);
      i >= 0 ==> frames[i] == x && forall j :: 0 <= j < i ==> frames[j] != x
    ensures IndexOf(frames, x) == -1 <==> x !in frames
  {
    IndexOfFromFinds(frames, x, 0);
  }

  /** The frame a click selects: the one after the current frame's first occurrence, cyclically. */
  function NextTimeFrame<T(==)>(frames: seq<T>, current: T): (next: T)
    requires |frames| > 0
    ensures next in frames
  {
    var i := IndexOf(frames, current);
    var nextIndex := if i == |frames| - 1 then 0 else i + 1;
    frames[nextIndex]
  }

  /** No frame is listed twice. */
  predicate Distinct<T(==)>(frames: seq<T>) {
    forall i, j :: 0 <= i < j < |frames| ==> frames[i] != frames[j]
  }

  /** In a list without repeats a frame's first occurrence is its position. */
  lemma IndexOfDistinct<T>(frames: seq<T>, i: int)
    requires Distinct(frames) && 0 <= i < |frames|
    ensures IndexOf(frames, frames[i]) == i
  {
    IndexOfFinds(frames, frames[i]);
  }

  /** From the last frame the click wraps to the first. */
  lemma LastWrapsToFirst<T>(frames: seq<T>)
    requires |frames| > 0 && Distinct(frames)
    ensures NextTimeFrame(frames, frames[|frames| - 1]) == frames[0]
  {
    IndexOfDistinct(frames, |frames| - 1);
  }

  /** From any other listed frame the click moves to the following one. */
  lemma AdvancesToFollowing<T>(frames: seq<T>, i: int)
    requires Distinct(frames) && 0 <= i < |frames| - 1
    ensures NextTimeFrame(frames, frames[i]) == frames[i + 1]
  {
    IndexOfDistinct(frames, i);
  }

  /** A frame missing from the list (index -1) moves to the first frame. */
  lemma UnlistedGoesToFirst<T>(frames: seq<T>, current: T)
    requires |frames| > 0 && current !in frames
    ensures NextTimeFrame(frames, current) == frames[0]
  {
    IndexOfFinds(frames, current);
  }

  /** `k` clicks starting from `current`. */
  function Clicks<T(==)>(frames: seq<T>, current: T, k: nat): T
    requires |frames| > 0
  {
    if k == 0 then current else NextTimeFrame(frames, Clicks(frames, current, k - 1))
  }

  /** One more click is one more step. */
  lemma ClicksUnfold<T>(frames: seq<T>, current: T, k: nat)
    requires |frames| > 0 && k > 0
    ensures Clicks(frames, current, k) == NextTimeFrame(frames, Clicks(frames, current, k - 1))
  {
  }

  /** Position `m` of a list of length `n`, wrapped once past the end. */
  function Wrap(m: nat, n: nat): nat {
    if m < n then m else m - n
  }

  /** In a list without repeats a click moves one position on, wrapping past the end. */
  lemma ClickStep<T>(frames: seq<T>, j: nat)
    requires Distinct(frames) && j < |frames|
    ensures Wrap(j + 1, |frames|) < |frames|
    ensures NextTimeFrame(frames, frames[j]) == frames[Wrap(j + 1, |frames|)]
  {
    if j == |frames| - 1 {
      LastWrapsToFirst(frames);
    } else {
      AdvancesToFollowing(frames, j);
    }
  }

  /** Advancing a wrapped position by one wraps the advanced position. */
  lemma WrapSucc(i: nat, k: nat, n: nat)
    requires i < n && 0 < k <= n
    ensures Wrap(i + (k - 1), n) + 1 <= n + 1
    ensures Wrap(Wrap(i + (k - 1), n) + 1, n) == Wrap(i + k, n)
  {
  }

  /** If the k - 1 clicks reach `before` and a click from `before` gives `after`, k clicks give `after`. */
  lemma ClicksThrough<T>(frames: seq<T>, current: T, k: nat, before: T, after: T)
    requires |frames| > 0 && k > 0
    requires Clicks(frames, current, k - 1) == before
    requires NextTimeFrame(frames, before) == after
    ensures Clicks(frames, current, k) == after
  {
    ClicksUnfold(frames, current, k);
  }

  /** In a list without repeats, k clicks (at most the list length) from position i reach position i + k, wrapped once past the end. */
  lemma {:induction false} ClicksRotate<T>(frames: seq<T>, i: nat, k: nat)
    requires Distinct(frames) && i < |frames| && k <= |frames|
    ensures Wrap(i + k, |frames|) < |frames|
    ensures Clicks(frames, frames[i], k) == frames[Wrap(i + k, |frames|)]
    decreases k
  {
    if k > 0 {
      ClicksRotate(frames, i, k - 1);
      var j := Wrap(i + (k - 1), |frames|);
      ClickStep(frames, j);
      WrapSucc(i, k, |frames|);
      ClicksThrough(frames, frames[i], k, frames[j], frames[Wrap(i + k, |frames|)]);
    }
  }

  /** In a list without repeats, clicking once per listed frame returns to the starting frame. */
  lemma FullCycleReturns<T>(frames: seq<T>, i: int)
    requires Distinct(frames) && 0 <= i < |frames|
    ensures Clicks(frames, frames[i], |frames|) == frames[i]
  {
    ClicksRotate(frames, i, |frames|);
  }
}
