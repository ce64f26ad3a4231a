/** Capacity fade by cycle count (`gbms_aacr_fade10`): piecewise linear between reference points. */
module Fade {
  import opened Words
  import opened Errno

  /** The reference table: cycle counts and, for each, the fade in tenths of a percent. */
  datatype Table = Table(cycles: seq<int>, fades: seq<int>)
  {
    /** Strictly increasing positive cycles, non-decreasing fades. */
    ghost predicate Valid() {
      && |cycles| == |fades| > 0
      && 0 < cycles[0] && 0 <= fades[0]
      && (forall i, j :: 0 <= i < j < |cycles| ==> cycles[i] < cycles[j])
      && (forall i, j :: 0 <= i < j < |cycles| ==> fades[i] <= fades[j])
    }

    /** Where segment `i` starts. */
    function From(i: nat): int
      requires i < |cycles|
    {
      if i == 0 then 0 else cycles[i - 1]
    }

    function FadeFrom(i: nat): int
      requires i < |fades|
    {
      if i == 0 then 0 else fades[i - 1]
    }

    /** The segment a cycle count falls into: the first that ends after it, or the last. */
    function Segment(c: int, i: nat): (r: nat)
      requires i < |cycles|
      ensures i <= r < |cycles|
      ensures r < |cycles| - 1 ==> c < cycles[r]
      ensures forall k :: i <= k < r ==> cycles[k] <= c
      decreases |cycles| - i
    {
      if i == |cycles| - 1 || c < cycles[i] then i else Segment(c, i + 1)
    }

    /** The line through segment `i`. */
    function Line(i: nat, c: int): int
      requires i < |cycles| && |fades| == |cycles| && cycles[i] != From(i)
    {
      TruncDiv((c - From(i)) * (fades[i] - FadeFrom(i)), cycles[i] - From(i)) + FadeFrom(i)
    }

    /** The segment the count falls into does not end where it starts. */
    predicate Divides(c: int) {
      |cycles| == |fades| > 0 && cycles[Segment(c, 0)] != From(Segment(c, 0))
    }

    function Fade10(c: int): int
      requires Divides(c)
    {
      Line(Segment(c, 0), c)
    }
  }

  /** `gbms_aacr_fade10`, for any table with which it does not divide by zero. */
  method Fade10(t: Table, c: int) returns (r: int)
    requires |t.cycles| == |t.fades|
    requires t.cycles != [] && c >= 0 ==> t.Divides(c)
    ensures r == if t.cycles == [] || c < 0 then EINVAL else t.Fade10(c)
  {
    if |t.cycles| == 0 || c < 0 {
      return EINVAL;
    }
    var idx := 0;
    while idx < |t.cycles| - 1
      invariant 0 <= idx <= |t.cycles| - 1
      invariant t.Segment(c, 0) == t.Segment(c, idx)
    {
      if c < t.cycles[idx] {
        break;
      }
      idx := idx + 1;
    }
    var cycleS, fadeS := 0, 0;
    var cycleF, fadeF := t.cycles[idx], t.fades[idx];
    if idx > 0 {
      cycleS, fadeS := t.cycles[idx - 1], t.fades[idx - 1];
    }
    return TruncDiv((c - cycleS) * (fadeF - fadeS), cycleF - cycleS) + fadeS;
  }

  /** On one segment the line rises from the start fade, reaching the end fade at the end. */
  lemma LineMonotone(t: Table, i: nat, c1: int, c2: int)
    requires t.Valid() && i < |t.cycles| && t.From(i) <= c1 <= c2
    ensures t.FadeFrom(i) <= t.Line(i, c1) <= t.Line(i, c2)
  {
    var rise, run := t.fades[i] - t.FadeFrom(i), t.cycles[i] - t.From(i);
    assert rise >= 0 && run > 0;
    var a, b := (c1 - t.From(i)) * rise, (c2 - t.From(i)) * rise;
    assert 0 <= a <= b by {
      assert (c2 - c1) * rise == b - a;
    }
    DivMonotone(a, b, run);
    DivMonotone(0, a, run);
  }

  lemma LineEnds(t: Table, i: nat)
    requires t.Valid() && i < |t.cycles|
    ensures t.Line(i, t.From(i)) == t.FadeFrom(i)
    ensures t.Line(i, t.cycles[i]) == t.fades[i]
  {
    var rise, run := t.fades[i] - t.FadeFrom(i), t.cycles[i] - t.From(i);
    assert run * rise == rise * run;
    DivExact(rise, run);
  }

  /** With a sorted table of positive cycles the segment of a count starts at or before it, and nothing is
      divided by zero. */
  lemma SegmentStarts(t: Table, c: int)
    requires t.Valid() && 0 <= c
    ensures t.From(t.Segment(c, 0)) <= c && t.Divides(c)
  {
  }

  /** Interpolated fade never falls as cycles grow, over all segments and the final extrapolation. */
  lemma {:induction false} FadeMonotone(t: Table, c1: int, c2: int)
    requires t.Valid() && 0 <= c1 <= c2
    ensures t.Divides(c1) && t.Divides(c2)
    ensures 0 <= t.Fade10(c1) <= t.Fade10(c2)
  {
    var i, j := t.Segment(c1, 0), t.Segment(c2, 0);
    SegmentStarts(t, c1);
    SegmentStarts(t, c2);
    if i == j {
      LineMonotone(t, i, c1, c2);
    } else if i < j {
      LineMonotone(t, i, c1, t.cycles[i]);
      LineEnds(t, i);
      LineMonotone(t, j, t.From(j), c2);
      LineEnds(t, j);
      assert t.fades[i] <= t.FadeFrom(j);
    } else {
      assert false;
    }
  }

  /** A reference count other than the last opens the next segment. */
  lemma {:induction false} SegmentAtReference(t: Table, i: nat, k: nat)
    requires t.Valid() && k <= i + 1 < |t.cycles|
    ensures t.Segment(t.cycles[i], k) == i + 1
    decreases i + 1 - k
  {
    if k <= i {
      SegmentAtReference(t, i, k + 1);
    }
  }

  lemma {:induction false} SegmentIs(t: Table, c: int, i: nat, k: nat)
    requires t.Valid() && k <= i < |t.cycles| && (i == 0 || t.cycles[i - 1] <= c)
    requires i == |t.cycles| - 1 || c < t.cycles[i]
    ensures t.Segment(c, k) == i
    decreases i - k
  {
    if k < i {
      assert t.cycles[k] <= t.cycles[i - 1];
      SegmentIs(t, c, i, k + 1);
    }
  }

  /** Before the first reference point the fade is on the line from no fade at no cycles; it starts at zero. */
  lemma {:induction false} FadeBeforeFirst(t: Table, c: int)
    requires t.Valid() && 0 <= c && (|t.cycles| == 1 || c < t.cycles[0])
    ensures t.Divides(c) && 0 <= c * t.fades[0] - t.Fade10(c) * t.cycles[0] < t.cycles[0]
  {
    SegmentIs(t, c, 0, 0);
    TruncDivExact(c * t.fades[0], t.cycles[0]);
  }

  /** Between two reference points, and beyond the last one, the fade is on the line through the points about it,
      rounded down to a whole unit. */
  lemma {:induction false} FadeBetween(t: Table, i: nat, c: int)
    requires t.Valid() && 0 < i < |t.cycles| && t.cycles[i - 1] <= c && (i == |t.cycles| - 1 || c < t.cycles[i])
    ensures t.Divides(c)
    ensures var run, rise := t.cycles[i] - t.cycles[i - 1], t.fades[i] - t.fades[i - 1];
            0 <= (c - t.cycles[i - 1]) * rise - (t.Fade10(c) - t.fades[i - 1]) * run < run
  {
    var run, rise := t.cycles[i] - t.cycles[i - 1], t.fades[i] - t.fades[i - 1];
    SegmentIs(t, c, i, 0);
    assert (c - t.cycles[i - 1]) * rise >= 0;
    TruncDivExact((c - t.cycles[i - 1]) * rise, run);
  }

  /** It passes through every reference point. */
  lemma {:induction false} FadeAtReference(t: Table, i: nat)
    requires t.Valid() && i < |t.cycles|
    ensures t.Divides(t.cycles[i]) && t.Fade10(t.cycles[i]) == t.fades[i]
  {
    if i == |t.cycles| - 1 {
      LineEnds(t, i);
    } else {
      SegmentAtReference(t, i, 0);
      LineEnds(t, i + 1);
    }
  }
}
