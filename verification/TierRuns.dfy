/** A tier over all its samples: what the statistics logged at its end say about them. */
module TierRuns {
  import opened Words
  import opened TierStats

  /** One call of `gbms_stats_update_tier`. */
  datatype Booking = Booking(tempIdx: int, sample: Sample, elap: nat, cc: int, chgType: ChargeType, mscState: int)

  /** The readings weighted with the times. */
  function Weighted(vs: seq<int>, times: seq<int>): int
    requires |vs| == |times|
  {
    if vs == [] then 0
    else Weighted(vs[..|vs| - 1], times[..|times| - 1]) + vs[|vs| - 1] * times[|times| - 1]
  }

  function Temps(bs: seq<Booking>): seq<int> {
    seq(|bs|, i requires 0 <= i < |bs| => bs[i].sample.temp)
  }

  function Ibatts(bs: seq<Booking>): seq<int> {
    seq(|bs|, i requires 0 <= i < |bs| => bs[i].sample.ibatt)
  }

  function Icls(bs: seq<Booking>): seq<int> {
    seq(|bs|, i requires 0 <= i < |bs| => bs[i].sample.icl)
  }

  function Elaps(bs: seq<Booking>): seq<int> {
    seq(|bs|, i requires 0 <= i < |bs| => bs[i].elap)
  }

  /** The time booked to one charge type. */
  function TimeIn(bs: seq<Booking>, chgType: ChargeType): nat {
    if bs == [] then 0
    else TimeIn(bs[..|bs| - 1], chgType) + if bs[|bs| - 1].chgType == chgType then bs[|bs| - 1].elap else 0
  }

  /** The extremes are those of the opening reading `v` and the later ones `vs`, and the sum weights the later ones
      with their times. */
  ghost predicate Sums(t: Track, v: int, vs: seq<int>, times: seq<int>) {
    && |vs| == |times| && t.sum == Weighted(vs, times)
    && t.min <= v <= t.max && (forall i :: 0 <= i < |vs| ==> t.min <= vs[i] <= t.max)
    && (t.min == v || t.min in vs) && (t.max == v || t.max in vs)
  }

  lemma SumsAdd(t: Track, v: int, vs: seq<int>, times: seq<int>, w: int, time: int)
    requires Sums(t, v, vs, times)
    ensures Sums(t.Add(w, time), v, vs + [w], times + [time])
  {
    var ws, ts := vs + [w], times + [time];
    assert ws[..|ws| - 1] == vs && ts[..|ts| - 1] == times;
    assert w in ws;
  }

  /** The tracks of a tier opened by `b` and fed `bs`. */
  ghost predicate Tells(t: Tracks, b: Booking, bs: seq<Booking>) {
    && Sums(t.temp, b.sample.temp, Temps(bs), Elaps(bs))
    && Sums(t.ibatt, b.sample.ibatt, Ibatts(bs), Elaps(bs))
    && Sums(t.icl, b.sample.icl, Icls(bs), Elaps(bs))
  }

  lemma TellsAdd(t: Tracks, b: Booking, bs: seq<Booking>, next: Booking)
    requires Tells(t, b, bs)
    ensures Tells(t.Add(next.sample, next.elap), b, bs + [next])
  {
    var more := bs + [next];
    assert Elaps(more) == Elaps(bs) + [next.elap];
    assert Temps(more) == Temps(bs) + [next.sample.temp];
    assert Ibatts(more) == Ibatts(bs) + [next.sample.ibatt];
    assert Icls(more) == Icls(bs) + [next.sample.icl];
    SumsAdd(t.temp, b.sample.temp, Temps(bs), Elaps(bs), next.sample.temp, next.elap);
    SumsAdd(t.ibatt, b.sample.ibatt, Ibatts(bs), Elaps(bs), next.sample.ibatt, next.elap);
    SumsAdd(t.icl, b.sample.icl, Icls(bs), Elaps(bs), next.sample.icl, next.elap);
  }

  /** The temperature range is kept while all samples agree on it. */
  function CommonRange(b: Booking, bs: seq<Booking>): int {
    if forall i :: 0 <= i < |bs| ==> bs[i].tempIdx == b.tempIdx then b.tempIdx else -1
  }

  ghost predicate Times(tier: Tier, bs: seq<Booking>)
    reads tier
  {
    && tier.timeFast == TimeIn(bs, Fast) && tier.timeTaper == TimeIn(bs, TaperExt)
    && tier.timeOther == TimeIn(bs, Other)
  }

  lemma TimeInAdd(bs: seq<Booking>, next: Booking, chgType: ChargeType)
    ensures TimeIn(bs + [next], chgType) == TimeIn(bs, chgType) + if next.chgType == chgType then next.elap else 0
  {
    assert (bs + [next])[..|bs|] == bs;
  }

  lemma CommonRangeAdd(b: Booking, bs: seq<Booking>, next: Booking)
    ensures CommonRange(b, bs + [next])
            == if next.tempIdx == CommonRange(b, bs) then CommonRange(b, bs) else -1
  {
    var more := bs + [next];
    assert more[|bs|] == next;
    if CommonRange(b, bs) != b.tempIdx {
      var i :| 0 <= i < |bs| && bs[i].tempIdx != b.tempIdx;
      assert more[i].tempIdx != b.tempIdx;
    }
  }

  /** A tier opened by `b` and fed `bs`: extremes over all readings, each attained, sums of the readings after the
      first weighted with their times, times by charge type, the charge from the first sample to the last. */
  ghost predicate Fed(tier: Tier, b: Booking, bs: seq<Booking>, socIn: int)
    reads tier
  {
    && tier.Valid() && Tells(tier.tracks, b, bs) && Times(tier, bs)
    && tier.socIn == socIn && tier.tempIn == b.sample.temp && tier.sampleCount == |bs| + 1
    && tier.ccIn == b.cc && tier.ccTotal == (if bs == [] then 0 else bs[|bs| - 1].cc - b.cc)
    && tier.tempIdx == CommonRange(b, bs)
  }

  method FeedNext(tier: Tier, b: Booking, bs: seq<Booking>, next: Booking, socIn: int)
    requires socIn != -1 && Fed(tier, b, bs, socIn)
    modifies tier
    ensures Fed(tier, b, bs + [next], socIn)
  {
    TellsAdd(tier.tracks, b, bs, next);
    TimeInAdd(bs, next, Fast);
    TimeInAdd(bs, next, TaperExt);
    TimeInAdd(bs, next, Other);
    CommonRangeAdd(b, bs, next);
    tier.UpdateTier(next.tempIdx, next.sample, next.elap, next.cc, next.chgType, next.mscState, socIn);
  }

  method Feed(b: Booking, bs: seq<Booking>, socIn: int) returns (tier: Tier)
    requires socIn != -1
    ensures fresh(tier) && Fed(tier, b, bs, socIn)
  {
    tier := new Tier();
    tier.UpdateTier(b.tempIdx, b.sample, b.elap, b.cc, b.chgType, b.mscState, socIn);
    var n := 0;
    assert bs[..0] == [];
    while n < |bs|
      invariant 0 <= n <= |bs| && fresh(tier) && Fed(tier, b, bs[..n], socIn)
    {
      FeedNext(tier, b, bs[..n], bs[n], socIn);
      assert bs[..n + 1] == bs[..n] + [bs[n]];
      n := n + 1;
    }
    assert bs[..n] == bs;
  }

  /** The logged average, times the time booked, falls short of the weighted sum by less than the time. */
  lemma {:induction false} AverageExact(t: Track, v: int, vs: seq<int>, times: seq<int>, time: nat)
    requires Sums(t, v, vs, times)
    ensures var rest := Weighted(vs, times) - Average(t.sum, time) * time;
            time > 0 ==> 0 - time < rest < time && (t.sum >= 0 ==> rest >= 0) && (t.sum <= 0 ==> rest <= 0)
    ensures time == 0 ==> Average(t.sum, time) == 0
  {
    if time > 0 {
      TruncDivExact(t.sum, time);
    }
  }
}
