/** Charge-tier statistics (`gbms_stats_update_tier`, `gbms_chg_stats_tier` and the averages logged). */
module TierStats {
  import opened Words

  const MSC_STATES_COUNT: int := 21
  /** Span of a 16-bit count. */
  const COUNT_SPAN: int := 0x1_0000

  datatype ChargeType = Fast | TaperExt | Other

  function Sum(s: seq<int>): int {
    if s == [] then 0 else s[0] + Sum(s[1..])
  }

  lemma {:induction false} SumUpdate(s: seq<int>, i: nat, v: int)
    requires i < |s|
    ensures Sum(s[i := v]) == Sum(s) - s[i] + v
  {
    if i == 0 {
      assert s[i := v][1..] == s[1..];
    } else {
      assert s[i := v][1..] == s[1..][i - 1 := v];
      SumUpdate(s[1..], i - 1, v);
    }
  }

  lemma {:induction false} SumZero(n: nat)
    ensures Sum(seq(n, _ => 0)) == 0
  {
    if n > 0 {
      assert seq(n, _ => 0)[1..] == seq(n - 1, _ => 0);
      SumZero(n - 1);
    }
  }

  /** What unsigned fields of the given span keep of the true values. */
  function Kept(values: seq<int>, span: int): (r: seq<int>)
    requires 0 < span
    ensures |r| == |values|
  {
    seq(|values|, i requires 0 <= i < |values| => values[i] % span)
  }

  /** Adding to one of the fields. */
  lemma KeptAdd(values: seq<int>, span: int, i: nat, n: int)
    requires 0 < span && i < |values|
    ensures Kept(values[i := values[i] + n], span)
            == Kept(values, span)[i := (Kept(values, span)[i] + n) % span]
  {
    ModAdd(values[i], n, span);
  }

  ghost predicate Within(values: seq<int>, span: int) {
    forall i :: 0 <= i < |values| ==> values[i] < span
  }

  ghost predicate Positive(values: seq<int>) {
    forall i :: 0 <= i < |values| ==> 0 <= values[i]
  }

  lemma ResidueExact(v: nat, span: int)
    requires 0 < span
    ensures v % span <= v && (v % span == v <==> v < span)
  {
    assert v == v / span * span + v % span;
    if v < span {
      ModUnique(v, span, 0, v);
    }
  }

  /** The kept values add up to the true total exactly while none has reached the span. */
  lemma {:induction false} KeptExact(values: seq<int>, span: int)
    requires 0 < span && Positive(values)
    ensures Sum(Kept(values, span)) <= Sum(values)
    ensures Sum(Kept(values, span)) == Sum(values) <==> Within(values, span)
  {
    if values != [] {
      assert Kept(values, span)[1..] == Kept(values[1..], span);
      KeptExact(values[1..], span);
      ResidueExact(values[0], span);
      assert Within(values, span) <==> values[0] < span && Within(values[1..], span) by {
        assert forall i :: 0 < i < |values| ==> values[i] == values[1..][i - 1];
      }
    }
  }

  /** The sum of `v` over `n` seconds. */
  function Times(v: int, n: nat): int {
    if n == 0 then 0 else Times(v, n - 1) + v
  }

  lemma {:induction false} TimesIsProduct(v: int, n: nat)
    ensures Times(v, n) == v * n
  {
    if n > 0 {
      TimesIsProduct(v, n - 1);
    }
  }

  /** One measured quantity over a tier: its extremes and its time-weighted sum. */
  datatype Track = Track(min: int, max: int, sum: int)
  {
    /** The sum is what some value between the extremes would give over the time. */
    ghost predicate Within(time: nat) {
      min <= max && Times(min, time) <= sum <= Times(max, time)
    }

    function Add(v: int, elap: int): Track {
      Track(if v < min then v else min, if v > max then v else max, sum + v * elap)
    }
  }

  /** A new sample keeps the sum within the new extremes. */
  lemma TrackAdd(t: Track, time: nat, v: int, elap: nat)
    requires t.Within(time)
    ensures t.Add(v, elap).Within(time + elap)
  {
    var u := t.Add(v, elap);
    TimesOrder(u.min, t.min, time);
    TimesOrder(t.max, u.max, time);
    TimesOrder(u.min, v, elap);
    TimesOrder(v, u.max, elap);
    TimesSplit(u.min, time, elap);
    TimesSplit(u.max, time, elap);
    TimesIsProduct(v, elap);
  }

  lemma {:induction false} TimesOrder(a: int, b: int, n: nat)
    requires a <= b
    ensures Times(a, n) <= Times(b, n)
  {
    if n > 0 {
      TimesOrder(a, b, n - 1);
    }
  }

  lemma {:induction false} TimesSplit(v: int, m: nat, n: nat)
    ensures Times(v, m + n) == Times(v, m) + Times(v, n)
  {
    if n > 0 {
      TimesSplit(v, m, n - 1);
    }
  }

  /** `div_s64`, which truncates toward zero; the log shows 0 when no time has passed. */
  function Average(sum: int, time: nat): int {
    if time == 0 then 0 else TruncDiv(sum, time)
  }

  /** The logged average lies between the extremes once time has been booked; with none it is 0, which
      does so only by chance. */
  lemma {:induction false} AverageWithin(t: Track, time: nat)
    requires t.Within(time)
    ensures time > 0 ==> t.min <= Average(t.sum, time) <= t.max
    ensures time == 0 ==> (t.min <= Average(t.sum, time) <= t.max <==> t.min <= 0 <= t.max)
  {
    if time > 0 {
      TimesIsProduct(t.min, time);
      TimesIsProduct(t.max, time);
      TruncDivWithin(t.min, t.max, t.sum, time);
    }
  }

  lemma TruncDivWithin(low: int, high: int, sum: int, time: nat)
    requires 0 < time && low * time <= sum <= high * time
    ensures low <= TruncDiv(sum, time) <= high
  {
    if sum >= 0 {
      DivMonotone(low * time, sum, time);
      DivMonotone(sum, high * time, time);
      DivExact(low, time);
      DivExact(high, time);
    } else {
      assert (-high) * time == -(high * time) && (-low) * time == -(low * time);
      DivMonotone((-high) * time, -sum, time);
      DivMonotone(-sum, (-low) * time, time);
      DivExact(-high, time);
      DivExact(-low, time);
    }
  }

  /** One reading of the three measured quantities. */
  datatype Sample = Sample(temp: int, ibatt: int, icl: int)

  datatype Tracks = Tracks(temp: Track, ibatt: Track, icl: Track)
  {
    ghost predicate Within(time: nat) {
      temp.Within(time) && ibatt.Within(time) && icl.Within(time)
    }

    /** The first sample sets the extremes and leaves the sums. */
    function Open(s: Sample): Tracks {
      Tracks(temp.(min := s.temp, max := s.temp), ibatt.(min := s.ibatt, max := s.ibatt),
             icl.(min := s.icl, max := s.icl))
    }

    function Add(s: Sample, elap: int): Tracks {
      Tracks(temp.Add(s.temp, elap), ibatt.Add(s.ibatt, elap), icl.Add(s.icl, elap))
    }

    predicate NoSums() {
      temp.sum == 0 && ibatt.sum == 0 && icl.sum == 0
    }
  }

  lemma TracksAdd(t: Tracks, time: nat, s: Sample, elap: nat)
    requires t.Within(time)
    ensures t.Add(s, elap).Within(time + elap)
  {
    TrackAdd(t.temp, time, s.temp, elap);
    TrackAdd(t.ibatt, time, s.ibatt, elap);
    TrackAdd(t.icl, time, s.icl, elap);
  }

  predicate Known(mscState: int) {
    0 <= mscState < MSC_STATES_COUNT
  }

  /** The tables keep the low bits of the true counts and times. */
  ghost predicate Booked(mscCnt: seq<int>, mscElap: seq<int>, counts: seq<int>, elaps: seq<int>) {
    && |counts| == MSC_STATES_COUNT && |elaps| == MSC_STATES_COUNT
    && mscCnt == Kept(counts, COUNT_SPAN) && mscElap == Kept(elaps, WORD)
  }

  class Tier {
    var tempIdx: int
    var socIn: int
    var tempIn: int
    var ccIn: int
    var ccTotal: int
    var timeFast: nat
    var timeTaper: nat
    var timeOther: nat
    var tracks: Tracks
    var sampleCount: int
    var mscCnt: seq<int>
    var mscElap: seq<int>
    /** The true per-state counts and times, of which `mscCnt` keeps 16 bits and `mscElap` 32. */
    ghost var counts: seq<int>
    ghost var elaps: seq<int>
    /** Time of the samples that opened the tier, and what went to no state of the table. */
    ghost var openingTime: int
    ghost var unbookedTime: int
    ghost var unbookedCount: int

    function Time(): nat
      reads this
    {
      timeFast + timeTaper + timeOther
    }

    /** The per-state tables account for every sample, and for all the time but `pending`. */
    ghost predicate Accounted(pending: int)
      reads this
    {
      && Tables() && Positive(counts) && Positive(elaps)
      && Sum(counts) + unbookedCount == sampleCount
      && Sum(elaps) + unbookedTime == Time() + openingTime + pending
    }

    ghost predicate Tables()
      reads this
    {
      Booked(mscCnt, mscElap, counts, elaps)
    }

    ghost predicate Valid()
      reads this
    {
      && Accounted(0)
      && (if socIn == -1 then Time() == 0 && tracks.NoSums() else tracks.Within(Time()))
    }

    /** The tables add up to the samples with a known state and their time exactly while no state has been
        counted 2^16 times, or booked 2^32 seconds. */
    lemma CountsAddUp()
      requires Valid()
      ensures Sum(mscCnt) + unbookedCount == sampleCount <==> Within(counts, COUNT_SPAN)
      ensures Sum(mscElap) + unbookedTime == Time() + openingTime <==> Within(elaps, WORD)
    {
      KeptExact(counts, COUNT_SPAN);
      KeptExact(elaps, WORD);
    }

    /** `gbms_tier_stats_init` on zeroed memory. */
    constructor ()
      ensures Valid() && socIn == -1 && sampleCount == 0
      ensures openingTime == unbookedTime == unbookedCount == 0
    {
      tempIdx, socIn, tempIn, ccIn, ccTotal := -1, -1, 0, 0, 0;
      timeFast, timeTaper, timeOther, sampleCount := 0, 0, 0, 0;
      tracks := Tracks(Track(0, 0, 0), Track(0, 0, 0), Track(0, 0, 0));
      mscCnt, mscElap := seq(MSC_STATES_COUNT, _ => 0), seq(MSC_STATES_COUNT, _ => 0);
      counts, elaps := seq(MSC_STATES_COUNT, _ => 0), seq(MSC_STATES_COUNT, _ => 0);
      openingTime, unbookedTime, unbookedCount := 0, 0, 0;
      SumZero(MSC_STATES_COUNT);
    }

    /** `gbms_chg_stats_tier`: a state outside the table books nothing. */
    method ChgStatsTier(mscState: int, elap: int)
      requires Tables()
      modifies this`mscCnt, this`mscElap, this`counts, this`elaps
      ensures Tables()
      ensures Sum(counts) == old(Sum(counts)) + (if 0 <= mscState < 21 then 1 else 0)
      ensures Sum(elaps) == old(Sum(elaps)) + (if 0 <= mscState < 21 then elap else 0)
      ensures if 0 <= mscState < 21
              then && counts == old(counts)[mscState := old(counts)[mscState] + 1]
                   && elaps == old(elaps)[mscState := old(elaps)[mscState] + elap]
              else counts == old(counts) && elaps == old(elaps)
    {
      if mscState < 0 || mscState >= MSC_STATES_COUNT {
        return;
      }
      SumUpdate(counts, mscState, counts[mscState] + 1);
      SumUpdate(elaps, mscState, elaps[mscState] + elap);
      KeptAdd(counts, COUNT_SPAN, mscState, 1);
      KeptAdd(elaps, WORD, mscState, elap);
      mscCnt := mscCnt[mscState := (mscCnt[mscState] + 1) % COUNT_SPAN];
      mscElap := mscElap[mscState := (mscElap[mscState] + elap) % WORD];
      counts := counts[mscState := counts[mscState] + 1];
      elaps := elaps[mscState := elaps[mscState] + elap];
    }

    /** The first steps of `gbms_stats_update_tier`: book the state, count the sample. */
    method BookState(mscState: int, elap: nat)
      requires Accounted(0)
      modifies this`mscCnt, this`mscElap, this`counts, this`elaps
      modifies this`sampleCount, this`unbookedCount, this`unbookedTime
      ensures Accounted(elap) && sampleCount == old(sampleCount) + 1
      ensures unbookedCount == old(unbookedCount) + (if Known(mscState) then 0 else 1)
      ensures unbookedTime == old(unbookedTime) + (if Known(mscState) then 0 else elap)
    {
      ChgStatsTier(mscState, elap);
      sampleCount := sampleCount + 1;
      if !Known(mscState) {
        unbookedCount, unbookedTime := unbookedCount + 1, unbookedTime + elap;
      }
    }

    /** Elapsed time goes to the charge type the sample was taken in. */
    method BookTime(chgType: ChargeType, elap: nat)
      modifies this`timeFast, this`timeTaper, this`timeOther
      ensures timeFast == old(timeFast) + (if chgType == Fast then elap else 0)
      ensures timeTaper == old(timeTaper) + (if chgType == TaperExt then elap else 0)
      ensures timeOther == old(timeOther) + (if chgType == Other then elap else 0)
      ensures Time() == old(Time()) + elap
    {
      match chgType
      case Fast => timeFast := timeFast + elap;
      case TaperExt => timeTaper := timeTaper + elap;
      case Other => timeOther := timeOther + elap;
    }

    /** What the first sample sets. */
    method Open(tempIdx0: int, sample: Sample, elap: nat, cc: int, socIn0: int)
      requires Accounted(elap) && Time() == 0 && tracks.NoSums()
      modifies this`tempIdx, this`tempIn, this`tracks, this`socIn, this`ccIn, this`ccTotal, this`openingTime
      ensures Accounted(0) && tracks.Within(0)
      ensures tempIdx == tempIdx0 && tempIn == sample.temp && socIn == socIn0 && ccIn == cc && ccTotal == 0
      ensures tracks == old(tracks).Open(sample) && openingTime == old(openingTime) + elap
    {
      tempIdx, tempIn := tempIdx0, sample.temp;
      tracks := tracks.Open(sample);
      socIn, ccIn, ccTotal := socIn0, cc, 0;
      openingTime := openingTime + elap;
      assert Time() == 0;
    }

    /** What every sample after the first adds: time, extremes and sums. */
    method AddSample(tempIdx0: int, sample: Sample, elap: nat, cc: int, chgType: ChargeType)
      requires Accounted(elap) && tracks.Within(Time())
      modifies this`tempIdx, this`timeFast, this`timeTaper, this`timeOther, this`tracks, this`ccTotal
      ensures Accounted(0) && tracks.Within(Time())
      ensures tempIdx == if tempIdx0 == old(tempIdx) then tempIdx0 else -1
      ensures tracks == old(tracks).Add(sample, elap) && Time() == old(Time()) + elap && ccTotal == cc - ccIn
      ensures timeFast == old(timeFast) + (if chgType == Fast then elap else 0)
      ensures timeTaper == old(timeTaper) + (if chgType == TaperExt then elap else 0)
    {
      if tempIdx0 != tempIdx {
        tempIdx := -1;
      }
      TracksAdd(tracks, Time(), sample, elap);
      BookTime(chgType, elap);
      tracks := tracks.Add(sample, elap);
      ccTotal := cc - ccIn;
    }

    /** `gbms_stats_update_tier`. */
    method UpdateTier(
      tempIdx0: int, sample: Sample, elap: nat, cc: int, chgType: ChargeType, mscState: int, socIn0: int)
      requires Valid()
      modifies this
      ensures Valid() && sampleCount == old(sampleCount) + 1
      ensures unbookedCount == old(unbookedCount) + (if Known(mscState) then 0 else 1)
      ensures unbookedTime == old(unbookedTime) + (if Known(mscState) then 0 else elap)
      ensures tempIdx == if old(socIn) == -1 || tempIdx0 == old(tempIdx) then tempIdx0 else -1
      ensures tempIn == if old(socIn) == -1 then sample.temp else old(tempIn)
      ensures if old(socIn) == -1
              then && socIn == socIn0 && ccIn == cc && ccTotal == 0 && tracks == old(tracks).Open(sample)
                   && Time() == old(Time()) && openingTime == old(openingTime) + elap
              else && socIn == old(socIn) && ccIn == old(ccIn) && ccTotal == cc - ccIn
                   && tracks == old(tracks).Add(sample, elap)
                   && Time() == old(Time()) + elap && openingTime == old(openingTime)
                   && timeFast == old(timeFast) + (if chgType == Fast then elap else 0)
                   && timeTaper == old(timeTaper) + (if chgType == TaperExt then elap else 0)
    {
      BookState(mscState, elap);
      if socIn == -1 {
        Open(tempIdx0, sample, elap, cc, socIn0);
        return;
      }
      AddSample(tempIdx0, sample, elap, cc, chgType);
    }
  }
}
