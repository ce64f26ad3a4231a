/** Charge tiers by battery voltage (`gbms_msc_voltage_idx` and its merging form). */
module VoltageTier {
  import opened Words

  /** Voltage limits of the tiers, the regulator's voltage resolution, the temperature limits, the first row of
      the profile in use, and the memory from the table of current limits on. */
  datatype Profile = Profile(volt: seq<int>, resolution: nat, temps: seq<int>, firstRow: nat, memory: nat -> nat)
  {
    predicate Valid() {
      |volt| > 0
    }

    /** Where `GBMS_CCCM_LIMITS` looks. */
    function At(t: nat, v: nat): nat {
      (t + firstRow) * |volt| + v
    }

    /** `GBMS_CCCM_LIMITS`, which does not check that it stays in the table. */
    function Limit(t: int, v: int): nat {
      if t >= 0 && v >= 0 then memory(At(t, v)) else 0
    }

    /** The temperature range: the last one whose lower limit is reached, going up from `i`; there is one range
        less than there are limits. */
    function Range(temp: int, i: nat): (r: nat)
      requires i == 0 || i <= |temps| - 2
      ensures i <= r <= Max(0, |temps| - 2)
      ensures forall k :: i < k <= r ==> temp >= temps[k]
      ensures r < |temps| - 2 ==> temp < temps[r + 1]
      decreases |temps| - i
    {
      if i < |temps| - 2 && temp >= temps[i + 1] then Range(temp, i + 1) else i
    }

    /** The first tier whose limit the voltage does not exceed, or the last tier. */
    function Reached(vbatt: int, i: nat): (r: nat)
      requires i < |volt|
      ensures i <= r < |volt|
      ensures r < |volt| - 1 ==> vbatt <= volt[r]
      ensures forall k :: i <= k < r ==> vbatt > volt[k]
      decreases |volt| - i
    {
      if i == |volt| - 1 || vbatt <= volt[i] then i else Reached(vbatt, i + 1)
    }

    /** The tier: one further when the headroom to the limit is under three resolution steps. */
    function Tier(vbatt: int): (r: nat)
      requires Valid()
      ensures r < |volt|
    {
      var i := Reached(vbatt, 0);
      if i != |volt| - 1 && volt[i] - vbatt < resolution * 3 then i + 1 else i
    }

    /** The last tier of a run of equal current limits that starts at `i`, the final tier excepted. */
    function Run(t: int, i: nat): (r: nat)
      requires Valid() && i < |volt|
      ensures i <= r < |volt|
      ensures forall k :: i <= k <= r ==> Limit(t, k) == Limit(t, i)
      ensures r < |volt| - 2 ==> Limit(t, r + 1) != Limit(t, i)
      ensures i < |volt| - 1 ==> r < |volt| - 1
      decreases |volt| - i
    {
      if i < |volt| - 2 && Limit(t, i + 1) == Limit(t, i) then Run(t, i + 1) else i
    }

    function MergedTier(vbatt: int, t: int): nat
      requires Valid()
    {
      if t < 0 || t >= |temps| then Tier(vbatt) else Run(t, Tier(vbatt))
    }
  }

  /** `gbms_msc_temp_idx`. */
  method TempIdx(p: Profile, temp: int) returns (idx: nat)
    ensures idx == p.Range(temp, 0)
  {
    idx := 0;
    while idx < |p.temps| - 2 && temp >= p.temps[idx + 1]
      invariant idx == 0 || idx <= |p.temps| - 2
      invariant p.Range(temp, 0) == p.Range(temp, idx)
    {
      idx := idx + 1;
    }
  }

  /** `gbms_msc_voltage_idx`. */
  method VoltageIdx(p: Profile, vbatt: int) returns (idx: nat)
    requires p.Valid()
    ensures idx == p.Tier(vbatt)
  {
    idx := 0;
    while idx < |p.volt| - 1 && vbatt > p.volt[idx]
      invariant idx < |p.volt|
      invariant p.Reached(vbatt, 0) == p.Reached(vbatt, idx)
    {
      idx := idx + 1;
    }
    if idx != |p.volt| - 1 {
      var vt, headr := p.volt[idx], p.resolution * 3;
      if vt - vbatt < headr {
        idx := idx + 1;
      }
    }
  }

  /** `gbms_msc_voltage_idx_merge_tiers`. */
  method VoltageIdxMergeTiers(p: Profile, vbatt: int, t: int) returns (idx: nat)
    requires p.Valid()
    ensures idx == p.MergedTier(vbatt, t)
  {
    idx := VoltageIdx(p, vbatt);
    if t < 0 || t >= |p.temps| {
      return;
    }
    var ccMax := p.Limit(t, idx);
    while idx < |p.volt| - 2 && ccMax == p.Limit(t, idx + 1)
      invariant idx < |p.volt| && ccMax == p.Limit(t, idx)
      invariant p.Run(t, p.Tier(vbatt)) == p.Run(t, idx)
    {
      idx := idx + 1;
    }
  }

  /** Which tier a voltage selects: the first one whose limit it does not exceed, or the last, if the headroom to
      that limit is three resolution steps or more; the one after it if the headroom is less. */
  lemma {:induction false} TierExact(p: Profile, v: int, i: nat)
    requires p.Valid() && i < |p.volt| && (forall k :: 0 <= k < i ==> v > p.volt[k])
    requires i == |p.volt| - 1 || v <= p.volt[i]
    ensures p.Tier(v) == if i < |p.volt| - 1 && p.volt[i] < v + 3 * p.resolution then i + 1 else i
  {
    assert p.Reached(v, 0) == i;
  }

  /** The table of current limits is laid out row by row, one row to a temperature range, from the first row of
      the profile on. */
  lemma {:induction false} RowMajor(p: Profile, t: nat, v: nat)
    requires p.Valid() && v < |p.volt|
    ensures p.At(0, 0) == p.firstRow * |p.volt|
    ensures p.At(t, v + 1) == p.At(t, v) + 1 && p.At(t + 1, v) == p.At(t, v) + |p.volt|
    ensures p.Limit(t, v) == p.memory(p.At(t, v))
  {
    var n := |p.volt|;
    assert (t + 1 + p.firstRow) * n == (t + p.firstRow) * n + n;
  }

  /** Merging goes as far as the limits stay the same and stops before the last tier; outside the temperature
      limits it does not merge. */
  lemma {:induction false} MergeExact(p: Profile, v: int, t: int)
    requires p.Valid()
    ensures !(0 <= t < |p.temps|) ==> p.MergedTier(v, t) == p.Tier(v)
    ensures 0 <= t < |p.temps| ==>
              var i, m := p.Tier(v), p.MergedTier(v, t);
              && i <= m && (forall k :: i <= k <= m ==> p.Limit(t, k) == p.Limit(t, i))
              && (m < |p.volt| - 2 ==> p.Limit(t, m + 1) != p.Limit(t, i))
              && (m == i || m <= |p.volt| - 2)
  {
  }

  /** A higher battery voltage never selects a lower tier. */
  lemma {:induction false} TierMonotone(p: Profile, v1: int, v2: int)
    requires p.Valid() && v1 <= v2
    ensures p.Tier(v1) <= p.Tier(v2)
  {
  }

  lemma {:induction false} RunMonotone(p: Profile, t: int, i: nat, j: nat)
    requires p.Valid() && i <= j < |p.volt|
    ensures p.Run(t, i) <= p.Run(t, j)
    decreases j - i
  {
    if i < j && i < |p.volt| - 2 && p.Limit(t, i + 1) == p.Limit(t, i) {
      RunMonotone(p, t, i + 1, j);
    }
  }

  /** Merging moves to the same or a later tier with the same current limit, stays in the table, and is
      monotone in the battery voltage too. */
  lemma {:induction false} MergeKeepsLimit(p: Profile, t: int, v1: int, v2: int)
    requires p.Valid() && v1 <= v2
    ensures p.Tier(v1) <= p.MergedTier(v1, t) < |p.volt|
    ensures 0 <= t < |p.temps| ==> p.Limit(t, p.MergedTier(v1, t)) == p.Limit(t, p.Tier(v1))
    ensures p.MergedTier(v1, t) <= p.MergedTier(v2, t)
  {
    TierMonotone(p, v1, v2);
    if 0 <= t < |p.temps| {
      RunMonotone(p, t, p.Tier(v1), p.Tier(v2));
    }
  }

  /** The merge reads a row for every index below the number of temperature limits. It stays in a table of
      `rows` rows exactly if the row is one of them; a profile has one row less than there are limits, so for
      the last index it leaves the rows of the profile. */
  lemma {:induction false} RowInTable(p: Profile, t: nat, v: nat, rows: nat)
    requires p.Valid() && v < |p.volt|
    ensures p.At(t, v) < rows * |p.volt| <==> t + p.firstRow < rows
    ensures rows == p.firstRow + |p.temps| - 1 && t < |p.temps| ==>
              (p.At(t, v) < rows * |p.volt| <==> t != |p.temps| - 1)
  {
    var n := |p.volt|;
    if t + p.firstRow < rows {
      MulMonotone(n, t + p.firstRow + 1, rows);
      assert (t + p.firstRow + 1) * n == (t + p.firstRow) * n + n;
    } else {
      MulMonotone(n, rows, t + p.firstRow);
    }
  }

  /** The callers take the row from the temperature, and with at least two limits that is a row of the profile
      at every temperature, with the merged tier too; with a single limit there is no row and none is right. */
  lemma {:induction false} RangeInTable(p: Profile, temp: int, vbatt: int)
    requires p.Valid() && p.temps != []
    ensures var t := p.Range(temp, 0);
            p.At(t, p.MergedTier(vbatt, t)) < (p.firstRow + |p.temps| - 1) * |p.volt| <==> |p.temps| >= 2
  {
    var t := p.Range(temp, 0);
    MergeKeepsLimit(p, t, vbatt, vbatt);
    RowInTable(p, t, p.MergedTier(vbatt, t), p.firstRow + |p.temps| - 1);
  }
}
