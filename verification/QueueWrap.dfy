/** The message queue across the wrap of its 32-bit counters, for any number of slots: undisturbed calls from
    the initial state up to the wrap, and what they deliver there. */
module QueueWrap {
  import opened Words
  import opened Queue

  /** Some run from `s0` ends in `s`. */
  ghost predicate Reached(c: Config, s0: State, s: State)
    requires c.Valid()
  {
    exists es :: s == Run(c, s0, es)
  }

  /** Both sides are between calls, with `t` messages published and `r` released. */
  ghost predicate Calm(c: Config, s: State, t: nat, r: nat) {
    && c.Valid()
    && s.writer == WIdle && s.reader == RIdle
    && |s.mem| == c.slots && (forall i :: 0 <= i < c.slots ==> |s.mem[i]| == c.size)
    && s.tx == t % WORD && s.rx == r % WORD
    && |s.published| == t && s.released == r == |s.delivered|
    && r <= t <= r + c.slots
  }

  lemma Extend(c: Config, s0: State, s: State, e: Event) returns (s': State)
    requires c.Valid() && Reached(c, s0, s)
    ensures s' == Next(c, s, e) && Reached(c, s0, s')
  {
    var es :| s == Run(c, s0, es);
    var longer := es + [e];
    assert longer[..|longer| - 1] == es;
    s' := Next(c, s, e);
    assert s' == Run(c, s0, longer);
  }

  /** The slot with a message stored over its first bytes. */
  function Over(slot: seq<byte>, m: Message): (r: seq<byte>)
    requires |Encode(m)| <= |slot|
    ensures |r| == |slot| && Stored(r, m, |Encode(m)|)
  {
    Encode(m) + slot[|Encode(m)|..]
  }

  /** The writer stores the rest of its message. */
  lemma {:induction false} FillRun(c: Config, s0: State, s: State, k: nat, before: seq<byte>)
    returns (s': State)
    requires c.Valid() && Reached(c, s0, s) && s.writer.WFill? && s.writer.k == k
    requires var e, slot := Encode(s.writer.m), s.writer.slot;
             && slot < |s.mem| && |e| <= |before| && k <= |e|
             && s.mem[slot] == e[..k] + before[k..]
    ensures Reached(c, s0, s')
    ensures s' == s.(mem := s.mem[s.writer.slot := Over(before, s.writer.m)], writer := WRecheck(s.writer.m))
    decreases |before| - k
  {
    var m, slot := s.writer.m, s.writer.slot;
    s' := Extend(c, s0, s, StepWriter);
    if k < |Encode(m)| {
      assert s.mem[slot][k := Encode(m)[k]] == Encode(m)[..k + 1] + before[k + 1..];
      s' := FillRun(c, s0, s', k + 1, before);
    } else {
      assert Encode(m)[..k] == Encode(m);
      assert s.mem[slot := s.mem[slot]] == s.mem;
    }
  }

  /** The first half of an undisturbed write: checked and stored. */
  lemma StoreRun(c: Config, s0: State, s: State, t: nat, r: nat, m: Message)
    returns (s': State)
    requires Calm(c, s, t, r) && Reached(c, s0, s) && t < r + c.slots && Fits(c, m)
    ensures Reached(c, s0, s')
    ensures var slot := c.Slot(t % WORD);
            s' == s.(mem := s.mem[slot := Over(s.mem[slot], m)], writer := WRecheck(m))
  {
    Availability(c, t, r);
    var slot := c.Slot(t % WORD);
    s' := Extend(c, s0, s, StartWrite(m));
    s' := Extend(c, s0, s', StepWriter);
    s' := Extend(c, s0, s', StepWriter);
    assert s' == s.(writer := WFill(m, slot, 0));
    assert s.mem[slot] == Encode(m)[..0] + s.mem[slot][0..];
    s' := FillRun(c, s0, s', 0, s.mem[slot]);
  }

  /** The second half: checked again and published. */
  lemma PublishRun(c: Config, s0: State, s: State, m: Message)
    returns (s': State)
    requires c.Valid() && Reached(c, s0, s) && s.writer == WRecheck(m) && Writable(c, s.tx, s.rx) >= 1
    ensures Reached(c, s0, s')
    ensures s' == s.(tx := Add32(s.tx, 1), wp := Add32(s.wp, 1) % c.size, writer := WIdle,
                     published := s.published + [m], accepted := s.accepted + [m])
  {
    s' := Extend(c, s0, s, StepWriter);
    s' := Extend(c, s0, s', StepWriter);
    assert s' == s.(writer := WPublish(m));
    s' := Extend(c, s0, s', StepWriter);
    s' := Extend(c, s0, s', StepWriter);
  }

  /** A whole undisturbed write. */
  lemma WriteRun(c: Config, s0: State, s: State, t: nat, r: nat, m: Message)
    returns (s': State)
    requires Calm(c, s, t, r) && Reached(c, s0, s) && t < r + c.slots && Fits(c, m)
    ensures Calm(c, s', t + 1, r) && Reached(c, s0, s')
    ensures s'.published == s.published + [m] && s'.delivered == s.delivered
    ensures Stored(s'.mem[c.Slot(t % WORD)], m, |Encode(m)|)
  {
    Availability(c, t, r);
    ModAdd(t, 1, WORD);
    s' := StoreRun(c, s0, s, t, r, m);
    s' := PublishRun(c, s0, s', m);
  }

  /** The reader copies the rest of the payload `all`. */
  lemma {:induction false} CopyRun(c: Config, s0: State, s: State, all: seq<byte>, k: nat)
    returns (s': State)
    requires c.Valid() && Reached(c, s0, s) && s.reader.RCopy? && s.reader.slot < |s.mem|
    requires HEADER + |all| <= |s.mem[s.reader.slot]|
    requires forall i :: 0 <= i < |all| ==> s.mem[s.reader.slot][HEADER + i] == all[i]
    requires k <= |all| == s.reader.length && s.reader.out == all[..k]
    ensures Reached(c, s0, s') && s' == s.(reader := RRecheck(all))
    decreases |all| - k
  {
    s' := Extend(c, s0, s, StepReader);
    if k < |all| {
      assert all[..k] + [all[k]] == all[..k + 1];
      assert s' == s.(reader := RCopy(s.reader.slot, |all|, all[..k + 1]));
      s' := CopyRun(c, s0, s', all, k + 1);
    } else {
      assert all[..k] == all;
    }
  }

  /** The first half of an undisturbed read: checked and copied. */
  lemma FetchRun(c: Config, s0: State, s: State, t: nat, r: nat, m: Message)
    returns (s': State)
    requires Calm(c, s, t, r) && Reached(c, s0, s) && r < t && Fits(c, m)
    requires Stored(s.mem[c.Slot(r % WORD)], m, |Encode(m)|)
    ensures Reached(c, s0, s') && s' == s.(reader := RRecheck(Clip(m)))
  {
    Availability(c, t, r);
    HeaderRead(s.mem[c.Slot(r % WORD)], m);
    s' := Extend(c, s0, s, StartRead(|m|));
    s' := Extend(c, s0, s', StepReader);
    s' := Extend(c, s0, s', StepReader);
    assert s' == s.(reader := RCopy(c.Slot(r % WORD), |Clip(m)|, []));
    s' := CopyRun(c, s0, s', Clip(m), 0);
  }

  /** The second half: checked again and released. */
  lemma ReleaseRun(c: Config, s0: State, s: State, out: seq<byte>)
    returns (s': State)
    requires c.Valid() && Reached(c, s0, s) && s.reader == RRecheck(out) && Readable(c, s.tx, s.rx) >= 1
    ensures Reached(c, s0, s')
    ensures s' == s.(rx := Add32(s.rx, 1), rp := Add32(s.rp, 1) % c.size, reader := RIdle,
                     released := s.released + 1, delivered := s.delivered + [out])
  {
    s' := Extend(c, s0, s, StepReader);
    s' := Extend(c, s0, s', StepReader);
    assert s' == s.(reader := RPublish(out));
    s' := Extend(c, s0, s', StepReader);
    s' := Extend(c, s0, s', StepReader);
  }

  lemma CalmReleased(c: Config, s: State, s': State, t: nat, r: nat, out: seq<byte>)
    requires Calm(c, s, t, r) && r < t
    requires s' == s.(rx := Add32(s.rx, 1), rp := s'.rp, released := s.released + 1, delivered := s.delivered + [out])
    ensures Calm(c, s', t, r + 1)
  {
    ModAdd(r, 1, WORD);
  }

  /** A whole undisturbed read: it delivers what the slot of its counter holds. */
  lemma ReadRun(c: Config, s0: State, s: State, t: nat, r: nat, m: Message)
    returns (s': State)
    requires Calm(c, s, t, r) && Reached(c, s0, s) && r < t && Fits(c, m)
    requires Stored(s.mem[c.Slot(r % WORD)], m, |Encode(m)|)
    ensures Calm(c, s', t, r + 1) && Reached(c, s0, s')
    ensures s'.published == s.published && s'.delivered == s.delivered + [Clip(m)]
  {
    assert Readable(c, s.tx, s.rx) >= 1 by {
      Availability(c, t, r);
    }
    s' := FetchRun(c, s0, s, t, r, m);
    s' := ReleaseRun(c, s0, s', Clip(m));
    CalmReleased(c, s, s', t, r, Clip(m));
  }

  /** `n` messages go through, one at a time. */
  lemma {:induction false} Rounds(c: Config, s0: State, n: nat) returns (s: State)
    requires c.Valid() && Initial(c, s0)
    ensures Calm(c, s, n, n) && Reached(c, s0, s)
  {
    s := s0;
    assert s0 == Run(c, s0, []);
    if n > 0 {
      s := Rounds(c, s0, n - 1);
      s := WriteRun(c, s0, s, n - 1, n - 1, []);
      s := ReadRun(c, s0, s, n, n - 1, []);
    }
  }

  /** `n` more messages are written and not read. */
  lemma {:induction false} WriteMany(c: Config, s0: State, s: State, t: nat, r: nat, n: nat, m: Message)
    returns (s': State)
    requires Calm(c, s, t, r) && Reached(c, s0, s) && t + n <= r + c.slots && Fits(c, m)
    ensures Calm(c, s', t + n, r) && Reached(c, s0, s')
    ensures s.published <= s'.published && s'.delivered == s.delivered
    decreases n
  {
    s' := s;
    if n > 0 {
      s' := WriteMany(c, s0, s, t, r, n - 1, m);
      s' := WriteRun(c, s0, s', t + n - 1, r, m);
    }
  }

  /** What was read is what was written, in order, but for what the length field cuts off. */
  ghost predicate Ordered(s: State) {
    && |s.delivered| <= |s.published|
    && forall i :: 0 <= i < |s.delivered| ==> s.delivered[i] == Clip(s.published[i])
  }

  /** The counter values at the wrap that share slot 0, for a number of slots that does not divide 2^32. */
  lemma Clash(c: Config) returns (n: nat)
    requires c.Valid() && WORD % c.slots != 0
    ensures 0 < n < WORD < n + c.slots && c.Slot(n % WORD) == c.Slot(WORD % WORD)
  {
    var q := WORD / c.slots;
    n := q * c.slots;
    assert WORD == n + WORD % c.slots;
    ModUnique(n, c.slots, q, 0);
  }

  /** The message after the wrap goes into the slot of one that is still unread. */
  lemma {:induction false} WriteAcross(c: Config, s0: State, n: nat) returns (s: State)
    requires c.Valid() && HEADER < c.size && Initial(c, s0) && n < WORD < n + c.slots
    ensures Calm(c, s, WORD + 1, n) && Reached(c, s0, s)
    ensures s.published[n] == [0] && Stored(s.mem[c.Slot(WORD % WORD)], [1], |Encode([1])|)
  {
    s := Rounds(c, s0, n);
    s := WriteRun(c, s0, s, n, n, [0]);
    assert s.published[n] == [0];
    s := WriteMany(c, s0, s, n + 1, n, WORD - n - 1, [1]);
    assert s.published[n] == [0];
    s := WriteRun(c, s0, s, WORD, n, [1]);
  }

  /** If the number of slots does not divide 2^32, that message is read in the place of the unread one. */
  lemma {:induction false} WrapOverwrites(c: Config, s0: State) returns (es: seq<Event>)
    requires c.Valid() && HEADER < c.size && WORD % c.slots != 0 && Initial(c, s0)
    ensures !Ordered(Run(c, s0, es))
  {
    var n := Clash(c);
    var s: State;
    s := WriteAcross(c, s0, n);
    s := ReadRun(c, s0, s, WORD + 1, n, [1]);
    ClipExact([0]);
    ClipExact([1]);
    assert s.delivered[n] == [1] && s.published[n] == [0];
    es :| s == Run(c, s0, es);
  }

  /** A queue whose slots hold more than a header keeps every run in order exactly when the number of slots
      divides 2^32. */
  lemma {:induction false} SurvivesWrapExactly(c: Config)
    requires c.Valid() && HEADER < c.size
    ensures (forall s0, es :: Initial(c, s0) ==> Ordered(Run(c, s0, es))) <==> WORD % c.slots == 0
  {
    if WORD % c.slots == 0 {
      forall s0, es | Initial(c, s0)
        ensures Ordered(Run(c, s0, es))
      {
        QueueSafe(c, s0, es);
      }
    } else {
      var slot := seq(c.size, _ => 0);
      var s0 := State(0, 0, 0, 0, seq(c.slots, _ => slot), WIdle, RIdle, [], [], 0, []);
      var es := WrapOverwrites(c, s0);
      assert Initial(c, s0) && !Ordered(Run(c, s0, es));
    }
  }
}
