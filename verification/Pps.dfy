/** The PPS adapter driver (`google_dc_pps.c`): the stage machine that detects a programmable supply, and
    the deadline by which the adapter has to be contacted again. Adapter answers and the clock are inputs. */
module Pps {
  import opened Errno

  const NSEC_PER_SEC: int := 1_000_000_000
  const NSEC_PER_MSEC: int := 1_000_000
  const PD_T_PPS_TIMEOUT: int := 9000
  const PD_T_PPS_DEADLINE_S: int := 7
  /** Sink PPS periodic request limit, section 6.6.10 of USB Power Delivery Revision 3.0: 10 seconds. */
  const PPS_REQUEST_LIMIT: int := 10 * NSEC_PER_SEC
  /** The shortest delay a call asks for, other than none. */
  const SHORTEST_DELAY: int := PD_T_PPS_TIMEOUT - (PD_T_PPS_DEADLINE_S - 1) * 1000
  const UINT_MAX: int := 0xFFFF_FFFF

  datatype Stage = NotSupp | Disabled | None | Available | Active

  const OFFLINE: int := 0
  const FIXED_ONLINE: int := 1
  const PROG_ONLINE: int := 2

  /** `get_boot_sec()` at a time in nanoseconds. */
  function BootSec(now: nat): nat {
    now / NSEC_PER_SEC
  }

  // ---------------------------------------------------------------------------------------------
  // The contact deadline

  /** The real times of one pass over the adapter: when it starts, when the driver reads the clock for the
      interval, when the adapter gets the request (if one is made), when the driver reads the clock for its
      stamp, and when the pass is over. */
  datatype Timing = Timing(start: nat, read: nat, request: nat, stamp: nat, end: nat)
  {
    predicate Within(latency: nat) {
      start <= read <= request <= stamp <= end <= start + latency
    }

    function Made(): Contact { Contact(request, stamp) }
  }

  /** The last stamped contact with the adapter and the moment the driver stamped it. */
  datatype Contact = Contact(at: nat, stamp: nat)
  {
    predicate Within(latency: nat) {
      at <= stamp <= at + latency
    }
  }

  /** What `pps_update_adapter` decides: whether it makes contact, and the delay in milliseconds it returns
      if that succeeds; `more` if a second change is pending behind the first. */
  function Plan(lastUpdate: int, t: Timing, change: bool, more: bool): (bool, int) {
    var interval := BootSec(t.read) - lastUpdate;
    if change then (true, if more then 0 else PD_T_PPS_TIMEOUT)
    else if interval < PD_T_PPS_DEADLINE_S then (false, PD_T_PPS_TIMEOUT - interval * 1000)
    else (true, PD_T_PPS_TIMEOUT)
  }

  /** A pass that detects the adapter and contacts it for that, or one that updates it. */
  datatype Call = Detection(t: Timing) | Update(t: Timing, change: bool, more: bool)

  /** Whether a call makes contact, and the delay it asks for, adapter requests succeeding. */
  function Outcome(last: Contact, c: Call): (bool, int) {
    match c
    case Detection(_) => (true, PD_T_PPS_TIMEOUT)
    case Update(t, change, more) => Plan(BootSec(last.stamp), t, change, more)
  }

  function After(last: Contact, c: Call): Contact {
    if Outcome(last, c).0 then c.t.Made() else last
  }

  /** The moment by which the next call has to start. A zero return, which follows a contact, is followed
      up within the normal timeout. */
  function Due(end: nat, delay: int): int {
    end + (if delay > 0 then delay else PD_T_PPS_TIMEOUT) * NSEC_PER_MSEC
  }

  /** Every call takes at most `latency`, and starts after the one before it and by the time that asked for. */
  predicate Timely(last: Contact, calls: seq<Call>, latency: nat)
    decreases |calls|
  {
    calls != [] ==>
      && calls[0].t.Within(latency)
      && (|calls| >= 2 ==>
            calls[0].t.end <= calls[1].t.start <= Due(calls[0].t.end, Outcome(last, calls[0]).1))
      && Timely(After(last, calls[0]), calls[1..], latency)
  }

  /** The times at which the adapter was contacted, beginning with the last contact before the run. */
  function Contacts(last: Contact, calls: seq<Call>): (cs: seq<nat>)
    ensures cs != [] && cs[0] == last.at
    decreases |calls|
  {
    if calls == [] then [last.at]
    else (if Outcome(last, calls[0]).0 then [last.at] else []) + Contacts(After(last, calls[0]), calls[1..])
  }

  /** The delays the calls ask for. */
  function Delays(last: Contact, calls: seq<Call>): seq<int>
    decreases |calls|
  {
    if calls == [] then [] else [Outcome(last, calls[0]).1] + Delays(After(last, calls[0]), calls[1..])
  }

  /** Whatever a call does, the next one is due less than ten seconds and twice the latency after the last
      contact: the whole-second rounding is covered. It is never due sooner than three seconds after. */
  lemma {:induction false} DueWithinLimit(last: Contact, c: Call, latency: nat)
    requires c.t.Within(latency) && last.Within(latency) && last.stamp <= c.t.start
    ensures var last', delay := After(last, c), Outcome(last, c).1;
            && last'.Within(latency) && last'.stamp <= c.t.end && 0 <= delay
            && Due(c.t.end, delay) - last'.at < PPS_REQUEST_LIMIT + 2 * latency
            && Due(c.t.end, delay) >= c.t.end + SHORTEST_DELAY * NSEC_PER_MSEC
  {
    var interval := BootSec(c.t.read) - BootSec(last.stamp);
    assert c.t.read - last.stamp < (interval + 1) * NSEC_PER_SEC;
  }

  /** Successive contacts are less than ten seconds apart, plus three times the latency. */
  ghost predicate Spaced(cs: seq<nat>, latency: nat) {
    forall k :: 0 <= k < |cs| - 1 ==> cs[k] <= cs[k + 1] < cs[k] + PPS_REQUEST_LIMIT + 3 * latency
  }

  /** The run may start: its first call comes after the last contact and less than ten seconds and twice the
      latency later, which is what `DueWithinLimit` promises of any call before it. */
  ghost predicate Entered(last: Contact, calls: seq<Call>, latency: nat) {
    && last.Within(latency)
    && (calls != [] ==> last.stamp <= calls[0].t.start < last.at + PPS_REQUEST_LIMIT + 2 * latency)
  }

  /** In every run of calls that honours the returned delays, successive contacts, those of the detection
      included, are less than ten seconds apart, plus three times the longest call: under ten seconds if
      calls take no time. */
  lemma {:induction false} ContactsWithinLimit(last: Contact, calls: seq<Call>, latency: nat)
    requires Entered(last, calls, latency) && Timely(last, calls, latency)
    ensures Spaced(Contacts(last, calls), latency)
    decreases |calls|
  {
    if calls != [] {
      var last' := After(last, calls[0]);
      DueWithinLimit(last, calls[0], latency);
      ContactsWithinLimit(last', calls[1..], latency);
      var rest := Contacts(last', calls[1..]);
      if Outcome(last, calls[0]).0 {
        var cs := [last.at] + rest;
        forall k | 0 <= k < |cs| - 1
          ensures cs[k] <= cs[k + 1] < cs[k] + PPS_REQUEST_LIMIT + 3 * latency
        {
          if k > 0 {
            assert cs[k] == rest[k - 1] && cs[k + 1] == rest[k];
          }
        }
      }
    }
  }

  /** The bound is reached for every latency, so any latency at all breaks the ten seconds: a stamp late by
      the latency, a call just before the seventh second, and a keep-alive that takes its time. */
  lemma LimitReached(latency: nat) returns (last: Contact, calls: seq<Call>)
    ensures Entered(last, calls, latency) && Timely(last, calls, latency)
    ensures var cs := Contacts(last, calls);
            |cs| == 2 && cs[1] == cs[0] + PPS_REQUEST_LIMIT + 3 * latency - 1
  {
    var u := (latency + 1) * NSEC_PER_SEC;
    last := Contact(u - latency, u);
    var early := u + 7 * NSEC_PER_SEC - 1;
    var due := early + latency + 3 * NSEC_PER_SEC;
    var first := Update(Timing(early, early, early, early, early + latency), false, false);
    var second := Update(Timing(due, due, due + latency, due + latency, due + latency), false, false);
    calls := [first, second];
    assert Outcome(last, first) == (false, 3000);
    assert Outcome(last, second) == (true, PD_T_PPS_TIMEOUT);
    assert calls[1..] == [second] && calls[1..][1..] == [];
    assert Contacts(last, [second]) == [last.at, due + latency];
  }

  // ---------------------------------------------------------------------------------------------
  // The driver state

  /** What has been established since the last reset: nothing, a good availability read, or such a read
      and after it a good ping. */
  datatype Evidence = Nothing | Read | ReadThenPing

  /** The five property reads of `pps_is_avail`. */
  datatype Limits = Limits(maxUv: int, minUv: int, maxUa: int, outUv: int, opUa: int)
  {
    predicate Good() {
      maxUv >= 0 && minUv >= 0 && maxUa >= 0 && outUv >= 0 && opUa >= 0
    }
  }

  /** What `pps_work` gets from the power supply. */
  datatype WorkReply = WorkReply(
    hasSupply: bool, presentRead: bool, present: int, limits: Limits, pingRc: int,
    online: int, typeOk: bool, progRc: int)

  /** The outcome of one detection step: stage, online state, return value, and whether the adapter was
      contacted. */
  datatype Detected = Detected(stage: Stage, pdOnline: int, r: int, contacted: bool)

  function Detect(stage: Stage, pdOnline: int, w: WorkReply): Detected {
    if !w.hasSupply then Detected(NotSupp, pdOnline, EINVAL, false)
    else if stage == NotSupp || (w.presentRead && w.present == 0) then Detected(NotSupp, pdOnline, 0, false)
    else if stage == None && pdOnline == PROG_ONLINE then
      if !w.limits.Good() then Detected(None, PROG_ONLINE, PD_T_PPS_TIMEOUT, false)
      else if w.pingRc < 0 then Detected(Available, FIXED_ONLINE, 0, false)
      else Detected(Available, PROG_ONLINE, PD_T_PPS_TIMEOUT, true)
    else if w.online < 0 then Detected(stage, pdOnline, 0, false)
    else if w.online == pdOnline == PROG_ONLINE && (stage == Available || stage == Active) then
      Detected(Active, pdOnline, 0, false)
    else if w.typeOk && w.online == FIXED_ONLINE then
      if w.progRc == 0 then Detected(None, PROG_ONLINE, PD_T_PPS_TIMEOUT, true)
      else if w.progRc == EOPNOTSUPP then Detected(NotSupp, FIXED_ONLINE, 0, false)
      else Detected(None, FIXED_ONLINE, if w.progRc == EAGAIN then EAGAIN else 0, false)
    else Detected(None, w.online, 0, false)
  }

  /** What the supply answers during one pass of the charger drivers: detection, then, once the stage is
      ACTIVE, the update of the adapter. */
  datatype Pass = Pass(
    work: WorkReply, outUv: int, opUa: int, pendingUv: int, pendingUa: int, rc: int, t: Timing)
  {
    /** The adapter is in programmable mode and every read and request succeeds. */
    predicate Answered() {
      && work.hasSupply && (work.presentRead ==> work.present != 0) && work.limits.Good()
      && work.pingRc == 0 && work.online == PROG_ONLINE
      && outUv >= 0 && opUa >= 0 && rc == 0
    }

    function Ua(): bool { pendingUa >= 0 && pendingUa != opUa }

    function Uv(): bool { pendingUv >= 0 && pendingUv != outUv }

    function AsCall(detecting: bool): Call {
      if detecting then Detection(t) else Update(t, Ua() || Uv(), Ua() && Uv())
    }
  }

  /** The calls the passes amount to: at stage NONE the first one is a detection. */
  function Calls(ps: seq<Pass>, detecting: bool): (calls: seq<Call>)
    decreases |ps|
  {
    if ps == [] then [] else [ps[0].AsCall(detecting)] + Calls(ps[1..], false)
  }

  class Adapter {
    var stage: Stage
    var pdOnline: int
    var keepAliveCnt: int
    var lastUpdate: nat
    var outUv: int
    var opUa: int
    ghost var evidence: Evidence
    /** The last successful request to the adapter that the driver stamped. */
    ghost var contact: Contact

    /** The whole-second stamp is that of the last contact. */
    ghost predicate Stamped()
      reads this
    {
      lastUpdate == BootSec(contact.stamp)
    }

    /** A stage of ACTIVE, and an AVAILABLE one that the next run turns into ACTIVE, rest on an
        availability read and a later ping, and the stamp is that of the last contact. */
    ghost predicate Valid()
      reads this
    {
      && (stage == Active ==> evidence == ReadThenPing && Stamped())
      && (stage == Available ==> evidence != Nothing)
      && (stage == Available && pdOnline == PROG_ONLINE ==> evidence == ReadThenPing && Stamped())
      && 0 <= keepAliveCnt <= UINT_MAX
    }

    constructor ()
      ensures Valid() && stage == Disabled && pdOnline == OFFLINE && evidence == Nothing
      ensures keepAliveCnt == 0 && lastUpdate == 0
    {
      stage, pdOnline, keepAliveCnt, lastUpdate, outUv, opUa := Disabled, OFFLINE, 0, 0, 0, 0;
      evidence, contact := Nothing, Contact(0, 0);
    }

    /** `pps_init_state`. */
    method InitState()
      modifies this`stage, this`pdOnline, this`keepAliveCnt, this`evidence
      ensures Valid() && stage == Disabled && pdOnline == OFFLINE && keepAliveCnt == 0 && evidence == Nothing
    {
      pdOnline, stage, keepAliveCnt := OFFLINE, Disabled, 0;
      evidence := Nothing;
    }

    /** The drivers above set the stage themselves, to start or to stop the detection. */
    method SetStage(v: Stage)
      requires Valid() && v != Available && v != Active
      modifies this`stage
      ensures Valid() && stage == v
    {
      stage := v;
    }

    /** `pps_is_avail`. */
    method IsAvail(limits: Limits) returns (s: Stage)
      modifies this`outUv, this`opUa, this`evidence
      ensures s == if limits.Good() then Available else None
      ensures evidence == if limits.Good() then Read else old(evidence)
    {
      outUv, opUa := limits.outUv, limits.opUa;
      if !limits.Good() {
        return None;
      }
      evidence := Read;
      return Available;
    }

    /** `pps_ping`; `rc` is the power supply's answer, zero or a negative error. The stamp is the caller's;
        `google_charger.c` pings an ACTIVE adapter without one. */
    method Ping(rc: int)
      requires rc <= 0
      modifies this`pdOnline, this`evidence
      ensures pdOnline == if rc == 0 then PROG_ONLINE else old(pdOnline)
      ensures evidence == if rc == 0 && old(evidence) != Nothing then ReadThenPing else old(evidence)
      ensures old(Valid()) && stage == Active ==> Valid()
    {
      if rc == 0 {
        pdOnline := PROG_ONLINE;
        if evidence != Nothing {
          evidence := ReadThenPing;
        }
      }
    }

    /** `pps_prog_check_online`; `capsRc` is the answer of `pps_get_src_cap`. */
    method ProgCheckOnline(online: int, limits: Limits, pingRc: int, capsRc: int, t: Timing)
      returns (active: bool)
      requires Valid() && pingRc <= 0
      modifies this
      ensures Valid()
      ensures active <==> online == PROG_ONLINE &&
                          (old(stage) == Active || (limits.Good() && pingRc == 0 && capsRc >= 0))
      ensures stage == if active then Active else if online == 0 then Disabled else NotSupp
      ensures active && old(stage) != Active ==> pdOnline == PROG_ONLINE && Stamped()
      ensures contact == if online == PROG_ONLINE && old(stage) != Active && limits.Good() && pingRc == 0
                         then t.Made() else old(contact)
      ensures !active ==> pdOnline == OFFLINE && evidence == Nothing
    {
      if online == 0 {
        InitState();
        return false;
      }
      active := online == PROG_ONLINE;
      if active && stage != Active {
        stage := IsAvail(limits);
        active := stage == Available;
        if active {
          Ping(pingRc);
          active := pingRc == 0;
          if active {
            lastUpdate, contact := BootSec(t.stamp), t.Made();
            active := capsRc >= 0;
            if active {
              pdOnline, stage := PROG_ONLINE, Active;
            }
          }
        }
      }
      if !active {
        InitState();
        stage := NotSupp;
      }
    }

    /** `pps_prog_online`, which stamps a failed request too. */
    method ProgOnline(rc: int, t: Timing)
      requires Valid() && stage == None
      modifies this`stage, this`pdOnline, this`lastUpdate, this`contact
      ensures Valid() && lastUpdate == BootSec(t.stamp)
      ensures contact == if rc == 0 then t.Made() else old(contact)
      ensures stage == if rc == EOPNOTSUPP then NotSupp else None
      ensures pdOnline == if rc == 0 then PROG_ONLINE else old(pdOnline)
    {
      if rc == EOPNOTSUPP {
        stage := NotSupp;
      } else if rc == 0 {
        pdOnline, stage := PROG_ONLINE, None;
        contact := t.Made();
      }
      lastUpdate := BootSec(t.stamp);
    }

    /** `pps_work`: detection. The stage it turns into ACTIVE was AVAILABLE or ACTIVE already, with an
        availability read and a later ping behind it; a stage of NOTSUPP it never changes. */
    method Work(w: WorkReply, t: Timing) returns (r: int)
      requires Valid() && w.pingRc <= 0
      modifies this
      ensures Valid()
      ensures var d := Detect(old(stage), old(pdOnline), w);
              && (stage, pdOnline, r) == (d.stage, d.pdOnline, d.r)
              && contact == (if d.contacted then t.Made() else old(contact))
              && (d.contacted ==> Stamped())
      ensures old(stage) == NotSupp ==> stage == NotSupp
      ensures stage == Active && old(stage) != Active ==>
                old(stage) == Available && old(evidence) == ReadThenPing && w.online == PROG_ONLINE
      ensures stage == Available && old(stage) != Available ==>
                && old(stage) == None && w.limits.maxUv >= 0 && w.limits.minUv >= 0 && w.limits.maxUa >= 0
                && w.limits.outUv >= 0 && w.limits.opUa >= 0
      ensures stage == NotSupp <==>
                || old(stage) == NotSupp || !w.hasSupply || (w.presentRead && w.present == 0)
                || (!(old(stage) == None && old(pdOnline) == PROG_ONLINE)
                    && w.typeOk && w.online == FIXED_ONLINE && w.progRc == EOPNOTSUPP)
    {
      if !w.hasSupply {
        stage := NotSupp;
        return EINVAL;
      }
      if w.presentRead && w.present == 0 {
        stage := NotSupp;
      }
      if stage == NotSupp {
        return 0;
      }
      if stage == None && pdOnline == PROG_ONLINE {
        stage := IsAvail(w.limits);
        if stage == Available {
          Ping(w.pingRc);
          if w.pingRc < 0 {
            pdOnline := FIXED_ONLINE;
            return 0;
          }
          lastUpdate, contact := BootSec(t.stamp), t.Made();
        }
        return PD_T_PPS_TIMEOUT;
      }
      if w.online < 0 {
        return 0;
      }
      stage := if w.online == pdOnline && w.online == PROG_ONLINE && (stage == Available || stage == Active)
               then Active else None;
      if stage == Active {
        return 0;
      }
      if w.typeOk && w.online == FIXED_ONLINE {
        ProgOnline(w.progRc, t);
        if w.progRc == 0 {
          return PD_T_PPS_TIMEOUT;
        } else if w.progRc == EAGAIN {
          pdOnline := w.online;
          return w.progRc;
        }
      }
      pdOnline := w.online;
      return 0;
    }

    /** Detection from any stage but NOTSUPP, however it was left by answers that failed before: a supply in
        fixed mode is switched to programmable mode, unless that is done already, then its limits are read and
        it is pinged, then it is ACTIVE. */
    method Establish(switch: WorkReply, ping: WorkReply, report: WorkReply, t: seq<Timing>) returns (rs: seq<int>)
      requires Valid() && stage != NotSupp && |t| == 3
      requires forall w :: w in [switch, ping, report] ==> w.hasSupply && (w.presentRead ==> w.present != 0)
      requires switch.typeOk && switch.online == FIXED_ONLINE && switch.progRc == 0 && switch.pingRc <= 0
      requires ping.limits.maxUv >= 0 && ping.limits.minUv >= 0 && ping.limits.maxUa >= 0
      requires ping.limits.outUv >= 0 && ping.limits.opUa >= 0 && ping.pingRc == 0
      requires report.online == PROG_ONLINE && report.pingRc <= 0
      modifies this
      ensures Valid() && stage == Active && pdOnline == PROG_ONLINE && contact == t[1].Made()
      ensures rs == (if old(stage) == None && old(pdOnline) == PROG_ONLINE then [] else [9000]) + [9000, 0]
    {
      assert switch in [switch, ping, report] && ping in [switch, ping, report] && report in [switch, ping, report];
      var r: int;
      rs := [];
      if !(stage == None && pdOnline == PROG_ONLINE) {
        r := Work(switch, t[0]);
        rs := [r];
      }
      r := Work(ping, t[1]);
      rs := rs + [r];
      r := Work(report, t[2]);
      rs := rs + [r];
    }

    /** What the answers lead to, each by itself. A supply that cannot be switched is not asked again; one that is
        not ready, or whose ping fails, or that cannot be read, can still be detected (`Establish`). */
    method DetectionAnswers(w: WorkReply, t: Timing) returns (r: int)
      requires Valid() && stage != NotSupp && w.pingRc <= 0
      requires w.hasSupply && (w.presentRead ==> w.present != 0)
      modifies this
      ensures Valid() && (stage == Active ==> old(stage) in {Available, Active})
      ensures old(stage) == None && old(pdOnline) == PROG_ONLINE && !w.limits.Good() ==>
                stage == None && pdOnline == PROG_ONLINE && r == 9000 && contact == old(contact)
      ensures old(stage) == None && old(pdOnline) == PROG_ONLINE && w.limits.Good() && w.pingRc < 0 ==>
                stage == Available && pdOnline == FIXED_ONLINE && r == 0 && contact == old(contact)
      ensures !(old(stage) == None && old(pdOnline) == PROG_ONLINE) && w.online == FIXED_ONLINE && w.typeOk ==>
                && (w.progRc == 0 ==>
                      stage == None && pdOnline == PROG_ONLINE && r == 9000 && contact == t.Made() && Stamped())
                && (w.progRc == -95 ==> stage == NotSupp && r == 0)
                && (w.progRc == -11 ==> stage == None && pdOnline == FIXED_ONLINE && r == -11)
                && (w.progRc !in {0, -11, -95} ==> stage == None && pdOnline == FIXED_ONLINE && r == 0)
      ensures !(old(stage) == None && old(pdOnline) == PROG_ONLINE) && w.online < 0 ==>
                stage == old(stage) && pdOnline == old(pdOnline) && r == 0
      ensures !(old(stage) == None && old(pdOnline) == PROG_ONLINE)
              && (w.online == OFFLINE || (w.online == FIXED_ONLINE && !w.typeOk))
              ==> stage == None && pdOnline == w.online && r == 0
    {
      r := Work(w, t);
    }

    /** `pps_keep_alive`. */
    method KeepAlive(rc: int, t: Timing) returns (r: int)
      requires Valid() && rc <= 0
      modifies this`pdOnline, this`keepAliveCnt, this`lastUpdate, this`evidence, this`contact
      ensures Valid() && r == rc && (rc == 0 ==> Stamped())
      ensures pdOnline == if rc == 0 then PROG_ONLINE else FIXED_ONLINE
      ensures evidence == if rc == 0 && old(evidence) != Nothing then ReadThenPing else old(evidence)
      ensures contact == if rc == 0 then t.Made() else old(contact)
      ensures rc != 0 ==> lastUpdate == old(lastUpdate)
      ensures keepAliveCnt == if rc != 0 then 0
                              else if old(keepAliveCnt) < UINT_MAX then old(keepAliveCnt) + 1 else UINT_MAX
    {
      Ping(rc);
      if rc < 0 {
        pdOnline, keepAliveCnt := FIXED_ONLINE, 0;
        return rc;
      }
      keepAliveCnt := keepAliveCnt + (if keepAliveCnt < UINT_MAX then 1 else 0);
      lastUpdate, contact := BootSec(t.stamp), t.Made();
      return 0;
    }

    /** `pps_set_prop` on a current or voltage; the stamp is the caller's. */
    method SetProp(rc: int)
      requires Valid() && rc <= 0
      modifies this`pdOnline, this`keepAliveCnt
      ensures Valid()
      ensures keepAliveCnt == if rc == 0 || rc == EOPNOTSUPP then 0 else old(keepAliveCnt)
      ensures pdOnline == if rc == EOPNOTSUPP then FIXED_ONLINE else old(pdOnline)
    {
      if rc == 0 {
        keepAliveCnt := 0;
      } else if rc == EOPNOTSUPP {
        pdOnline, keepAliveCnt := FIXED_ONLINE, 0;
      }
    }

    /** `pps_update_adapter`: `outUv0` and `opUa0` are what the supply reads back, `rc` its answer to the
        one request made. */
    method UpdateAdapter(outUv0: int, opUa0: int, pendingUv0: int, pendingUa0: int, rc: int, t: Timing)
      returns (r: int)
      requires Valid() && rc <= 0
      modifies this
      ensures Valid() && stage == old(stage) && evidence in {old(evidence), ReadThenPing}
      ensures outUv0 < 0 || opUa0 < 0 ==> r == EIO && contact == old(contact) && lastUpdate == old(lastUpdate)
      ensures outUv0 >= 0 && opUa0 >= 0 ==>
                var ua, uv := pendingUa0 >= 0 && pendingUa0 != opUa0, pendingUv0 >= 0 && pendingUv0 != outUv0;
                var (request, delay) := Plan(old(lastUpdate), t, ua || uv, ua && uv);
                && r == (if request && rc != 0 then rc else delay)
                && (request && rc == 0 ==> contact == t.Made() && Stamped())
                && (!request || rc == 0 ==> pdOnline in {old(pdOnline), PROG_ONLINE})
                && (!request || rc != 0 ==> contact == old(contact) && lastUpdate == old(lastUpdate))
                && (rc == 0 && ua && uv ==> r == 0)
                && (rc == 0 && ua != uv ==> r == 9000)
                && (!ua && !uv ==>
                      var interval := BootSec(t.read) - old(lastUpdate);
                      if interval < 7 then r + 1000 * interval == 9000 && contact == old(contact)
                      else rc == 0 ==> r == 9000 && contact == t.Made())
                && (rc == EOPNOTSUPP && request ==> pdOnline == FIXED_ONLINE)
                && opUa == (if ua && rc == 0 then pendingUa0 else opUa0)
                && outUv == (if uv && !ua && rc == 0 then pendingUv0 else outUv0)
    {
      var interval := BootSec(t.read) - lastUpdate;
      outUv, opUa := outUv0, opUa0;
      if outUv < 0 || opUa < 0 {
        return EIO;
      }
      var pendingUv := if pendingUv0 < 0 then outUv else pendingUv0;
      var pendingUa := if pendingUa0 < 0 then opUa else pendingUa0;
      if opUa != pendingUa {
        keepAliveCnt := 0;
        SetProp(rc);
        if rc == 0 {
          lastUpdate, contact := BootSec(t.stamp), t.Made();
          opUa := pendingUa;
          if outUv != pendingUv {
            return 0;
          }
          return PD_T_PPS_TIMEOUT;
        }
        return rc;
      } else if outUv != pendingUv {
        SetProp(rc);
        keepAliveCnt := 0;
        if rc == 0 {
          lastUpdate, contact := BootSec(t.stamp), t.Made();
          outUv := pendingUv;
          return PD_T_PPS_TIMEOUT;
        }
        return rc;
      } else if interval < PD_T_PPS_DEADLINE_S {
        return PD_T_PPS_TIMEOUT - interval * 1000;
      } else {
        r := KeepAlive(rc, t);
        if r < 0 {
          keepAliveCnt := 0;
        } else {
          // counted a second time, without the saturation
          keepAliveCnt := if keepAliveCnt == UINT_MAX then 0 else keepAliveCnt + 1;
          r := PD_T_PPS_TIMEOUT;
        }
      }
    }

    /** Two changes pending at once take two calls, the second one due at once: current first, then voltage. */
    method ChangeBoth(outUv0: int, opUa0: int, uv: int, ua: int, t1: Timing, t2: Timing) returns (rs: seq<int>)
      requires Valid() && outUv0 >= 0 && opUa0 >= 0 && uv >= 0 && ua >= 0 && uv != outUv0 && ua != opUa0
      modifies this
      ensures Valid() && opUa == ua && outUv == uv && rs == [0, 9000]
      ensures contact == t2.Made() && lastUpdate == BootSec(t2.stamp)
    {
      var r1 := UpdateAdapter(outUv0, opUa0, uv, ua, 0, t1);
      assert opUa == ua && outUv == outUv0;
      var r2 := UpdateAdapter(outUv, opUa, uv, ua, 0, t2);
      rs := [r1, r2];
    }

    /** One pass of the drivers above: detection and, once ACTIVE, the update. `google_cpm.c` waits for a time
        of its own after some passes (500 ms, 1500 ms or 2000 ms), which is shorter than any delay asked for
        (`DueWithinLimit`) and so among the runs `Serve` is about. Its choice of the pending voltage in
        `gcpm_pps_wait_for_ready`, the switch of the charger there and its retries after errors are left out. */
    method ServePass(p: Pass) returns (r: int)
      requires Valid() && stage in {None, Available, Active} && pdOnline == PROG_ONLINE
      requires p.Answered()
      modifies this
      ensures Valid() && pdOnline == PROG_ONLINE
      ensures stage == if old(stage) == None then Available else Active
      ensures var c := p.AsCall(old(stage) == None);
              contact == After(old(contact), c) && r == Outcome(old(contact), c).1
    {
      r := Work(p.work, p.t);
      if stage == Active {
        r := UpdateAdapter(p.outUv, p.opUa, p.pendingUv, p.pendingUa, p.rc, p.t);
      }
    }

    /** Any number of passes on an adapter that answers, from its detection on. If each comes by the time the
        one before asked for, successive contacts keep the limit. */
    method Serve(ps: seq<Pass>, ghost latency: nat) returns (delays: seq<int>)
      requires Valid() && stage in {None, Available, Active} && pdOnline == PROG_ONLINE
      requires forall p :: p in ps ==> p.Answered()
      requires var calls := Calls(ps, stage == None);
               Entered(contact, calls, latency) && Timely(contact, calls, latency)
      modifies this
      ensures Valid() && pdOnline == PROG_ONLINE
      ensures stage == if ps == [] then old(stage)
                       else if |ps| == 1 && old(stage) == None then Available else Active
      ensures delays == Delays(old(contact), Calls(ps, old(stage) == None))
      ensures var cs := Contacts(old(contact), Calls(ps, old(stage) == None));
              && cs[|cs| - 1] == contact.at && Spaced(cs, latency)
      decreases |ps|
    {
      ghost var calls := Calls(ps, stage == None);
      ContactsWithinLimit(contact, calls, latency);
      delays := [];
      if ps != [] {
        DueWithinLimit(contact, calls[0], latency);
        var r := ServePass(ps[0]);
        var rest := Serve(ps[1..], latency);
        delays := [r] + rest;
      }
    }
  }
}
