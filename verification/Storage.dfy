/** The GBMS storage front end (`gbms_storage.c`): providers are registered by name, a tag is looked up by
    asking them in index order, and a cache remembers which provider answered. */
module Storage {
  import opened Errno

  const PROVIDERS_MAX: int := 6
  const PROVIDER_NAME_MAX: int := 32

  type Tag = nat

  datatype Option<+T> = None | Some(value: T)

  /** A provider's descriptor: the tags it knows and whether it has the two callbacks. */
  datatype Desc = Desc(tags: set<Tag>, hasRead: bool, hasWrite: bool)

  /** A slot of the provider array; without a descriptor it is a reference still to be resolved. */
  datatype Provider = Provider(name: string, dsc: Option<Desc>)

  datatype Entry = Entry(tag: Tag, provider: nat)

  datatype Access = Reading | Writing

  predicate Has(d: Desc, a: Access) {
    if a == Reading then d.hasRead else d.hasWrite
  }

  // ---------------------------------------------------------------------------------------------
  // The plain meaning

  /** What the callbacks answer for the tag of a call, by slot. */
  type Replies = nat -> int

  /** The first answer other than -ENOENT, in index order from slot `i`. */
  function Scan(ps: seq<Provider>, a: Access, reply: Replies, i: nat): int
    requires i <= |ps|
    decreases |ps| - i
  {
    if i == |ps| then ENOENT
    else if ps[i].dsc.Some? && Has(ps[i].dsc.value, a) && reply(i) != ENOENT then reply(i)
    else Scan(ps, a, reply, i + 1)
  }

  ghost predicate Unresolved(ps: seq<Provider>) {
    exists i :: 0 <= i < |ps| && ps[i].dsc.None?
  }

  /** The answer a caller gets when nothing is cached. */
  ghost function Answer(ps: seq<Provider>, a: Access, reply: Replies): int {
    var r := Scan(ps, a, reply, 0);
    if r == ENOENT && Unresolved(ps) then EPROBE_DEFER else r
  }

  /** Callbacks answer -ENOENT for tags they do not know. */
  ghost predicate Honest(ps: seq<Provider>, tag: Tag, reply: Replies) {
    forall i :: 0 <= i < |ps| && ps[i].dsc.Some? && reply(i) != ENOENT ==> tag in ps[i].dsc.value.tags
  }

  /** Each tag has one owner. */
  ghost predicate Owned(ps: seq<Provider>) {
    forall i, j :: 0 <= i < j < |ps| && ps[i].dsc.Some? && ps[j].dsc.Some? ==>
      ps[i].dsc.value.tags !! ps[j].dsc.value.tags
  }

  /** What a cached provider answers, a missing callback included. */
  function CachedAnswer(d: Desc, a: Access, reply: int): int {
    if Has(d, a) then reply else EACCES
  }

  /** Descriptors once set stay set, in their slots, under their names. */
  ghost predicate Kept(before: seq<Provider>, after: seq<Provider>) {
    && |before| <= |after|
    && forall i :: 0 <= i < |before| && before[i].dsc.Some? ==> after[i] == before[i]
  }

  /** A tag that has one owner had no other before. */
  lemma StillOwned(before: seq<Provider>, after: seq<Provider>)
    requires Kept(before, after)
    ensures Owned(after) ==> Owned(before)
  {
  }

  /** The scan finds the owner's answer, if the owner has the callback: nobody else has one. */
  lemma {:induction false} ScanFindsOwner(ps: seq<Provider>, a: Access, tag: Tag, reply: Replies, owner: nat, i: nat)
    requires Owned(ps) && Honest(ps, tag, reply)
    requires i <= owner < |ps| && ps[owner].dsc.Some? && tag in ps[owner].dsc.value.tags
    ensures Scan(ps, a, reply, i) == if Has(ps[owner].dsc.value, a) then reply(owner) else ENOENT
    decreases |ps| - i
  {
    if i < owner {
      assert ps[i].dsc.Some? ==> reply(i) == ENOENT;
      ScanFindsOwner(ps, a, tag, reply, owner, i + 1);
    } else {
      NobodyElse(ps, a, tag, reply, owner, i + 1);
    }
  }

  /** Asking the cached owner gives the scan's answer exactly when the owner has the callback asked for. */
  lemma {:induction false} CacheExact(ps: seq<Provider>, a: Access, tag: Tag, reply: Replies, owner: nat)
    requires Owned(ps) && Honest(ps, tag, reply)
    requires owner < |ps| && ps[owner].dsc.Some? && tag in ps[owner].dsc.value.tags
    ensures CachedAnswer(ps[owner].dsc.value, a, reply(owner)) == Scan(ps, a, reply, 0)
            <==> Has(ps[owner].dsc.value, a)
  {
    ScanFindsOwner(ps, a, tag, reply, owner, 0);
  }

  lemma {:induction false} NobodyElse(ps: seq<Provider>, a: Access, tag: Tag, reply: Replies, owner: nat, i: nat)
    requires Owned(ps) && Honest(ps, tag, reply)
    requires owner < i <= |ps| && ps[owner].dsc.Some? && tag in ps[owner].dsc.value.tags
    ensures Scan(ps, a, reply, i) == ENOENT
    decreases |ps| - i
  {
    if i < |ps| {
      NobodyElse(ps, a, tag, reply, owner, i + 1);
    }
  }

  /** Index of the first slot whose name the new name begins with. */
  function FirstMatch(ps: seq<Provider>, name: string, i: nat): (r: nat)
    requires i <= |ps|
    ensures i <= r <= |ps|
    ensures r < |ps| ==> ps[r].name <= name
    ensures forall k :: i <= k < r ==> !(ps[k].name <= name)
    decreases |ps| - i
  {
    if i == |ps| || ps[i].name <= name then i else FirstMatch(ps, name, i + 1)
  }

  /** The slot a name is registered in, or why there is none: a matching slot is free only while it is a
      reference. */
  function SlotFor(ps: seq<Provider>, name: string): int {
    var m := FirstMatch(ps, name, 0);
    if m < |ps| then (if ps[m].dsc.None? then m else EBUSY)
    else if m == PROVIDERS_MAX then ENOMEM
    else m
  }

  /** Some provider before slot `k` that has the callback knows the tag too. */
  ghost predicate Shadowed(ps: seq<Provider>, a: Access, tag: Tag, k: nat)
    requires k <= |ps|
  {
    exists j :: 0 <= j < k && ps[j].dsc.Some? && Has(ps[j].dsc.value, a) && tag in ps[j].dsc.value.tags
  }

  /** Tags are not checked for a second owner. Where slot `k` is cached, its answers are the scan's, whatever
      the callbacks say, exactly if no provider before it that has the callback knows the tag. */
  lemma {:induction false} DuplicateExact(ps: seq<Provider>, a: Access, tag: Tag, k: nat)
    requires k < |ps| && ps[k].dsc.Some? && tag in ps[k].dsc.value.tags && Has(ps[k].dsc.value, a)
    ensures (forall reply: Replies :: Honest(ps, tag, reply) && reply(k) != ENOENT ==>
               Scan(ps, a, reply, 0) == reply(k))
            <==> !Shadowed(ps, a, tag, k)
  {
    if Shadowed(ps, a, tag, k) {
      var j :| 0 <= j < k && ps[j].dsc.Some? && Has(ps[j].dsc.value, a) && tag in ps[j].dsc.value.tags;
      var reply := (i: nat) => if i == j then 0 else if i == k then 1 else ENOENT;
      ScanReaches(ps, a, reply, j, 0);
      assert Honest(ps, tag, reply) && Scan(ps, a, reply, 0) != reply(k);
    } else {
      forall reply: Replies | Honest(ps, tag, reply) && reply(k) != ENOENT
        ensures Scan(ps, a, reply, 0) == reply(k)
      {
        ScanReaches(ps, a, reply, k, 0);
      }
    }
  }

  /** Slot `i` answers. */
  predicate Answers(ps: seq<Provider>, a: Access, reply: Replies, i: nat)
    requires i < |ps|
  {
    ps[i].dsc.Some? && Has(ps[i].dsc.value, a) && reply(i) != ENOENT
  }

  /** No slot from `i` to before `k` answers. */
  ghost predicate Silent(ps: seq<Provider>, a: Access, reply: Replies, i: nat, k: nat)
    requires k <= |ps|
  {
    forall j :: i <= j < k ==> !Answers(ps, a, reply, j)
  }

  /** The scan gives the answer of the first slot that has one. */
  lemma {:induction false} ScanReaches(ps: seq<Provider>, a: Access, reply: Replies, k: nat, i: nat)
    requires i <= k < |ps| && Answers(ps, a, reply, k) && Silent(ps, a, reply, i, k)
    ensures Scan(ps, a, reply, i) == reply(k)
    decreases k - i
  {
    if i < k {
      assert !Answers(ps, a, reply, i);
      ScanReaches(ps, a, reply, k, i + 1);
    }
  }

  lemma {:induction false} ScanSilent(ps: seq<Provider>, a: Access, reply: Replies, i: nat)
    requires i <= |ps| && Silent(ps, a, reply, i, |ps|)
    ensures Scan(ps, a, reply, i) == ENOENT
    decreases |ps| - i
  {
    if i < |ps| {
      assert !Answers(ps, a, reply, i);
      ScanSilent(ps, a, reply, i + 1);
    }
  }

  /** What a caller gets when nothing is cached: the answer of the first slot that answers; if none does, -EPROBE_DEFER
      while some slot is still a reference, and -ENOENT after that. */
  lemma {:induction false} AnswerExact(ps: seq<Provider>, a: Access, reply: Replies)
    ensures forall i :: 0 <= i < |ps| && Answers(ps, a, reply, i) && Silent(ps, a, reply, 0, i) ==>
              Answer(ps, a, reply) == reply(i)
    ensures Silent(ps, a, reply, 0, |ps|) ==>
              Answer(ps, a, reply) == if exists i :: 0 <= i < |ps| && ps[i].dsc.None? then -517 else -2
  {
    forall i | 0 <= i < |ps| && Answers(ps, a, reply, i) && Silent(ps, a, reply, 0, i)
      ensures Answer(ps, a, reply) == reply(i)
    {
      ScanReaches(ps, a, reply, i, 0);
    }
    if Silent(ps, a, reply, 0, |ps|) {
      ScanSilent(ps, a, reply, 0);
    }
  }

  /** Where a name is registered: over the first reference whose name it begins with, unless a provider with such a
      name comes before it; behind the last slot if no name matches and fewer than six are taken. */
  lemma {:induction false} SlotExact(ps: seq<Provider>, name: string, m: nat)
    requires m <= |ps| <= 6 && forall k :: 0 <= k < m ==> !(ps[k].name <= name)
    ensures m < |ps| && ps[m].name <= name ==> SlotFor(ps, name) == if ps[m].dsc.None? then m else -16
    ensures m == |ps| ==> SlotFor(ps, name) == if m < 6 then m else -12
  {
  }

  /** The first entry of a tag. */
  function Lookup(cache: seq<Entry>, tag: Tag, k: nat): (e: Option<Entry>)
    requires k <= |cache|
    ensures e.Some? ==> e.value in cache[k..] && e.value.tag == tag
    ensures e.None? ==> forall j :: k <= j < |cache| ==> cache[j].tag != tag
    decreases |cache| - k
  {
    if k == |cache| then None else if cache[k].tag == tag then Some(cache[k]) else Lookup(cache, tag, k + 1)
  }

  function Negative(r: int): int {
    if r < 0 then r else 0
  }

  // ---------------------------------------------------------------------------------------------

  class Storage {
    var providers: seq<Provider>
    /** Newest first, as `hash_add` puts entries at the head of their bucket. */
    var cache: seq<Entry>
    var initDone: bool

    ghost predicate Valid()
      reads this
    {
      && |providers| <= PROVIDERS_MAX
      && (forall k :: 0 <= k < |cache| ==> EntryOk(cache[k]))
      && (Owned(providers) ==> forall j, k :: 0 <= j < k < |cache| ==> cache[j].tag != cache[k].tag)
    }

    /** A cached tag names the slot of a provider that knows it. */
    ghost predicate EntryOk(e: Entry)
      reads this
    {
      e.provider < |providers| && providers[e.provider].dsc.Some? && e.tag in providers[e.provider].dsc.value.tags
    }

    ghost predicate Cached(tag: Tag)
      reads this
    {
      exists k :: 0 <= k < |cache| && cache[k].tag == tag
    }

    /** The tag is cached, and the provider has no callback for the access. */
    ghost predicate Lacks(tag: Tag, a: Access)
      requires Valid()
      reads this
    {
      Lookup(cache, tag, 0).Some? && !Has(providers[Lookup(cache, tag, 0).value.provider].dsc.value, a)
    }

    /** The answer of the cached provider, or -ENOENT if there is none. */
    ghost function Hit(tag: Tag, a: Access, reply: Replies): int
      requires Valid()
      reads this
    {
      match Lookup(cache, tag, 0)
      case None => ENOENT
      case Some(e) => CachedAnswer(providers[e.provider].dsc.value, a, reply(e.provider))
    }

    /** The cache is as before, or has the tag in front; with one owner to a tag, only after a miss. */
    twostate predicate Grown(tag: Tag)
      reads this
    {
      || cache == old(cache)
      || (&& cache != [] && cache[0].tag == tag && cache[1..] == old(cache)
          && (Owned(providers) ==> !old(Cached(tag))))
    }

    constructor ()
      ensures Valid() && providers == [] && cache == [] && !initDone
    {
      providers, cache, initDone := [], [], false;
    }

    /** `gbms_storage_find_slot`: a name matches a slot whose name is a prefix of it. */
    method FindSlot(name: string) returns (r: int)
      requires Valid()
      ensures r == SlotFor(providers, name)
    {
      var index := 0;
      while index < |providers|
        invariant 0 <= index <= |providers|
        invariant FirstMatch(providers, name, 0) == FirstMatch(providers, name, index)
      {
        var slot := providers[index];
        if slot.name <= name {
          if slot.dsc.None? {
            break;
          }
          return EBUSY;
        }
        index := index + 1;
      }
      if index == PROVIDERS_MAX {
        return ENOMEM;
      }
      return index;
    }

    /** `gbms_storage_register_internal`; `dsc` is absent for a reference. */
    method RegisterInternal(dsc: Option<Desc>, name: string) returns (r: int)
      requires Valid()
      modifies this`providers
      ensures Valid()
      ensures Kept(old(providers), providers)
      ensures r == if |name| >= PROVIDER_NAME_MAX then EINVAL else Negative(SlotFor(old(providers), name))
      ensures r != 0 ==> providers == old(providers)
      ensures r == 0 ==>
                var m := SlotFor(old(providers), name);
                providers == if m < |old(providers)| then old(providers)[m := Provider(name, dsc)]
                             else old(providers) + [Provider(name, dsc)]
    {
      if |name| >= PROVIDER_NAME_MAX {
        return EINVAL;
      }
      var index := FindSlot(name);
      if index < 0 {
        return index;
      }
      if index == |providers| {
        providers := providers + [Provider(name, dsc)];
      } else {
        providers := providers[index := Provider(name, dsc)];
      }
      assert Owned(providers) ==> Owned(old(providers)) by {
        StillOwned(old(providers), providers);
      }
      return 0;
    }

    /** `gbms_cache_lookup`. */
    method CacheLookup(tag: Tag) returns (e: Option<Entry>)
      requires Valid()
      ensures e.Some? <==> Cached(tag)
      ensures e == Lookup(cache, tag, 0)
    {
      for k := 0 to |cache|
        invariant Lookup(cache, tag, 0) == Lookup(cache, tag, k)
      {
        if cache[k].tag == tag {
          return Some(cache[k]);
        }
      }
      return None;
    }

    /** `gbms_cache_add`; the allocation may fail. */
    method CacheAdd(tag: Tag, slot: nat, room: bool)
      requires Valid() && (Owned(providers) ==> !Cached(tag)) && EntryOk(Entry(tag, slot))
      modifies this`cache
      ensures Valid()
      ensures cache == if room then [Entry(tag, slot)] + old(cache) else old(cache)
    {
      if room {
        cache := [Entry(tag, slot)] + cache;
      }
    }

    /** `gbms_cache_read` and `gbms_cache_write`. */
    method CacheAccess(tag: Tag, a: Access, reply: Replies) returns (r: int)
      requires Valid() && Honest(providers, tag, reply)
      ensures r == Hit(tag, a, reply) && (r != ENOENT ==> Cached(tag))
      ensures Owned(providers) && Lacks(tag, a) ==> r == EACCES && Scan(providers, a, reply, 0) == ENOENT
      ensures Owned(providers) && Cached(tag) && !Lacks(tag, a) ==> r == Scan(providers, a, reply, 0)
    {
      var e := CacheLookup(tag);
      if e.None? {
        return ENOENT;
      }
      var slot := e.value.provider;
      if Owned(providers) {
        ScanFindsOwner(providers, a, tag, reply, slot, 0);
      }
      if !Has(providers[slot].dsc.value, a) {
        return EACCES;
      }
      return reply(slot);
    }

    /** `gbms_storage_read` and `gbms_storage_write`: the answer is the cached provider's, or else the scan's,
        and a tag nobody answers for is deferred exactly while some reference is unresolved. With one owner to a
        tag it is the scan's in any case, unless the owner is cached and lacks the callback. */
    method Transfer(tag: Tag, a: Access, noData: bool, reply: Replies, room: bool) returns (r: int)
      requires Valid() && Honest(providers, tag, reply)
      modifies this`cache
      ensures Valid()
      ensures r == if !initDone then EPROBE_DEFER else if noData then EINVAL
                   else if old(Hit(tag, a, reply)) != ENOENT then old(Hit(tag, a, reply))
                   else Answer(providers, a, reply)
      ensures Owned(providers) && initDone && !noData ==>
                r == if old(Lacks(tag, a)) then EACCES else Answer(providers, a, reply)
      ensures Grown(tag)
      ensures r >= 0 && room ==> Cached(tag)
      ensures !room ==> cache == old(cache)
    {
      if !initDone {
        return EPROBE_DEFER;
      }
      if noData {
        return EINVAL;
      }
      var lateInits := false;
      r := CacheAccess(tag, a, reply);
      if r == ENOENT {
        ghost var whole := Scan(providers, a, reply, 0);
        var i := 0;
        while r == ENOENT && i < |providers|
          invariant 0 <= i <= |providers|
          invariant Valid()
          invariant r == ENOENT ==> cache == old(cache) && whole == Scan(providers, a, reply, i)
          invariant r == ENOENT ==> (lateInits <==> exists k :: 0 <= k < i && providers[k].dsc.None?)
          invariant r != ENOENT ==> r == whole
          invariant Grown(tag)
          invariant r >= 0 && room ==> Cached(tag)
          invariant !room ==> cache == old(cache)
        {
          var dsc := providers[i].dsc;
          if dsc.None? {
            lateInits := true;
          } else if Has(dsc.value, a) {
            r := reply(i);
            if r >= 0 {
              CacheAdd(tag, i, room);
            }
          }
          i := i + 1;
        }
      }
      if lateInits && r == ENOENT {
        r := EPROBE_DEFER;
      }
    }
  }

  /** A provider without a read callback, and callbacks that succeed. */
  const WriteOnly := Provider("p", Some(Desc({0}, false, true)))

  function Done(slot: nat): int {
    0
  }

  lemma WriteOnlyAnswers()
    ensures Owned([WriteOnly]) && Honest([WriteOnly], 0, Done) && !Unresolved([WriteOnly])
    ensures Answer([WriteOnly], Writing, Done) == 0 && Answer([WriteOnly], Reading, Done) == ENOENT
  {
    assert Scan([WriteOnly], Reading, Done, 1) == ENOENT;
  }

  method RegisterWriteOnly() returns (s: Storage)
    ensures fresh(s) && s.Valid() && s.providers == [WriteOnly] && s.initDone && s.cache == []
  {
    s := new Storage();
    s.initDone := true;
    var r := s.RegisterInternal(WriteOnly.dsc, WriteOnly.name);
  }

  /** Once a write has cached it, a read is refused with -EACCES, where the scan finds nobody. */
  method CachedWithoutCallback() returns (s: Storage, r: int)
    ensures fresh(s) && s.Valid() && s.providers == [WriteOnly] && s.Cached(0)
    ensures r == EACCES && Answer(s.providers, Reading, Done) == ENOENT
  {
    WriteOnlyAnswers();
    s := RegisterWriteOnly();
    r := s.Transfer(0, Writing, false, Done, true);
    assert s.Lacks(0, Reading);
    r := s.Transfer(0, Reading, false, Done, true);
  }

  /** A reference defers what it may yet answer, and the provider registered under its name takes its place. */
  method ReferenceResolved(d: Desc) returns (s: Storage, before: int, after: int)
    requires 0 in d.tags && d.hasRead
    ensures fresh(s) && s.providers == [Provider("ref", Some(d))] && before == -517 && after == 0
  {
    s := new Storage();
    s.initDone := true;
    var r := s.RegisterInternal(None, "ref");
    assert s.providers == [Provider("ref", None)];
    before := DeferredRead(s);
    r := s.RegisterInternal(Some(d), "ref");
    assert s.providers == [Provider("ref", Some(d))];
    after := AnsweredRead(s);
  }

  method DeferredRead(s: Storage) returns (r: int)
    requires s.Valid() && s.initDone && s.cache == [] && s.providers == [Provider("ref", None)]
    modifies s`cache
    ensures s.Valid() && s.cache == [] && r == -517
  {
    r := s.Transfer(0, Reading, false, Done, false);
    AnswerExact(s.providers, Reading, Done);
  }

  method AnsweredRead(s: Storage) returns (r: int)
    requires s.Valid() && s.initDone && s.cache == [] && |s.providers| == 1
    requires s.providers[0].dsc.Some? && 0 in s.providers[0].dsc.value.tags && s.providers[0].dsc.value.hasRead
    modifies s`cache
    ensures s.Valid() && r == 0
  {
    r := s.Transfer(0, Reading, false, Done, true);
    AnswerExact(s.providers, Reading, Done);
    assert Answers(s.providers, Reading, Done, 0);
  }
}
