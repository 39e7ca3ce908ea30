/** The nonce cache (`NonceReplayGuard` in `app/sandbox_worker.py`) against a sliding window
    over the history of accepted nonces. Times are reals, in seconds. */
module ReplayGuard {
  import opened Basics

  /** One accepted nonce and the clock reading at which it was accepted. */
  datatype Accepted = Accepted(nonce: string, at: real)

  /** One cache entry of the OrderedDict, in insertion order. */
  datatype Entry = Entry(nonce: string, expiresAt: real)

  // ---------- The simple form: a window over the whole history ----------

  /** The history is in clock order and not ahead of the clock. */
  ghost predicate Chronological(h: seq<Accepted>, now: real) {
    && (forall i, j | 0 <= i < j < |h| :: h[i].at <= h[j].at)
    && forall i | 0 <= i < |h| :: h[i].at <= now
  }

  predicate Live(a: Accepted, now: real, ttl: int) {
    now < a.at + ttl as real
  }

  /** How many of the latest acceptances have not expired. */
  function LiveCount(h: seq<Accepted>, now: real, ttl: int): (n: nat)
    ensures n <= |h|
  {
    if h == [] || !Live(h[|h| - 1], now, ttl) then 0 else 1 + LiveCount(h[..|h| - 1], now, ttl)
  }

  /** The last min(maxEntries, number unexpired) acceptances. */
  function Window(h: seq<Accepted>, now: real, ttl: int, maxEntries: int): (w: seq<Accepted>)
    ensures |w| <= Max(maxEntries, 0) && |w| <= |h|
  {
    h[|h| - Min(Max(maxEntries, 0), LiveCount(h, now, ttl))..]
  }

  predicate InWindow(h: seq<Accepted>, nonce: string, now: real, ttl: int, maxEntries: int) {
    exists i | 0 <= i < |Window(h, now, ttl, maxEntries)| :: Window(h, now, ttl, maxEntries)[i].nonce == nonce
  }

  function EntryOf(a: Accepted, ttl: int): Entry {
    Entry(a.nonce, a.at + ttl as real)
  }

  function EntriesOf(h: seq<Accepted>, ttl: int): seq<Entry> {
    seq(|h|, i requires 0 <= i < |h| => EntryOf(h[i], ttl))
  }

  /** In a chronological history the unexpired acceptances are the last ones. */
  lemma {:induction false} LiveCountMeaning(h: seq<Accepted>, now: real, ttl: int)
    requires Chronological(h, now)
    ensures forall i | 0 <= i < |h| :: Live(h[i], now, ttl) <==> i >= |h| - LiveCount(h, now, ttl)
  {
    if h != [] && Live(h[|h| - 1], now, ttl) {
      LiveCountMeaning(h[..|h| - 1], now, ttl);
    }
  }

  /** Time only shrinks the window's candidates. */
  lemma LiveCountShrinks(h: seq<Accepted>, t0: real, t1: real, ttl: int)
    requires Chronological(h, t0) && t0 <= t1
    ensures LiveCount(h, t1, ttl) <= LiveCount(h, t0, ttl)
  {
    LiveCountMeaning(h, t0, ttl);
    LiveCountMeaning(h, t1, ttl);
    if LiveCount(h, t1, ttl) > 0 {
      assert Live(h[|h| - LiveCount(h, t1, ttl)], t0, ttl);
    }
  }

  /** A nonce is refused exactly when it was accepted before, has not expired, and fewer than
      maxEntries nonces have been accepted since. */
  lemma InWindowMeaning(h: seq<Accepted>, nonce: string, now: real, ttl: int, maxEntries: int)
    requires Chronological(h, now)
    ensures InWindow(h, nonce, now, ttl, maxEntries) <==>
            exists i | 0 <= i < |h| :: h[i].nonce == nonce && Live(h[i], now, ttl) && |h| - i <= maxEntries
  {
    LiveCountMeaning(h, now, ttl);
    var w := Window(h, now, ttl, maxEntries);
    var k := |h| - |w|;
    forall i | 0 <= i < |w| ensures w[i] == h[k + i] {
    }
    if i :| 0 <= i < |w| && w[i].nonce == nonce {
      assert h[k + i].nonce == nonce && Live(h[k + i], now, ttl) && |h| - (k + i) <= maxEntries;
    }
    if i :| 0 <= i < |h| && h[i].nonce == nonce && Live(h[i], now, ttl) && |h| - i <= maxEntries {
      assert w[i - k] == h[i];
    }
  }

  /** Capacity evicts the acceptances that would have expired first: nothing evicted while
      still live outlives anything kept. */
  lemma EvictionDropsEarliestExpiring(h: seq<Accepted>, now: real, ttl: int, maxEntries: int, i: nat, j: nat)
    requires Chronological(h, now)
    requires i < |h| - |Window(h, now, ttl, maxEntries)| <= j < |h| && Live(h[i], now, ttl)
    ensures h[i].at + ttl as real <= h[j].at + ttl as real && |Window(h, now, ttl, maxEntries)| == Max(maxEntries, 0)
  {
    LiveCountMeaning(h, now, ttl);
  }

  // ---------- The cache ----------

  /** `entries` are the last |entries| acceptances. */
  ghost predicate TailOf(entries: seq<Entry>, h: seq<Accepted>, ttl: int) {
    && |entries| <= |h|
    && forall i | 0 <= i < |entries| :: entries[i] == EntryOf(h[|h| - |entries| + i], ttl)
  }

  ghost predicate DistinctNonces(entries: seq<Entry>) {
    forall i, j | 0 <= i < j < |entries| :: entries[i].nonce != entries[j].nonce
  }

  predicate HasNonce(entries: seq<Entry>, nonce: string) {
    exists i | 0 <= i < |entries| :: entries[i].nonce == nonce
  }

  /** `OrderedDict.pop(nonce, None)`. */
  function Pop(entries: seq<Entry>, nonce: string): seq<Entry> {
    if entries == [] then []
    else if entries[0].nonce == nonce then entries[1..]
    else [entries[0]] + Pop(entries[1..], nonce)
  }

  /** How many entries a purge at `now` keeps. */
  ghost function Kept(entries: seq<Entry>, h: seq<Accepted>, now: real, ttl: int): nat {
    Min(|entries|, LiveCount(h, now, ttl))
  }

  /** The expired entries are the first ones. */
  lemma ExpiredFirst(entries: seq<Entry>, h: seq<Accepted>, now: real, ttl: int)
    requires Chronological(h, now) && TailOf(entries, h, ttl)
    ensures forall i | 0 <= i < |entries| :: entries[i].expiresAt <= now <==> i < |entries| - Kept(entries, h, now, ttl)
  {
    LiveCountMeaning(h, now, ttl);
    assert forall i | 0 <= i < |entries| :: entries[i].expiresAt <= now <==> !Live(h[|h| - |entries| + i], now, ttl);
  }

  /** The cache is a tail of the history, within capacity, without duplicates, and long
      enough to hold the window now and at any later time; with a positive time to live it is
      no longer than the window. */
  ghost predicate Holds(entries: seq<Entry>, h: seq<Accepted>, now: real, ttl: int, maxEntries: int) {
    && |entries| <= Max(maxEntries, 0)
    && Chronological(h, now) && TailOf(entries, h, ttl) && DistinctNonces(entries)
    && |Window(h, now, ttl, maxEntries)| <= |entries|
    && (ttl > 0 ==> |entries| == |Window(h, now, ttl, maxEntries)|)
  }

  lemma TailIsWindow(entries: seq<Entry>, h: seq<Accepted>, now: real, ttl: int, maxEntries: int)
    requires TailOf(entries, h, ttl) && |entries| == |Window(h, now, ttl, maxEntries)|
    ensures entries == EntriesOf(Window(h, now, ttl, maxEntries), ttl)
  {
  }

  /** What a purge keeps is exactly the window at the new time. */
  lemma PurgeKeepsWindow(entries: seq<Entry>, h: seq<Accepted>, t0: real, t1: real, ttl: int, maxEntries: int)
    requires Holds(entries, h, t0, ttl, maxEntries) && t0 <= t1
    ensures var kept := entries[|entries| - Kept(entries, h, t1, ttl)..];
            Holds(kept, h, t1, ttl, maxEntries) && kept == EntriesOf(Window(h, t1, ttl, maxEntries), ttl)
  {
    LiveCountShrinks(h, t0, t1, ttl);
    TailIsWindow(entries[|entries| - Kept(entries, h, t1, ttl)..], h, t1, ttl, maxEntries);
  }

  /** Accepting a new nonce, after making room for it. */
  lemma AcceptKeepsWindow(entries: seq<Entry>, h: seq<Accepted>, nonce: string, now: real, ttl: int, maxEntries: int)
    requires Chronological(h, now) && TailOf(entries, h, ttl) && DistinctNonces(entries) && !HasNonce(entries, nonce)
    requires 1 <= maxEntries && |entries| == Min(maxEntries - 1, LiveCount(h, now, ttl))
    ensures var a := Accepted(nonce, now); Holds(entries + [EntryOf(a, ttl)], h + [a], now, ttl, maxEntries)
  {
    var a := Accepted(nonce, now);
    TailExtends(entries, h, a, ttl);
    LiveCountExtends(h, a, now, ttl);
    DistinctExtends(entries, EntryOf(a, ttl));
    ChronologicalExtends(h, a);
  }

  lemma DistinctExtends(entries: seq<Entry>, e: Entry)
    requires DistinctNonces(entries) && !HasNonce(entries, e.nonce)
    ensures DistinctNonces(entries + [e])
  {
  }

  lemma ChronologicalExtends(h: seq<Accepted>, a: Accepted)
    requires Chronological(h, a.at)
    ensures Chronological(h + [a], a.at)
  {
  }

  lemma EntriesHaveWindowNonces(h: seq<Accepted>, nonce: string, now: real, ttl: int, maxEntries: int)
    ensures HasNonce(EntriesOf(Window(h, now, ttl, maxEntries), ttl), nonce) <==>
            InWindow(h, nonce, now, ttl, maxEntries)
  {
    var w := Window(h, now, ttl, maxEntries);
    assert forall i | 0 <= i < |w| :: EntriesOf(w, ttl)[i].nonce == w[i].nonce;
  }

  /** Popping from the front leaves a tail without the nonces it lacked. */
  lemma TailOfTail(entries: seq<Entry>, h: seq<Accepted>, ttl: int, nonce: string, n: nat)
    requires TailOf(entries, h, ttl) && DistinctNonces(entries) && !HasNonce(entries, nonce) && n <= |entries|
    ensures var tail := entries[|entries| - n..]; TailOf(tail, h, ttl) && DistinctNonces(tail) && !HasNonce(tail, nonce)
  {
  }

  lemma TailExtends(entries: seq<Entry>, h: seq<Accepted>, a: Accepted, ttl: int)
    requires TailOf(entries, h, ttl)
    ensures TailOf(entries + [EntryOf(a, ttl)], h + [a], ttl)
  {
    var entries', h' := entries + [EntryOf(a, ttl)], h + [a];
    forall i | 0 <= i < |entries'| ensures entries'[i] == EntryOf(h'[|h'| - |entries'| + i], ttl) {
      if i < |entries| {
        assert entries[i] == EntryOf(h[|h| - |entries| + i], ttl);
      }
    }
  }

  lemma LiveCountExtends(h: seq<Accepted>, a: Accepted, now: real, ttl: int)
    ensures LiveCount(h + [a], now, ttl) == if Live(a, now, ttl) then 1 + LiveCount(h, now, ttl) else 0
  {
    assert (h + [a])[..|h|] == h;
  }

  lemma AcceptAfterPurge(entries: seq<Entry>, room: seq<Entry>, h: seq<Accepted>, entries': seq<Entry>,
                         h': seq<Accepted>, nonce: string, now: real, ttl: int, maxEntries: int)
    requires Holds(entries, h, now, ttl, maxEntries) && |entries| == |Window(h, now, ttl, maxEntries)|
    requires maxEntries >= 1 && !HasNonce(entries, nonce)
    requires |room| == Min(maxEntries - 1, |entries|) && room == entries[|entries| - |room|..]
    requires entries' == room + [EntryOf(Accepted(nonce, now), ttl)] && h' == h + [Accepted(nonce, now)]
    ensures Holds(entries', h', now, ttl, maxEntries)
    ensures ttl > 0 ==> entries' == EntriesOf(Window(h', now, ttl, maxEntries), ttl)
  {
    TailOfTail(entries, h, ttl, nonce, |room|);
    AcceptKeepsWindow(room, h, nonce, now, ttl, maxEntries);
    if ttl > 0 {
      TailIsWindow(entries', h', now, ttl, maxEntries);
    }
  }

  /** The entries that have not expired, in order. */
  function Alive(entries: seq<Entry>, now: real): seq<Entry> {
    if entries == [] then []
    else if entries[0].expiresAt <= now then Alive(entries[1..], now)
    else [entries[0]] + Alive(entries[1..], now)
  }

  /** The nonces of the entries that have, in order. */
  function Expired(entries: seq<Entry>, now: real): seq<string> {
    if entries == [] then []
    else Expired(entries[..|entries| - 1], now)
         + if entries[|entries| - 1].expiresAt <= now then [entries[|entries| - 1].nonce] else []
  }

  /** The entries with none of the given nonces. */
  function Without(entries: seq<Entry>, gone: set<string>): seq<Entry> {
    if entries == [] then []
    else if entries[0].nonce in gone then Without(entries[1..], gone)
    else [entries[0]] + Without(entries[1..], gone)
  }

  lemma {:induction false} PopRemovesOne(entries: seq<Entry>, gone: set<string>, nonce: string)
    requires DistinctNonces(entries)
    ensures Pop(Without(entries, gone), nonce) == Without(entries, gone + {nonce})
  {
    if entries != [] {
      var e, rest := entries[0], Without(entries[1..], gone);
      PopRemovesOne(entries[1..], gone, nonce);
      if e.nonce !in gone {
        PopCons(e, rest, nonce);
        if e.nonce == nonce {
          NothingToRemove(entries[1..], gone, nonce);
        }
      }
    }
  }

  lemma PopCons(e: Entry, rest: seq<Entry>, nonce: string)
    ensures Pop([e] + rest, nonce) == if e.nonce == nonce then rest else [e] + Pop(rest, nonce)
  {
    assert ([e] + rest)[1..] == rest;
  }

  lemma {:induction false} NothingToRemove(entries: seq<Entry>, gone: set<string>, nonce: string)
    requires !HasNonce(entries, nonce)
    ensures Without(entries, gone + {nonce}) == Without(entries, gone)
  {
    if entries != [] {
      assert entries[0].nonce != nonce;
      assert forall i | 0 <= i < |entries| - 1 :: entries[1..][i] == entries[i + 1];
      NothingToRemove(entries[1..], gone, nonce);
    }
  }

  lemma {:induction false} WithoutNothing(entries: seq<Entry>)
    ensures Without(entries, {}) == entries
  {
    if entries != [] {
      WithoutNothing(entries[1..]);
    }
  }

  lemma {:induction false} ExpiredNonces(entries: seq<Entry>, now: real)
    ensures forall n :: n in Expired(entries, now) <==>
              exists i | 0 <= i < |entries| :: entries[i].nonce == n && entries[i].expiresAt <= now
  {
    if entries != [] {
      ExpiredNonces(entries[..|entries| - 1], now);
    }
  }

  lemma {:induction false} WithoutExpiredIsAlive(entries: seq<Entry>, now: real, gone: set<string>)
    requires forall i | 0 <= i < |entries| :: entries[i].nonce in gone <==> entries[i].expiresAt <= now
    ensures Without(entries, gone) == Alive(entries, now)
  {
    if entries != [] {
      WithoutExpiredIsAlive(entries[1..], now, gone);
    }
  }

  lemma {:induction false} AliveIsATail(entries: seq<Entry>, now: real, dead: nat)
    requires dead <= |entries|
    requires forall i | 0 <= i < |entries| :: entries[i].expiresAt <= now <==> i < dead
    ensures Alive(entries, now) == entries[dead..]
  {
    if entries != [] {
      AliveIsATail(entries[1..], now, if dead == 0 then 0 else dead - 1);
      assert dead == 0 ==> entries == [entries[0]] + entries[1..];
    }
  }

  function NonceSet(nonces: seq<string>): set<string> {
    set n | n in nonces
  }

  lemma AliveIsTheWindow(entries: seq<Entry>, h: seq<Accepted>, t0: real, t1: real, ttl: int, maxEntries: int)
    requires Holds(entries, h, t0, ttl, maxEntries) && t0 <= t1
    ensures Holds(Alive(entries, t1), h, t1, ttl, maxEntries)
    ensures Alive(entries, t1) == EntriesOf(Window(h, t1, ttl, maxEntries), ttl)
  {
    var dead := |entries| - Kept(entries, h, t1, ttl);
    LaterChronological(h, t0, t1);
    ExpiredFirst(entries, h, t1, ttl);
    AliveIsATail(entries, t1, dead);
    PurgeKeepsWindow(entries, h, t0, t1, ttl, maxEntries);
  }

  lemma LaterChronological(h: seq<Accepted>, t0: real, t1: real)
    requires Chronological(h, t0) && t0 <= t1
    ensures Chronological(h, t1)
  {
  }

  method ListExpired(held: seq<Entry>, now: real) returns (expired: seq<string>)
    ensures expired == Expired(held, now)
  {
    expired := [];
    for i := 0 to |held|
      invariant expired == Expired(held[..i], now)
    {
      assert held[..i + 1][..i] == held[..i];
      if held[i].expiresAt <= now {
        expired := expired + [held[i].nonce];
      }
    }
    assert held[..|held|] == held;
  }

  method PopAll(held: seq<Entry>, expired: seq<string>) returns (entries: seq<Entry>)
    requires DistinctNonces(held)
    ensures entries == Without(held, NonceSet(expired))
  {
    entries := held;
    WithoutNothing(held);
    assert NonceSet(expired[..0]) == {};
    for i := 0 to |expired|
      invariant entries == Without(held, NonceSet(expired[..i]))
    {
      PopRemovesOne(held, NonceSet(expired[..i]), expired[i]);
      assert NonceSet(expired[..i + 1]) == NonceSet(expired[..i]) + {expired[i]};
      entries := Pop(entries, expired[i]);
    }
    assert expired[..|expired|] == expired;
  }

  /** The two loops that drop expired entries: list their nonces, then pop each. The entries
      that have not expired stay, in order, wherever they stood. */
  method Unexpired(held: seq<Entry>, now: real) returns (entries: seq<Entry>)
    requires DistinctNonces(held)
    ensures entries == Alive(held, now)
  {
    var expired := ListExpired(held, now);
    entries := PopAll(held, expired);
    ExpiredNonces(held, now);
    forall i | 0 <= i < |held| ensures held[i].nonce in NonceSet(expired) <==> held[i].expiresAt <= now {
    }
    WithoutExpiredIsAlive(held, now, NonceSet(expired));
  }

  class NonceReplayGuard {
    const ttlSeconds: int
    const maxEntries: int
    var entries: seq<Entry>
    ghost var accepted: seq<Accepted>
    ghost var clock: real

    ghost predicate Valid()
      reads this
    {
      Holds(entries, accepted, clock, ttlSeconds, maxEntries)
    }

    constructor (ttlSeconds: int, maxEntries: int, start: real)
      ensures Valid() && accepted == [] && clock == start
      ensures this.ttlSeconds == ttlSeconds && this.maxEntries == maxEntries
    {
      this.ttlSeconds, this.maxEntries := ttlSeconds, maxEntries;
      entries, accepted, clock := [], [], start;
    }

    /** Drop the expired entries: what is left is exactly the window at the new time. */
    method Purge(now: real)
      requires Valid() && clock <= now
      modifies `entries, `clock
      ensures Valid() && clock == now
      ensures entries == EntriesOf(Window(accepted, now, ttlSeconds, maxEntries), ttlSeconds)
    {
      AliveIsTheWindow(entries, accepted, clock, now, ttlSeconds, maxEntries);
      entries := Unexpired(entries, now);
      clock := now;
    }

    /** Add a nonce that is not held to the entries there is room beside. */
    method Add(room: seq<Entry>, nonce: string, now: real)
      requires Valid() && clock == now && maxEntries >= 1 && !HasNonce(entries, nonce)
      requires entries == EntriesOf(Window(accepted, now, ttlSeconds, maxEntries), ttlSeconds)
      requires |room| == Min(maxEntries - 1, |entries|) && room == entries[|entries| - |room|..]
      modifies `entries, `accepted
      ensures Valid() && accepted == old(accepted) + [Accepted(nonce, now)]
      ensures ttlSeconds > 0 ==> entries == EntriesOf(Window(accepted, now, ttlSeconds, maxEntries), ttlSeconds)
    {
      var entries' := room + [Entry(nonce, now + ttlSeconds as real)];
      ghost var accepted' := accepted + [Accepted(nonce, now)];
      AcceptAfterPurge(entries, room, accepted, entries', accepted', nonce, now, ttlSeconds, maxEntries);
      entries, accepted := entries', accepted';
    }

    /** Accept a nonce exactly when it is not in the window, and then add it to the history;
        None when the call raises, which it always does with a capacity below one. */
    method Consume(nonce: string, now: real) returns (unseen: Option<bool>)
      requires Valid() && clock <= now
      modifies this
      ensures Valid() && clock == now
      ensures unseen == (if maxEntries < 1 then None
                         else Some(!InWindow(old(accepted), nonce, now, ttlSeconds, maxEntries)))
      ensures accepted == if unseen == Some(true) then old(accepted) + [Accepted(nonce, now)] else old(accepted)
      ensures ttlSeconds > 0 ==> entries == EntriesOf(Window(accepted, now, ttlSeconds, maxEntries), ttlSeconds)
    {
      Purge(now);
      EntriesHaveWindowNonces(accepted, nonce, now, ttlSeconds, maxEntries);
      if HasNonce(entries, nonce) {
        return Some(false);
      }
      var room := MakeRoom(entries, maxEntries);
      if room.None? {
        entries := [];
        return None;
      }
      Add(room.value, nonce, now);
      return Some(true);
    }
  }

  /** Pop the oldest entries until one more fits; None when there is nothing left to pop. */
  method MakeRoom(held: seq<Entry>, maxEntries: int) returns (r: Option<seq<Entry>>)
    ensures r.None? <==> maxEntries < 1
    ensures r.Some? ==> |r.value| == Min(maxEntries - 1, |held|) && r.value == held[|held| - |r.value|..]
  {
    var entries := held;
    while |entries| >= maxEntries
      invariant Min(maxEntries - 1, |held|) <= |entries| <= |held|
      invariant entries == held[|held| - |entries|..]
    {
      if entries == [] {
        return None;
      }
      entries := entries[1..];
    }
    return Some(entries);
  }
}
