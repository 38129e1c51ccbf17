/** internal/journal/nonce.go: nonce derivation, the cache file that accelerates it, and the lease that
    holds the account lock. One manager stands for one (chain, account) pair. */
module Nonce {
  import opened Text
  import opened JournalRecord
  import opened JournalFile
  import opened JournalStore
  import Q = JournalQueries

  // --- derivation ---

  /** Nonces of the folded records of an account that consumed one. `account` is common.HexToAddress. */
  function Consumed(m: Latest, account: string -> int, addr: int): set<u64> {
    set id | id in m && account(m[id].from) == addr && ConsumesNonce(m[id].status) :: m[id].nonce
  }

  /** journalNext: one past the highest consumed nonce, in uint64. */
  predicate IsJournalNext(consumed: set<u64>, next: u64) {
    if consumed == {} then next == 0
    else exists top :: top in consumed && next == Next(top) && forall n | n in consumed :: n <= top
  }

  /** The uint64 successor is above everything consumed exactly when the top nonce 2^64-1 is unused. */
  lemma JournalNextIsFresh(consumed: set<u64>, next: u64)
    requires IsJournalNext(consumed, next)
    ensures (forall n | n in consumed :: n < next) <==> U64 - 1 !in consumed
  {
    if U64 - 1 in consumed {
      assert !((U64 - 1) < next);
    }
  }

  lemma {:induction false} JournalNextExists(consumed: set<u64>) returns (next: u64)
    ensures IsJournalNext(consumed, next)
  {
    if consumed == {} { return 0; }
    var top := Highest(consumed);
    return Next(top);
  }

  lemma {:induction false} Highest(s: set<u64>) returns (top: u64)
    requires s != {}
    ensures top in s && forall n | n in s :: n <= top
    decreases s
  {
    var n :| n in s;
    top := n;
    if s - {n} != {} {
      var rest := Highest(s - {n});
      top := if rest > n then rest else n;
    }
    assert forall x | x in s :: x == n || x in s - {n};
  }

  function Max(a: u64, b: u64): u64 {
    if a > b then a else b
  }

  /** NextNonce: the largest of what the chain, the cache and the journal say. */
  function Derived(chainPending: u64, localNext: u64, journalNext: u64): u64 {
    Max(Max(chainPending, localNext), journalNext)
  }

  /** An unforced lease falls behind neither the chain, nor the cache, nor the journal, and runs ahead of none but by
      following another: one nonce only is like that. */
  predicate IsLargest(nonce: u64, chainPending: u64, localNext: u64, journalNext: u64) {
    && nonce >= chainPending && nonce >= localNext && nonce >= journalNext
    && (nonce == chainPending || nonce == localNext || nonce == journalNext)
  }

  lemma DerivedIff(nonce: u64, chainPending: u64, localNext: u64, journalNext: u64)
    ensures nonce == Derived(chainPending, localNext, journalNext)
      <==> IsLargest(nonce, chainPending, localNext, journalNext)
  {}

  /** A derived nonce never repeats a consumed one, whatever chain and cache say. */
  lemma DerivedIsFresh(consumed: set<u64>, journalNext: u64, chainPending: u64, localNext: u64)
    requires IsJournalNext(consumed, journalNext) && U64 - 1 !in consumed
    ensures forall n | n in consumed :: n < Derived(chainPending, localNext, journalNext)
  {
    JournalNextIsFresh(consumed, journalNext);
  }

  /** No gap: the nonce just below is consumed, or there is none below. */
  predicate Gapless(consumed: set<u64>, nonce: u64) {
    nonce == 0 || nonce - 1 in consumed
  }

  /** The derived nonce follows on from the journal exactly when neither the chain nor the cache is
      ahead of it; ResetCache establishes the cache's half. */
  lemma GaplessIffNothingAhead(consumed: set<u64>, journalNext: u64, chainPending: u64, localNext: u64)
    requires IsJournalNext(consumed, journalNext) && U64 - 1 !in consumed
    ensures Gapless(consumed, Derived(chainPending, localNext, journalNext))
      <==> chainPending <= journalNext && localNext <= journalNext
  {
    var n := Derived(chainPending, localNext, journalNext);
    JournalNextIsFresh(consumed, journalNext);
    if n == journalNext && consumed != {} {
      var top :| top in consumed && n == Next(top);
      assert n - 1 in consumed;
    }
  }

  /** maxU64. */
  method MaxU64(vs: seq<u64>) returns (m: u64)
    ensures forall v | v in vs :: v <= m
    ensures m == 0 || m in vs
  {
    m := 0;
    for i := 0 to |vs|
      invariant forall j | 0 <= j < i :: vs[j] <= m
      invariant m == 0 || m in vs
    {
      if vs[i] > m { m := vs[i]; }
    }
  }

  /** A record of the account that is on its way: live and not settled. */
  predicate InFlight(m: Latest, account: string -> int, addr: int) {
    exists id :: id in m && account(m[id].from) == addr && ConsumesNonce(m[id].status) && !IsTerminal(m[id].status)
  }

  /** The loop of journalNext, over the fold in arbitrary order. */
  method JournalNext(m: Latest, account: string -> int, addr: int) returns (next: u64, hasInFlight: bool)
    ensures IsJournalNext(Consumed(m, account, addr), next)
    ensures hasInFlight <==> InFlight(m, account, addr)
  {
    var maxNonce: u64, any := 0, false;
    hasInFlight := false;
    var todo := m.Keys;
    while todo != {}
      invariant todo <= m.Keys
      invariant !any ==> maxNonce == 0
      invariant any <==> exists id :: id in m && id !in todo && account(m[id].from) == addr && ConsumesNonce(m[id].status)
      invariant any ==> maxNonce in Consumed(m, account, addr)
      invariant forall id | id in m && id !in todo && account(m[id].from) == addr && ConsumesNonce(m[id].status) ::
        m[id].nonce <= maxNonce
      invariant hasInFlight <==>
        exists id :: id in m && id !in todo && account(m[id].from) == addr && ConsumesNonce(m[id].status) && !IsTerminal(m[id].status)
      decreases todo
    {
      var id :| id in todo;
      todo := todo - {id};
      if account(m[id].from) != addr { continue; }
      if !ConsumesNonce(m[id].status) { continue; }
      any := true;
      if m[id].nonce >= maxNonce { maxNonce := m[id].nonce; }
      assert m[id].nonce in Consumed(m, account, addr);
      if !IsTerminal(m[id].status) { hasInFlight := true; }
    }
    if !any { return 0, hasInFlight; }
    return Next(maxNonce), hasInFlight;
  }

  // --- leases ---

  /** The account flock; `held` while some process owns it. */
  class Flock {
    var held: bool

    constructor ()
      ensures !held
    {
      held := false;
    }
  }

  datatype CacheFile = Missing | Garbage | Cached(next: u64)

  class NonceManager {
    const store: Store
    const lock: Flock
    const account: string -> int
    const addr: int
    var cache: CacheFile

    constructor (store: Store, lock: Flock, account: string -> int, addr: int)
      ensures this.store == store && this.lock == lock && this.account == account && this.addr == addr
      ensures cache == Missing
    {
      this.store, this.lock, this.account, this.addr, cache := store, lock, account, addr, Missing;
    }

    /** What the journal says this account has consumed. */
    function JournalConsumed(): set<u64>
      reads this, store.disk
    {
      Consumed(FoldOf(store.codec, store.disk.Bytes()), account, addr)
    }

    /** A missing cache counts as 0; an unparseable one is an error. */
    method ReadCache() returns (res: Result<u64>)
      ensures res.Ok? ==> (cache.Missing? && res.value == 0) || cache == Cached(res.value)
      ensures cache.Garbage? ==> res.Err?
    {
      if * { return Err(StateCorrupt); }
      match cache
      case Missing => return Ok(0);
      case Garbage => return Err(StateCorrupt);
      case Cached(n) => return Ok(n);
    }

    /** writeCache: the whole file or nothing, and possibly an error after the rename. */
    method WriteCache(next: u64) returns (res: Result<()>)
      modifies this`cache
      ensures cache == old(cache) || cache == Cached(next)
      ensures res.Ok? ==> cache == Cached(next)
    {
      if * { return Err(StateCorrupt); }
      cache := Cached(next);
      if * { return Err(StateCorrupt); }
      return Ok(());
    }

    /** journalNext, read under the shared journal lock. */
    method FoldJournal() returns (res: Result<(u64, bool)>)
      requires store.disk.Valid()
      ensures res.Ok? ==> IsJournalNext(JournalConsumed(), res.value.0)
      ensures res.Ok? ==> (res.value.1 <==> InFlight(FoldOf(store.codec, store.disk.Bytes()), account, addr))
    {
      var read := Q.Read(store);
      if read.Err? { return Err(read.error); }
      var next, inFlight := JournalNext(read.value, account, addr);
      return Ok((next, inFlight));
    }

    /** AcquireNonce. A timeout or any failure leaves the lock as it was; success returns a lease that
        holds it, on the forced nonce or on the largest of what the chain, the cache and the journal say. `violation`,
        the single-writer warning, means that the chain is ahead of both others with nothing in flight. */
    method AcquireNonce(chainPending: u64, forced: Option<u64>) returns (res: Result<Lease>, violation: bool)
      requires store.disk.Valid()
      modifies lock
      ensures res.Err? ==> lock.held == old(lock.held)
      ensures res.Ok? ==> !old(lock.held) && lock.held && fresh(res.value) && res.value.mgr == this && !res.value.finished
      ensures res.Ok? && forced.Some? ==> res.value.nonce == forced.value
      ensures res.Ok? && forced.None? ==> exists journalNext ::
        && IsJournalNext(JournalConsumed(), journalNext)
        && !cache.Garbage?
        && var localNext := if cache.Cached? then cache.next else 0;
           && IsLargest(res.value.nonce, chainPending, localNext, journalNext)
           && (violation <==> chainPending > journalNext && chainPending > localNext
                              && !InFlight(FoldOf(store.codec, store.disk.Bytes()), account, addr))
      ensures violation ==> res.Ok? && forced.None?
    {
      violation := false;
      if lock.held { return Err(LockTimeout), false; }
      if * { return Err(LockTimeout), false; }
      lock.held := true;
      var nonce: u64;
      ghost var derivedFrom: u64 := 0;
      if forced.Some? {
        nonce := forced.value;
      } else {
        var journal := FoldJournal();
        if journal.Err? {
          lock.held := false;
          return Err(journal.error), false;
        }
        var local := ReadCache();
        if local.Err? {
          lock.held := false;
          return Err(local.error), false;
        }
        var (journalNext, hasInFlight) := journal.value;
        violation := chainPending > journalNext && chainPending > local.value && !hasInFlight;
        var vs := [chainPending, local.value, journalNext];
        nonce := MaxU64(vs);
        assert vs[0] in vs && vs[1] in vs && vs[2] in vs;
        assert IsLargest(nonce, chainPending, local.value, journalNext);
        derivedFrom := journalNext;
      }
      var lease := new Lease(this, nonce);
      assert forced.None? ==> IsJournalNext(JournalConsumed(), derivedFrom);
      return Ok(lease), violation;
    }

    /** ResetCache: lowers the cache to what the journal says; the lock is free again either way. */
    method ResetCache() returns (res: Result<()>)
      requires store.disk.Valid()
      modifies lock, this`cache
      ensures lock.held == old(lock.held)
      ensures old(lock.held) ==> res.Err? && cache == old(cache)
      ensures cache == old(cache) || (cache.Cached? && IsJournalNext(JournalConsumed(), cache.next))
      ensures res.Ok? ==> cache.Cached? && IsJournalNext(JournalConsumed(), cache.next)
    {
      if lock.held { return Err(LockTimeout); }
      if * { return Err(LockTimeout); }
      lock.held := true;
      var journal := FoldJournal();
      if journal.Err? {
        lock.held := false;
        return Err(journal.error);
      }
      res := WriteCache(journal.value.0);
      lock.held := false;
    }
  }

  class Lease {
    const mgr: NonceManager
    const nonce: u64
    var finished: bool

    constructor (mgr: NonceManager, nonce: u64)
      ensures this.mgr == mgr && this.nonce == nonce && !finished
    {
      this.mgr, this.nonce, finished := mgr, nonce, false;
    }

    /** Commit: the cache moves past the nonce (or keeps its old value if the write fails), and the lock
        is freed, once: a later call touches neither. */
    method Commit() returns (res: Result<()>)
      modifies this, mgr`cache, mgr.lock
      ensures finished
      ensures old(finished) ==> res.Ok? && mgr.cache == old(mgr.cache) && mgr.lock.held == old(mgr.lock.held)
      ensures !old(finished) ==> !mgr.lock.held && (mgr.cache == old(mgr.cache) || mgr.cache == Cached(Next(nonce)))
      ensures !old(finished) && res.Ok? ==> mgr.cache == Cached(Next(nonce))
    {
      if finished { return Ok(()); }
      finished := true;
      res := mgr.WriteCache(Next(nonce));
      mgr.lock.held := false;
    }

    /** Release: the lock is freed, once; the cache is not touched. */
    method Release() returns (res: Result<()>)
      modifies this, mgr.lock
      ensures res.Ok? && finished
      ensures mgr.lock.held == (if old(finished) then old(mgr.lock.held) else false)
    {
      res := Ok(());
      if finished { return; }
      finished := true;
      mgr.lock.held := false;
    }
  }
}
