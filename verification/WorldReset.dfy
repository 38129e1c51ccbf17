/** What ResetCache is worth to a later lease, over whole runs (internal/journal/nonce.go). */
module WorldReset {
  import opened Text
  import opened JournalRecord
  import opened JournalFile
  import opened Nonce
  import opened World

  // --- what a derivation goes by ---

  /** Where a process that has folded the journal did so: its account state has not changed since. */
  lemma {:induction false} FoldedSince(e: Env, ws: seq<World>, ss: seq<Step>, k: nat, p: Pid) returns (f: nat)
    requires IsRun(e, ws, ss) && k < |ws| && p in ws[k].procs && ws[k].procs[p].acct.Folded?
    ensures f < k && Folds(e, ws, ss, f, p, ws[k].procs[p].acct)
    ensures forall j | f < j <= k :: p in ws[j].procs && ws[j].procs[p].acct == ws[k].procs[p].acct
  {
    if k > 0 && ss[k - 1].FoldStep? && ss[k - 1].p == p {
      f := k - 1;
      FoldsThere(e, ws, ss, f, p);
    } else {
      FoldedEarlier(e, ws, ss, k, p);
      f := FoldedSince(e, ws, ss, k - 1, p);
    }
  }

  lemma FoldsThere(e: Env, ws: seq<World>, ss: seq<Step>, f: nat, p: Pid)
    requires IsRun(e, ws, ss) && f < |ss| && ss[f].FoldStep? && ss[f].p == p
    requires p in ws[f + 1].procs && ws[f + 1].procs[p].acct.Folded?
    ensures Folds(e, ws, ss, f, p, ws[f + 1].procs[p].acct)
  {
    assert StepAt(e, ws, ss, f);
  }

  lemma FoldedEarlier(e: Env, ws: seq<World>, ss: seq<Step>, k: nat, p: Pid)
    requires IsRun(e, ws, ss) && k < |ws| && p in ws[k].procs && ws[k].procs[p].acct.Folded?
    requires k > 0 ==> !(ss[k - 1].FoldStep? && ss[k - 1].p == p)
    ensures k > 0 && p in ws[k - 1].procs && ws[k - 1].procs[p].acct == ws[k].procs[p].acct
  {
    if k > 0 {
      assert StepAt(e, ws, ss, k - 1);
      FoldedStays(e, ws[k - 1], ss[k - 1], ws[k], p);
    }
  }

  /** Step `f` is the fold by which `p` came to the account state `a`. */
  ghost predicate Folds(e: Env, ws: seq<World>, ss: seq<Step>, f: nat, p: Pid, a: Account) {
    && f < |ws| && f < |ss| && a.Folded?
    && ss[f] == FoldStep(p, a.journalNext)
    && IsJournalNext(Consumed(Now(e, ws[f]), e.account, a.addr), a.journalNext)
  }

  lemma FoldedStays(e: Env, w: World, s: Step, w': World, p: Pid)
    requires Takes(e, w, s, w') && p in w'.procs && w'.procs[p].acct.Folded? && !(s.FoldStep? && s.p == p)
    ensures p in w.procs && w.procs[p].acct == w'.procs[p].acct
  {
    if s.Tamper? || s.p != p {
      OthersStay(e, w, s, w', p);
    } else {
      FoldedWasThere(e, w, s, w');
      AccountOrigin(e, w, s, w');
    }
  }

  lemma FoldedWasThere(e: Env, w: World, s: Step, w': World)
    requires Takes(e, w, s, w') && !s.Tamper? && !s.FoldStep? && s.p in w'.procs && w'.procs[s.p].acct.Folded?
    ensures s.p in w.procs
  {}

  // --- the cache between the reset and the lease ---

  /** Steps that write the cache file of the account. */
  predicate TouchesCache(w: World, s: Step, addr: int) {
    s.Tamper?
    || ((s.Commit? || s.WriteReset?) && s.p in w.procs && !w.procs[s.p].acct.NoAccount? && w.procs[s.p].acct.addr == addr)
  }

  lemma CacheStays(e: Env, w: World, s: Step, w': World, addr: int)
    requires Takes(e, w, s, w') && !TouchesCache(w, s, addr)
    ensures CacheOf(w', addr) == CacheOf(w, addr)
  {}

  lemma {:induction false} CacheHolds(e: Env, ws: seq<World>, ss: seq<Step>, i: nat, k: nat, addr: int)
    requires IsRun(e, ws, ss) && i <= k < |ws|
    requires forall j | i <= j < k :: !TouchesCache(ws[j], ss[j], addr)
    ensures CacheOf(ws[k], addr) == CacheOf(ws[i], addr)
    decreases k
  {
    if i < k {
      CacheHolds(e, ws, ss, i, k - 1, addr);
      assert StepAt(e, ws, ss, k - 1);
      CacheStays(e, ws[k - 1], ss[k - 1], ws[k], addr);
    }
  }

  lemma ResetWrites(e: Env, w: World, s: Step, w': World)
    requires Takes(e, w, s, w') && s.WriteReset?
    ensures w.procs[s.p].acct.Folded?
    ensures CacheOf(w', w.procs[s.p].acct.addr) == w.procs[s.p].acct.journalNext
    ensures s.p in w'.procs && w'.procs[s.p].acct.NoAccount?
  {}

  /** Commit moves the cache past the lease's nonce, which stays below the wrap for a nonce that was journaled. */
  lemma CommitWrites(e: Env, w: World, s: Step, w': World)
    requires Takes(e, w, s, w') && s.Commit?
    ensures w.procs[s.p].acct.Leased?
    ensures var a := w.procs[s.p].acct; a.nonce < U64 - 1 ==> CacheOf(w', a.addr) == a.nonce + 1
    ensures s.p in w'.procs && w'.procs[s.p].acct.NoAccount?
  {}

  lemma LeaseTakes(e: Env, w: World, s: Step, w': World)
    requires Takes(e, w, s, w') && s.TakeLease?
    ensures w.procs[s.p].acct.Folded? && s.p in w'.procs && w'.procs[s.p].acct.Leased?
    ensures var a := w.procs[s.p].acct;
      a.intent.Send? && w'.procs[s.p].acct.nonce == Derived(a.intent.chainPending, CacheOf(w, a.addr), a.journalNext)
  {}

  /** In any run an unforced lease falls behind neither the chain, nor the cache, nor the journal as of the fold `f`
      it goes by, and is one of the three. */
  lemma LeaseIsLargest(e: Env, ws: seq<World>, ss: seq<Step>, k: nat) returns (f: nat)
    requires e.codec.Valid() && IsRun(e, ws, ss) && k < |ss| && ss[k].TakeLease?
    ensures ss[k].p in ws[k].procs && ws[k].procs[ss[k].p].acct.Folded? && ws[k].procs[ss[k].p].acct.intent.Send?
    ensures ss[k].p in ws[k + 1].procs && ws[k + 1].procs[ss[k].p].acct.Leased?
    ensures f < k && var a, nonce := ws[k].procs[ss[k].p].acct, ws[k + 1].procs[ss[k].p].acct.nonce;
      && IsJournalNext(Consumed(Now(e, ws[f]), e.account, a.addr), a.journalNext)
      && nonce >= a.intent.chainPending && nonce >= CacheOf(ws[k], a.addr) && nonce >= a.journalNext
      && (nonce == a.intent.chainPending || nonce == CacheOf(ws[k], a.addr) || nonce == a.journalNext)
  {
    assert StepAt(e, ws, ss, k);
    var a := ws[k].procs[ss[k].p].acct;
    LeaseTakes(e, ws[k], ss[k], ws[k + 1]);
    f := FoldedSince(e, ws, ss, k, ss[k].p);
    DerivedIff(ws[k + 1].procs[ss[k].p].acct.nonce, a.intent.chainPending, CacheOf(ws[k], a.addr), a.journalNext);
  }

  /** Two processes that both hold an account's lock are one, so nobody who had folded for the account before a
      reset of it is still where it was after. */
  lemma HolderChanges(e: Env, w: World, s: Step, w': World, q: Pid)
    requires LocksMatch(w) && Takes(e, w, s, w') && s.WriteReset? && q in w.procs && w.procs[q].acct.Folded?
    requires w.procs[q].acct.addr == w.procs[s.p].acct.addr
    ensures !(q in w'.procs && w'.procs[q].acct == w.procs[q].acct)
  {
    ResetWrites(e, w, s, w');
  }

  /** The lease folds the journal after the reset is done: the account lock keeps the two apart. */
  lemma FoldAfterReset(e: Env, ws: seq<World>, ss: seq<Step>, i: nat, f: nat, k: nat)
    requires e.codec.Valid() && ResetThenLease(e, ws, ss, i, k) && f < k && ss[f].FoldStep?
    requires forall j | f < j <= k :: ss[k].p in ws[j].procs && ws[j].procs[ss[k].p].acct == ws[k].procs[ss[k].p].acct
    ensures i < f
  {
    if f < i {
      RunsKeepInvariant(e, ws, ss, i);
      assert StepAt(e, ws, ss, i);
      assert ss[k].p in ws[i].procs && ss[k].p in ws[i + 1].procs;
      HolderChanges(e, ws[i], ss[i], ws[i + 1], ss[k].p);
      assert false;
    }
  }

  // --- when the reset value is still good ---

  /** A record of the account that was newest at the reset's fold has not failed by the lease's, or one that was
      not there has come with no lower nonce. */
  ghost predicate StillBacked(e: Env, m: Latest, m': Latest, addr: int, top: u64) {
    || (exists id :: LiveAt(e, m, id, addr) && m[id].nonce == top && id in m' && m'[id].status != FAILED)
    || (exists id :: id !in m && LiveAt(e, m', id, addr) && m'[id].nonce >= top)
  }

  lemma NextIsPastTop(e: Env, m: Latest, addr: int, next: u64) returns (id: string)
    requires Bounded(m) && IsJournalNext(Consumed(m, e.account, addr), next) && next > 0
    ensures LiveAt(e, m, id, addr) && m[id].nonce == next - 1
    ensures forall x | LiveAt(e, m, x, addr) :: m[x].nonce < next
  {
    var consumed := Consumed(m, e.account, addr);
    var top :| top in consumed && next == Next(top) && forall n | n in consumed :: n <= top;
    id :| id in m && e.account(m[id].from) == addr && ConsumesNonce(m[id].status) && m[id].nonce == top;
    forall x | LiveAt(e, m, x, addr)
      ensures m[x].nonce < next
    {
      assert m[x].nonce in consumed;
    }
  }

  lemma LiveIsBelowNext(e: Env, m: Latest, addr: int, next: u64, id: string)
    requires Bounded(m) && IsJournalNext(Consumed(m, e.account, addr), next) && LiveAt(e, m, id, addr)
    ensures m[id].nonce < next
  {
    assert m[id].nonce in Consumed(m, e.account, addr);
    JournalNextIsFresh(Consumed(m, e.account, addr), next);
    forall n | n in Consumed(m, e.account, addr)
      ensures n != U64 - 1
    {}
  }

  /** The journal's next nonce is at least what it was exactly when nothing was consumed then, or the newest record
      of then, or a newer one, is still live. */
  lemma NextKeptIff(e: Env, m: Latest, m': Latest, addr: int, before: u64, after: u64)
    requires Persists(m, m') && Bounded(m) && Bounded(m')
    requires IsJournalNext(Consumed(m, e.account, addr), before) && IsJournalNext(Consumed(m', e.account, addr), after)
    ensures before <= after <==> before == 0 || StillBacked(e, m, m', addr, before - 1)
  {
    if 0 < before <= after {
      var top := NextIsPastTop(e, m, addr, before);
      var id := NextIsPastTop(e, m', addr, after);
      if id in m {
        assert LiveAt(e, m, id, addr) && m[id].nonce == before - 1;
      }
    }
    if before > 0 && StillBacked(e, m, m', addr, before - 1) {
      if id :| LiveAt(e, m, id, addr) && m[id].nonce == before - 1 && id in m' && m'[id].status != FAILED {
        LiveIsBelowNext(e, m', addr, after, id);
      } else {
        var id :| id !in m && LiveAt(e, m', id, addr) && m'[id].nonce >= before - 1;
        LiveIsBelowNext(e, m', addr, after, id);
      }
    }
  }

  // --- the run theorem ---

  /** Step `i` resets the cache of the account step `k` leases from, and nothing writes that cache in between. */
  ghost predicate ResetThenLease(e: Env, ws: seq<World>, ss: seq<Step>, i: nat, k: nat) {
    && IsRun(e, ws, ss) && i < k < |ss| && ss[i].WriteReset? && ss[k].TakeLease?
    && ss[i].p in ws[i].procs && ss[k].p in ws[k].procs
    && ws[i].procs[ss[i].p].acct.Folded? && ws[k].procs[ss[k].p].acct.Folded?
    && ws[i].procs[ss[i].p].acct.addr == ws[k].procs[ss[k].p].acct.addr
    && forall j | i < j < k :: !TouchesCache(ws[j], ss[j], ws[k].procs[ss[k].p].acct.addr)
  }

  /** After a reset, in any run, the next unforced lease of the account is exactly the nonce the journal calls for
      if and only if neither the chain nor the value the reset wrote is ahead of it. The reset wrote the journal's
      next nonce as of its own fold, at `r`; the lease goes by a later fold, at `f`, and the reset value is not
      ahead of that exactly when the newest record of then, or a newer one, has not failed in between. */
  lemma LeaseAfterReset(e: Env, ws: seq<World>, ss: seq<Step>, i: nat, k: nat) returns (r: nat, f: nat)
    requires e.codec.Valid() && ResetThenLease(e, ws, ss, i, k)
    ensures r < i < f < k
    ensures Folds(e, ws, ss, r, ss[i].p, ws[i].procs[ss[i].p].acct)
    ensures Folds(e, ws, ss, f, ss[k].p, ws[k].procs[ss[k].p].acct)
    ensures var a, reset := ws[k].procs[ss[k].p].acct, ws[i].procs[ss[i].p].acct.journalNext;
      && a.intent.Send? && ss[k].p in ws[k + 1].procs && ws[k + 1].procs[ss[k].p].acct.Leased?
      && (ws[k + 1].procs[ss[k].p].acct.nonce == a.journalNext <==>
          a.intent.chainPending <= a.journalNext && reset <= a.journalNext)
      && (reset <= a.journalNext <==>
          reset == 0 || StillBacked(e, Now(e, ws[r]), Now(e, ws[f]), a.addr, reset - 1))
  {
    var p, q := ss[i].p, ss[k].p;
    var b, a := ws[i].procs[p].acct, ws[k].procs[q].acct;
    r := FoldedSince(e, ws, ss, i, p);
    f := FoldedSince(e, ws, ss, k, q);
    FoldAfterReset(e, ws, ss, i, f, k);
    LeasedFromCache(e, ws, ss, i, k);
    RunsKeepInvariant(e, ws, ss, r);
    RunsKeepInvariant(e, ws, ss, f);
    RecordsPersist(e, ws, ss, r, f);
    NextKeptIff(e, Now(e, ws[r]), Now(e, ws[f]), a.addr, b.journalNext, a.journalNext);
  }

  lemma LeasedFromCache(e: Env, ws: seq<World>, ss: seq<Step>, i: nat, k: nat)
    requires ResetThenLease(e, ws, ss, i, k)
    ensures var a, reset := ws[k].procs[ss[k].p].acct, ws[i].procs[ss[i].p].acct.journalNext;
      && a.intent.Send? && ss[k].p in ws[k + 1].procs && ws[k + 1].procs[ss[k].p].acct.Leased?
      && ws[k + 1].procs[ss[k].p].acct.nonce == Derived(a.intent.chainPending, reset, a.journalNext)
  {
    assert StepAt(e, ws, ss, i) && StepAt(e, ws, ss, k);
    ResetWrites(e, ws[i], ss[i], ws[i + 1]);
    CacheHolds(e, ws, ss, i + 1, k, ws[k].procs[ss[k].p].acct.addr);
    LeaseTakes(e, ws[k], ss[k], ws[k + 1]);
  }
}
