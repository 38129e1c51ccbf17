/** Many processes over one chain's journal file, its nonce caches and its locks: the steps of
    internal/journal/nonce.go and store.go, interleaved in any way, with a crash possible between any
    two steps and after every byte of an append. */
module World {
  import opened Text
  import opened JournalRecord
  import opened JournalFile
  import opened Nonce

  /** encoding/json at Record, and common.HexToAddress. */
  datatype Env = Env(codec: Codec, account: string -> int)

  type Pid = nat

  /** What an account lock is wanted for: a derived nonce, a forced one, or ResetCache. */
  datatype Intent = Send(chainPending: u64) | Forced(nonce: u64) | Reset

  /** Where a process stands with the account lock. */
  datatype Account =
    | NoAccount
    | Waiting(addr: int, intent: Intent)
    | Deriving(addr: int, intent: Intent)
    | Folded(addr: int, intent: Intent, journalNext: u64)
    | Leased(addr: int, nonce: u64, derived: bool, journaled: bool)
  {
    predicate Holds() {
      Deriving? || Folded? || Leased?
    }
  }

  /** What an exclusive journal section is for: Append of a new record, or SetState. */
  datatype Job = AddNew(draft: Record, derived: bool) | Change(id: string, mutation: StateMutation)

  /** Where a process stands with the journal lock. */
  datatype Journal =
    | NoJournal
    | WaitShared
    | Shared
    | WaitExclusive(job: Job)
    | Owner(job: Job)
    | Ready(job: Job, recs: seq<Record>)
    | Writing(job: Job, recs: seq<Record>, base: string, r: Record, k: nat)
    | Compacted
  {
    predicate Owns() {
      Owner? || Ready? || Writing? || Compacted?
    }
  }

  datatype Proc = Proc(acct: Account, jrn: Journal)

  const IDLE := Proc(NoAccount, NoJournal)

  /** `cache` maps an account to its cache file's value; `accountLock` to the process holding its lock.
      `derived` collects the ids of records journaled for unforced leases: history, not disk state. */
  datatype World = World(
    file: string, cache: map<int, u64>,
    accountLock: map<int, Pid>, exclusive: Option<Pid>, shared: set<Pid>,
    procs: map<Pid, Proc>, derived: set<string>)

  datatype Step =
    | Spawn(p: Pid)
    | Crash(p: Pid)
    | Tamper(newCache: map<int, u64>)
    | AskAccount(p: Pid, addr: int, intent: Intent)
    | GetAccount(p: Pid)
    | GiveUp(p: Pid)
    | AskShared(p: Pid)
    | GetShared(p: Pid)
    | FoldStep(p: Pid, journalNext: u64)
    | DropShared(p: Pid)
    | TakeLease(p: Pid)
    | WriteReset(p: Pid)
    | AskAppend(p: Pid, draft: Record)
    | AskChange(p: Pid, id: string, mutation: StateMutation)
    | GetExclusive(p: Pid)
    | ReadRepair(p: Pid)
    | Stamp(p: Pid, id: string, ts: string)
    | WriteByte(p: Pid)
    | Compact(p: Pid, snap: seq<Record>)
    | DropExclusive(p: Pid)
    | Commit(p: Pid)
    | Release(p: Pid)

  function Now(e: Env, w: World): Latest {
    FoldOf(e.codec, w.file)
  }

  /** SetState goes on only with a record it found. */
  predicate Found(job: Job, recs: seq<Record>) {
    job.Change? ==> job.id in Fold(recs)
  }

  /** The record a job adds after `recs`. */
  function Stamped(job: Job, recs: seq<Record>, id: string, ts: string): Record
    requires Found(job, recs)
  {
    match job
    case AddNew(draft, _) => draft.(id := id, ts := ts, seqNo := Next(MaxSeq(recs)))
    case Change(old_id, m) => Apply(m, Fold(recs)[old_id]).(ts := ts, seqNo := Next(MaxSeq(recs)))
  }

  /** Is the process at the point of its program where it takes this step? */
  predicate Placed(e: Env, w: World, s: Step) {
    match s
    case Spawn(p) => p !in w.procs
    case Crash(p) => p in w.procs
    case Tamper(_) => true
    case AskAccount(p, _, _) => p in w.procs && w.procs[p] == IDLE
    case GetAccount(p) => p in w.procs && w.procs[p].acct.Waiting?
    case GiveUp(p) =>
      && p in w.procs
      && (w.procs[p].acct.Waiting? || w.procs[p].jrn.WaitShared? || w.procs[p].jrn.WaitExclusive?
          || ((w.procs[p].acct.Deriving? || w.procs[p].acct.Folded?) && w.procs[p].jrn.NoJournal?))
    case AskShared(p) => p in w.procs && !w.procs[p].acct.Waiting? && w.procs[p].jrn.NoJournal?
    case GetShared(p) => p in w.procs && w.procs[p].jrn.WaitShared?
    case FoldStep(p, next) => p in w.procs && w.procs[p].acct.Deriving? && w.procs[p].jrn.Shared?
    case DropShared(p) => p in w.procs && w.procs[p].jrn.Shared?
    case TakeLease(p) => p in w.procs && w.procs[p].acct.Folded? && w.procs[p].acct.intent.Send? && w.procs[p].jrn.NoJournal?
    case WriteReset(p) => p in w.procs && w.procs[p].acct.Folded? && w.procs[p].acct.intent.Reset? && w.procs[p].jrn.NoJournal?
    case AskAppend(p, _) => p in w.procs && w.procs[p].acct.Leased? && w.procs[p].jrn.NoJournal?
    case AskChange(p, _, _) =>
      p in w.procs && (w.procs[p].acct.NoAccount? || w.procs[p].acct.Leased?) && w.procs[p].jrn.NoJournal?
    case GetExclusive(p) => p in w.procs && w.procs[p].jrn.WaitExclusive?
    case ReadRepair(p) => p in w.procs && w.procs[p].jrn.Owner?
    case Stamp(p, _, _) => p in w.procs && w.procs[p].jrn.Ready? && Found(w.procs[p].jrn.job, w.procs[p].jrn.recs)
    case WriteByte(p) =>
      p in w.procs && w.procs[p].jrn.Writing? && w.procs[p].jrn.k < |e.codec.Line(w.procs[p].jrn.r)|
    case Compact(p, _) =>
      p in w.procs && w.procs[p].jrn.Writing? && w.procs[p].jrn.k == |e.codec.Line(w.procs[p].jrn.r)|
    case DropExclusive(p) => p in w.procs && w.procs[p].jrn.Owns()
    case Commit(p) => p in w.procs && w.procs[p].acct.Leased? && w.procs[p].jrn.NoJournal?
    case Release(p) => p in w.procs && w.procs[p].acct.Leased? && w.procs[p].jrn.NoJournal?
  }

  /** What the step needs of the rest of the world, and the guards a caller owes: a lease journals once, an
      id is new, and neither the seq nor a journaled nonce reaches 2^64-1. */
  ghost predicate Guarded(e: Env, w: World, s: Step)
    requires Placed(e, w, s)
  {
    match s
    case GetAccount(p) => w.procs[p].acct.addr !in w.accountLock
    case GetShared(p) => w.exclusive.None?
    case FoldStep(p, next) => IsJournalNext(Consumed(Now(e, w), e.account, w.procs[p].acct.addr), next)
    case AskAppend(p, draft) =>
      && !w.procs[p].acct.journaled
      && e.account(draft.from) == w.procs[p].acct.addr && draft.nonce == w.procs[p].acct.nonce < U64 - 1
    case GetExclusive(p) => w.exclusive.None? && w.shared == {}
    case Stamp(p, id, _) =>
      var job, recs := w.procs[p].jrn.job, w.procs[p].jrn.recs;
      && MaxSeq(recs) < U64 - 1
      && (job.AddNew? ==> id !in Fold(recs))
    case Compact(p, snap) => IsSnapshot(Fold(w.procs[p].jrn.recs + [w.procs[p].jrn.r]), snap)
    case _ => true
  }

  /** One more guard a caller owes: a transition of a failed record leaves it failed. */
  predicate RevivesNothing(e: Env, w: World, s: Step)
    requires Placed(e, w, s)
  {
    s.Stamp? && w.procs[s.p].jrn.job.Change? ==>
      var job, m := w.procs[s.p].jrn.job, Fold(w.procs[s.p].jrn.recs);
      m[job.id].status == FAILED ==> Apply(job.mutation, m[job.id]).status == FAILED
  }

  /** May the step be taken? */
  ghost predicate Enabled(e: Env, w: World, s: Step) {
    Placed(e, w, s) && Guarded(e, w, s) && RevivesNothing(e, w, s)
  }

  // --- the effect of a step ---

  function SetProc(w: World, p: Pid, acct: Account, jrn: Journal): World {
    w.(procs := w.procs[p := Proc(acct, jrn)])
  }

  /** The account lock goes free with its holder's account state. */
  function DropAccount(w: World, p: Pid, jrn: Journal): World
    requires p in w.procs && (w.procs[p].acct.Waiting? || w.procs[p].acct.Holds())
  {
    var a := w.procs[p].acct;
    SetProc(if a.Holds() then w.(accountLock := w.accountLock - {a.addr}) else w, p, NoAccount, jrn)
  }

  /** What the operating system does when a process dies: its locks are gone, the files stay. */
  function Vanish(w: World, p: Pid): World
    requires p in w.procs
  {
    var proc := w.procs[p];
    w.(procs := w.procs - {p},
    accountLock := if proc.acct.Holds() then w.accountLock - {proc.acct.addr} else w.accountLock,
    exclusive := if proc.jrn.Owns() then None else w.exclusive,
    shared := w.shared - {p})
  }

  function CacheOf(w: World, addr: int): u64 {
    if addr in w.cache then w.cache[addr] else 0
  }

  function WithCache(w: World, addr: int, nonce: u64): World {
    w.(cache := w.cache[addr := nonce])
  }

  /** The account lock is granted: a forced nonce is leased at once, any other has to be derived. */
  function AccountGranted(w: World, p: Pid): World
    requires p in w.procs && w.procs[p].acct.Waiting?
  {
    var a := w.procs[p].acct;
    SetProc(w.(accountLock := w.accountLock[a.addr := p]), p,
            if a.intent.Forced? then Leased(a.addr, a.intent.nonce, false, false) else Deriving(a.addr, a.intent),
            NoJournal)
  }

  /** A lock did not come in time, or deriving failed: only a lease outlives that. */
  function GivenUp(w: World, p: Pid): World
    requires p in w.procs
  {
    var a := w.procs[p].acct;
    if a.NoAccount? || a.Leased? then SetProc(w, p, a, NoJournal) else DropAccount(w, p, NoJournal)
  }

  function LeaseTaken(w: World, p: Pid): World
    requires p in w.procs && w.procs[p].acct.Folded? && w.procs[p].acct.intent.Send?
  {
    var a := w.procs[p].acct;
    SetProc(w, p, Leased(a.addr, Derived(a.intent.chainPending, CacheOf(w, a.addr), a.journalNext), true, false), NoJournal)
  }

  /** The record is stamped and its line begins. */
  function LineStarted(w: World, p: Pid, id: string, ts: string): World
    requires p in w.procs && w.procs[p].jrn.Ready?
    requires Found(w.procs[p].jrn.job, w.procs[p].jrn.recs)
  {
    var job, recs := w.procs[p].jrn.job, w.procs[p].jrn.recs;
    SetProc(w, p, w.procs[p].acct, Writing(job, recs, w.file, Stamped(job, recs, id, ts), 0))
  }

  /** The next byte of the line reaches the file; the last one makes the record durable. */
  function OneByteMore(e: Env, w: World, p: Pid): World
    requires p in w.procs && w.procs[p].jrn.Writing? && w.procs[p].jrn.k < |e.codec.Line(w.procs[p].jrn.r)|
  {
    var j := w.procs[p].jrn;
    var line := e.codec.Line(j.r);
    SetProc(w.(file := w.file + [line[j.k]],
            derived := if j.k + 1 == |line| && j.job.AddNew? && j.job.derived then w.derived + {j.r.id} else w.derived),
            p, w.procs[p].acct, j.(k := j.k + 1))
  }

  function Do(e: Env, w: World, s: Step): World
    requires Placed(e, w, s)
  {
    match s
    case Spawn(p) => w.(procs := w.procs[p := IDLE])
    case Crash(p) => Vanish(w, p)
    case Tamper(newCache) => w.(cache := newCache)
    case AskAccount(p, addr, intent) => SetProc(w, p, Waiting(addr, intent), NoJournal)
    case GetAccount(p) => AccountGranted(w, p)
    case GiveUp(p) => GivenUp(w, p)
    case AskShared(p) => SetProc(w, p, w.procs[p].acct, WaitShared)
    case GetShared(p) => SetProc(w.(shared := w.shared + {p}), p, w.procs[p].acct, Shared)
    case FoldStep(p, next) => SetProc(w, p, Folded(w.procs[p].acct.addr, w.procs[p].acct.intent, next), Shared)
    case DropShared(p) => SetProc(w.(shared := w.shared - {p}), p, w.procs[p].acct, NoJournal)
    case TakeLease(p) => LeaseTaken(w, p)
    case WriteReset(p) => DropAccount(WithCache(w, w.procs[p].acct.addr, w.procs[p].acct.journalNext), p, NoJournal)
    case AskAppend(p, draft) =>
      var a := w.procs[p].acct;
      SetProc(w, p, a.(journaled := true), WaitExclusive(AddNew(draft, a.derived)))
    case AskChange(p, id, mutation) => SetProc(w, p, w.procs[p].acct, WaitExclusive(Change(id, mutation)))
    case GetExclusive(p) => SetProc(w.(exclusive := Some(p)), p, w.procs[p].acct, Owner(w.procs[p].jrn.job))
    case ReadRepair(p) =>
      SetProc(w.(file := Repaired(w.file)), p, w.procs[p].acct, Ready(w.procs[p].jrn.job, Records(e.codec, w.file)))
    case Stamp(p, id, ts) => LineStarted(w, p, id, ts)
    case WriteByte(p) => OneByteMore(e, w, p)
    case Compact(p, snap) => SetProc(w.(file := Encoded(e.codec, snap)), p, w.procs[p].acct, Compacted)
    case DropExclusive(p) => SetProc(w.(exclusive := None), p, w.procs[p].acct, NoJournal)
    case Commit(p) => DropAccount(WithCache(w, w.procs[p].acct.addr, Next(w.procs[p].acct.nonce)), p, NoJournal)
    case Release(p) => DropAccount(w, p, NoJournal)
  }

  // --- locks ---

  /** The account locks on disk are exactly those the processes hold. */
  ghost predicate AccountsMatch(locks: map<int, Pid>, procs: map<Pid, Proc>) {
    && (forall a | a in locks :: locks[a] in procs && procs[locks[a]].acct.Holds() && procs[locks[a]].acct.addr == a)
    && (forall p | p in procs && procs[p].acct.Holds() :: procs[p].acct.addr in locks && locks[procs[p].acct.addr] == p)
  }

  /** The journal lock likewise; a process waiting for an account lock has nothing of it. */
  ghost predicate JournalsMatch(exclusive: Option<Pid>, shared: set<Pid>, procs: map<Pid, Proc>) {
    && (forall p :: p in shared <==> p in procs && procs[p].jrn.Shared?)
    && (forall p :: exclusive == Some(p) <==> p in procs && procs[p].jrn.Owns())
    && (exclusive.Some? ==> shared == {})
    && (forall p | p in procs && procs[p].acct.Waiting? :: procs[p].jrn.NoJournal?)
  }

  ghost predicate LocksMatch(w: World) {
    AccountsMatch(w.accountLock, w.procs) && JournalsMatch(w.exclusive, w.shared, w.procs)
  }

  /** `s` takes `w` to `w'`. */
  ghost predicate Takes(e: Env, w: World, s: Step, w': World) {
    Enabled(e, w, s) && w' == Do(e, w, s)
  }

  /** One process's account state may change as long as the account locks follow. */
  lemma AccountUpdate(w: World, p: Pid, was: Account, w': World)
    requires AccountsMatch(w.accountLock, w.procs)
    requires p in w'.procs && w'.procs == w.procs[p := w'.procs[p]]
    requires if p in w.procs then was == w.procs[p].acct else was == NoAccount
    requires var now := w'.procs[p].acct;
      if was.Holds() == now.Holds() then w'.accountLock == w.accountLock && (now.Holds() ==> was.addr == now.addr)
      else if now.Holds() then now.addr !in w.accountLock && w'.accountLock == w.accountLock[now.addr := p]
      else w'.accountLock == w.accountLock - {was.addr}
    ensures AccountsMatch(w'.accountLock, w'.procs)
  {}

  lemma StepKeepsAccounts(e: Env, w: World, s: Step, w': World)
    requires AccountsMatch(w.accountLock, w.procs) && Takes(e, w, s, w')
    ensures AccountsMatch(w'.accountLock, w'.procs)
  {
    if !s.Tamper? && !s.Crash? {
      AccountUpdate(w, s.p, if s.Spawn? then NoAccount else w.procs[s.p].acct, w');
    }
  }

  /** One process's journal state may change as long as the lock fields follow. */
  lemma JournalUpdate(w: World, p: Pid, w': World)
    requires JournalsMatch(w.exclusive, w.shared, w.procs)
    requires p in w'.procs && w'.procs == w.procs[p := w'.procs[p]]
    requires w'.shared == if w'.procs[p].jrn.Shared? then w.shared + {p} else w.shared - {p}
    requires w'.exclusive == if w'.procs[p].jrn.Owns() then Some(p) else if w.exclusive == Some(p) then None else w.exclusive
    requires w'.procs[p].jrn.Owns() ==> w.exclusive == Some(p) || (w.exclusive.None? && w.shared == {})
    requires w'.procs[p].jrn.Shared? ==> w.exclusive.None?
    requires w'.procs[p].acct.Waiting? ==> w'.procs[p].jrn.NoJournal?
    ensures JournalsMatch(w'.exclusive, w'.shared, w'.procs)
  {}

  lemma OneProcMoves(e: Env, w: World, s: Step, w': World)
    requires Takes(e, w, s, w') && !s.Tamper? && !s.Crash?
    ensures s.p in w'.procs && w'.procs == w.procs[s.p := w'.procs[s.p]]
  {}

  lemma SharedFollows(e: Env, w: World, s: Step, w': World)
    requires JournalsMatch(w.exclusive, w.shared, w.procs) && Takes(e, w, s, w') && !s.Tamper? && !s.Crash?
    requires s.p in w'.procs
    ensures w'.shared == if w'.procs[s.p].jrn.Shared? then w.shared + {s.p} else w.shared - {s.p}
  {}

  lemma ExclusiveFollows(e: Env, w: World, s: Step, w': World)
    requires JournalsMatch(w.exclusive, w.shared, w.procs) && Takes(e, w, s, w') && !s.Tamper? && !s.Crash?
    requires s.p in w'.procs
    ensures w'.exclusive ==
      if w'.procs[s.p].jrn.Owns() then Some(s.p) else if w.exclusive == Some(s.p) then None else w.exclusive
  {}

  lemma JournalMoveAllowed(e: Env, w: World, s: Step, w': World)
    requires JournalsMatch(w.exclusive, w.shared, w.procs) && Takes(e, w, s, w') && !s.Tamper? && !s.Crash?
    ensures s.p in w'.procs
    ensures w'.procs[s.p].jrn.Owns() ==> w.exclusive == Some(s.p) || (w.exclusive.None? && w.shared == {})
    ensures w'.procs[s.p].jrn.Shared? ==> w.exclusive.None?
    ensures w'.procs[s.p].acct.Waiting? ==> w'.procs[s.p].jrn.NoJournal?
  {}

  lemma StepKeepsJournals(e: Env, w: World, s: Step, w': World)
    requires JournalsMatch(w.exclusive, w.shared, w.procs) && Takes(e, w, s, w')
    ensures JournalsMatch(w'.exclusive, w'.shared, w'.procs)
  {
    if !s.Tamper? && !s.Crash? {
      OneProcMoves(e, w, s, w');
      SharedFollows(e, w, s, w');
      ExclusiveFollows(e, w, s, w');
      JournalMoveAllowed(e, w, s, w');
      JournalUpdate(w, s.p, w');
    }
  }

  // --- the file ---

  ghost predicate Bounded(m: Latest) {
    forall id | id in m :: m[id].nonce < U64 - 1
  }

  /** `r` is a line that `job` may add after `recs`. */
  ghost predicate Admissible(job: Job, recs: seq<Record>, r: Record) {
    && MaxSeq(recs) < U64 - 1 && r.seqNo == Next(MaxSeq(recs)) && r.nonce < U64 - 1
    && match job
       case AddNew(draft, _) => r.id !in Fold(recs) && r.from == draft.from && r.nonce == draft.nonce
       case Change(id, _) =>
         && r.id == id && id in Fold(recs)
         && r.from == Fold(recs)[id].from && r.nonce == Fold(recs)[id].nonce
         && (Fold(recs)[id].status == FAILED ==> r.status == FAILED)
  }

  /** What a process inside its exclusive section knows of the file. */
  ghost predicate Knows(e: Env, file: string, j: Journal) {
    match j
    case Ready(job, recs) => recs == Records(e.codec, file) && TrimSpace(Tail(file)) == ""
    case Writing(job, recs, base, r, k) =>
      && recs == Records(e.codec, base) && TrimSpace(Tail(base)) == ""
      && k <= |e.codec.Line(r)| && file == base + e.codec.Line(r)[..k]
      && Admissible(job, recs, r)
    case _ => true
  }

  /** The record a process is still to make durable for its lease. */
  predicate Pending(e: Env, j: Journal) {
    match j
    case WaitExclusive(job) => job.AddNew?
    case Owner(job) => job.AddNew?
    case Ready(job, _) => job.AddNew?
    case Writing(job, _, _, r, k) => job.AddNew? && k < |e.codec.Line(r)|
    case _ => false
  }

  ghost predicate FileOk(e: Env, w: World) {
    && Increasing(Records(e.codec, w.file))
    && Bounded(Now(e, w))
    && (forall p | p in w.procs :: Knows(e, w.file, w.procs[p].jrn))
    && (forall p | p in w.procs && Pending(e, w.procs[p].jrn) :: w.procs[p].jrn.job.draft.nonce < U64 - 1)
  }

  /** Does this step write the last byte of a line? */
  predicate Completes(e: Env, w: World, s: Step) {
    s.WriteByte? && s.p in w.procs && w.procs[s.p].jrn.Writing?
    && w.procs[s.p].jrn.k + 1 == |e.codec.Line(w.procs[s.p].jrn.r)|
  }

  /** For every reader the fold is as it was, unless the step writes the last byte of a line; then exactly that
      line's record is put in. */
  ghost predicate Atomic(e: Env, w: World, s: Step, file': string) {
    && Increasing(Records(e.codec, file'))
    && if Completes(e, w, s) then
         var j := w.procs[s.p].jrn;
         && Records(e.codec, w.file) == j.recs && Records(e.codec, file') == j.recs + [j.r]
         && FoldOf(e.codec, file') == Now(e, w)[j.r.id := j.r]
       else FoldOf(e.codec, file') == Now(e, w)
  }

  lemma StepIsAtomic(e: Env, w: World, s: Step, w': World)
    requires e.codec.Valid() && FileOk(e, w) && Takes(e, w, s, w')
    ensures Atomic(e, w, s, w'.file)
  {
    if Quiet(s) {
      QuietStep(e, w, s, w');
    } else if s.ReadRepair? {
      RepairKeepsRecords(e.codec, w.file);
    } else if s.WriteByte? {
      ByteWritten(e, w, s.p);
    } else {
      CompactIsAtomic(e, w, s);
    }
  }

  lemma CompactIsAtomic(e: Env, w: World, s: Step)
    requires e.codec.Valid() && FileOk(e, w) && s.Compact? && Enabled(e, w, s)
    ensures Atomic(e, w, s, Encoded(e.codec, s.snap)) && !Completes(e, w, s)
  {
    LineWritten(e, w.file, w.procs[s.p].jrn);
    CompactionIsInvisible(e.codec, w.file, s.snap);
  }

  predicate Quiet(s: Step) {
    !s.ReadRepair? && !s.WriteByte? && !s.Compact?
  }

  /** Only three steps write the file, and only they and Stamp leave a process knowing anything of it. */
  lemma QuietStep(e: Env, w: World, s: Step, w': World)
    requires Takes(e, w, s, w') && Quiet(s)
    ensures w'.file == w.file
    ensures !s.Tamper? && !s.Stamp? && s.p in w'.procs ==> !w'.procs[s.p].jrn.Ready? && !w'.procs[s.p].jrn.Writing?
  {}

  lemma LineWritten(e: Env, file: string, j: Journal)
    requires e.codec.Valid() && j.Writing? && Knows(e, file, j) && j.k == |e.codec.Line(j.r)|
    ensures Records(e.codec, file) == j.recs + [j.r]
  {
    assert e.codec.Line(j.r)[..j.k] == e.codec.Line(j.r);
    WholeLineIsVisible(e.codec, j.base, j.r);
  }

  lemma OneMore(base: string, line: string, k: nat)
    requires k < |line|
    ensures base + line[..k] + [line[k]] == base + line[..k + 1]
  {
    assert line[..k] + [line[k]] == line[..k + 1];
  }

  /** A line growing by a byte shows no reader anything, until its last byte shows its record. */
  lemma LineGrows(c: Codec, base: string, recs: seq<Record>, r: Record, k: nat)
    requires c.Valid() && recs == Records(c, base) && TrimSpace(Tail(base)) == "" && k < |c.Line(r)|
    requires Increasing(Records(c, base + c.Line(r)[..k])) && MaxSeq(recs) < U64 - 1 && r.seqNo == Next(MaxSeq(recs))
    ensures Records(c, base + c.Line(r)[..k]) == recs
    ensures var after := Records(c, base + c.Line(r)[..k + 1]);
      && Increasing(after)
      && (k + 1 < |c.Line(r)| ==> after == recs)
      && (k + 1 == |c.Line(r)| ==> after == recs + [r] && Fold(after) == Fold(recs)[r.id := r])
  {
    var line := c.Line(r);
    PartialLineIsInvisible(c, base, r, k);
    if k + 1 < |line| {
      PartialLineIsInvisible(c, base, r, k + 1);
    } else {
      assert line[..k + 1] == line;
      WholeLineIsVisible(c, base, r);
      IncreasingSnoc(recs, r);
      NextLineVisible(recs, r);
    }
  }

  lemma KnownLineGrows(e: Env, file: string, j: Journal)
    requires e.codec.Valid() && Increasing(Records(e.codec, file)) && Knows(e, file, j)
    requires j.Writing? && j.k < |e.codec.Line(j.r)|
    ensures Records(e.codec, file) == j.recs
    ensures var line := e.codec.Line(j.r); var file' := file + [line[j.k]]; var after := Records(e.codec, file');
      && file' == j.base + line[..j.k + 1]
      && Increasing(after)
      && (j.k + 1 < |line| ==> after == j.recs)
      && (j.k + 1 == |line| ==> after == j.recs + [j.r] && Fold(after) == Fold(j.recs)[j.r.id := j.r])
  {
    OneMore(j.base, e.codec.Line(j.r), j.k);
    LineGrows(e.codec, j.base, j.recs, j.r, j.k);
  }

  lemma ByteWritten(e: Env, w: World, p: Pid)
    requires e.codec.Valid() && FileOk(e, w) && Enabled(e, w, WriteByte(p))
    ensures Atomic(e, w, WriteByte(p), Do(e, w, WriteByte(p)).file)
    ensures Do(e, w, WriteByte(p)).file == w.procs[p].jrn.base + e.codec.Line(w.procs[p].jrn.r)[..w.procs[p].jrn.k + 1]
  {
    assert Knows(e, w.file, w.procs[p].jrn);
    KnownLineGrows(e, w.file, w.procs[p].jrn);
  }

  lemma StepKeepsFile(e: Env, w: World, s: Step, w': World)
    requires e.codec.Valid() && JournalsMatch(w.exclusive, w.shared, w.procs) && FileOk(e, w) && Takes(e, w, s, w')
    ensures FileOk(e, w')
  {
    FoldStaysBounded(e, w, s, w');
    forall p | p in w'.procs
      ensures Knows(e, w'.file, w'.procs[p].jrn)
    {
      AllKnow(e, w, s, w', p);
    }
    PendingBounded(e, w, s, w');
  }

  lemma FoldStaysBounded(e: Env, w: World, s: Step, w': World)
    requires e.codec.Valid() && JournalsMatch(w.exclusive, w.shared, w.procs) && FileOk(e, w) && Takes(e, w, s, w')
    ensures Increasing(Records(e.codec, w'.file)) && Bounded(Now(e, w'))
  {
    StepIsAtomic(e, w, s, w');
    if Completes(e, w, s) { CompletionIsBounded(e, w, s); }
  }

  lemma AllKnow(e: Env, w: World, s: Step, w': World, p: Pid)
    requires e.codec.Valid() && JournalsMatch(w.exclusive, w.shared, w.procs) && FileOk(e, w) && Takes(e, w, s, w')
    requires p in w'.procs
    ensures Knows(e, w'.file, w'.procs[p].jrn)
  {
    if s.Tamper? || p != s.p { OthersKnowledge(e, w, s, w', p); } else { OwnKnowledge(e, w, s, w'); }
  }

  lemma CompletionIsBounded(e: Env, w: World, s: Step)
    requires FileOk(e, w) && Completes(e, w, s)
    ensures w.procs[s.p].jrn.r.nonce < U64 - 1
  {
    assert Knows(e, w.file, w.procs[s.p].jrn);
  }

  lemma PendingBounded(e: Env, w: World, s: Step, w': World)
    requires FileOk(e, w) && Takes(e, w, s, w')
    ensures forall p | p in w'.procs && Pending(e, w'.procs[p].jrn) :: w'.procs[p].jrn.job.draft.nonce < U64 - 1
  {
    forall p | p in w'.procs && Pending(e, w'.procs[p].jrn)
      ensures w'.procs[p].jrn.job.draft.nonce < U64 - 1
    {
      if !s.Tamper? && p == s.p {
        PendingSource(e, w, s, w');
      } else {
        OthersStay(e, w, s, w', p);
      }
    }
  }

  lemma OthersStay(e: Env, w: World, s: Step, w': World, p: Pid)
    requires Takes(e, w, s, w') && p in w'.procs && (s.Tamper? || p != s.p)
    ensures p in w.procs && w'.procs[p] == w.procs[p]
  {}

  /** A pending job was pending before, or was just asked for. */
  lemma PendingSource(e: Env, w: World, s: Step, w': World)
    requires Takes(e, w, s, w') && !s.Tamper? && s.p in w'.procs && Pending(e, w'.procs[s.p].jrn)
    ensures s.p in w.procs
    ensures s.AskAppend? || (Pending(e, w.procs[s.p].jrn) && w'.procs[s.p].jrn.job == w.procs[s.p].jrn.job)
    ensures s.AskAppend? ==> w'.procs[s.p].jrn.job.draft == s.draft && s.draft.nonce < U64 - 1
  {
    PendingOnlyIn(e, w, s, w');
    if s.AskAppend? {
      AskedFor(e, w, s.p, s.draft);
    } else {
      CarriedOver(e, w, s, w');
    }
  }

  lemma PendingOnlyIn(e: Env, w: World, s: Step, w': World)
    requires Takes(e, w, s, w') && !s.Tamper? && s.p in w'.procs && Pending(e, w'.procs[s.p].jrn)
    ensures s.AskAppend? || s.GetExclusive? || s.ReadRepair? || s.Stamp? || s.WriteByte?
  {}

  lemma AskedFor(e: Env, w: World, p: Pid, draft: Record)
    requires Enabled(e, w, AskAppend(p, draft))
    ensures p in w.procs && draft.nonce < U64 - 1
    ensures var procs := Do(e, w, AskAppend(p, draft)).procs;
      p in procs && procs[p].jrn.WaitExclusive? && procs[p].jrn.job.AddNew? && procs[p].jrn.job.draft == draft
  {}

  lemma CarriedOver(e: Env, w: World, s: Step, w': World)
    requires Takes(e, w, s, w') && (s.GetExclusive? || s.ReadRepair? || s.Stamp? || s.WriteByte?)
    requires s.p in w'.procs && Pending(e, w'.procs[s.p].jrn)
    ensures s.p in w.procs && Pending(e, w.procs[s.p].jrn) && w'.procs[s.p].jrn.job == w.procs[s.p].jrn.job
  {}

  lemma OthersKnowledge(e: Env, w: World, s: Step, w': World, p: Pid)
    requires JournalsMatch(w.exclusive, w.shared, w.procs) && FileOk(e, w) && Takes(e, w, s, w')
    requires p in w'.procs && (s.Tamper? || p != s.p)
    ensures Knows(e, w'.file, w'.procs[p].jrn)
  {
    OthersStay(e, w, s, w', p);
    assert Knows(e, w.file, w.procs[p].jrn);
    if Quiet(s) {
      QuietStep(e, w, s, w');
    } else {
      OneWriter(e, w, s, p);
    }
  }

  /** While a process writes the file, no other one knows anything of it. */
  lemma OneWriter(e: Env, w: World, s: Step, p: Pid)
    requires JournalsMatch(w.exclusive, w.shared, w.procs) && Enabled(e, w, s) && !Quiet(s)
    requires p in w.procs && p != s.p
    ensures !w.procs[p].jrn.Ready? && !w.procs[p].jrn.Writing?
  {
    assert w.exclusive == Some(s.p);
    assert w.exclusive != Some(p);
  }

  /** The moving process still knows what it needs. */
  lemma OwnKnowledge(e: Env, w: World, s: Step, w': World)
    requires e.codec.Valid() && FileOk(e, w) && Takes(e, w, s, w') && !s.Tamper? && s.p in w'.procs
    ensures Knows(e, w'.file, w'.procs[s.p].jrn)
  {
    if s.Stamp? {
      LineStamped(e, w, s.p, s.id, s.ts);
    } else if s.ReadRepair? {
      RepairKeepsRecords(e.codec, w.file);
    } else if s.WriteByte? {
      assert Knows(e, w.file, w.procs[s.p].jrn);
      ByteWritten(e, w, s.p);
    } else if Quiet(s) {
      QuietStep(e, w, s, w');
    }
  }

  lemma LineStamped(e: Env, w: World, p: Pid, id: string, ts: string)
    requires FileOk(e, w) && Enabled(e, w, Stamp(p, id, ts))
    ensures Knows(e, w.file, Do(e, w, Stamp(p, id, ts)).procs[p].jrn)
  {
    var j := w.procs[p].jrn;
    var r := Stamped(j.job, j.recs, id, ts);
    assert Knows(e, w.file, j);
    if j.job.Change? { FoldSeqBound(j.recs, j.job.id); }
    assert w.file + e.codec.Line(r)[..0] == w.file;
  }

  // --- nonces ---

  predicate LiveAt(e: Env, m: Latest, id: string, addr: int) {
    id in m && e.account(m[id].from) == addr && ConsumesNonce(m[id].status)
  }

  /** Every live record of the account has a nonce below `n`. */
  ghost predicate Above(e: Env, m: Latest, addr: int, n: u64) {
    forall id | LiveAt(e, m, id, addr) :: m[id].nonce < n
  }

  /** No two live records from unforced leases of one account carry the same nonce. */
  ghost predicate NoncesUnique(e: Env, m: Latest, derived: set<string>) {
    forall a, b | a in derived && b in derived && a != b && a in m && b in m
      && ConsumesNonce(m[a].status) && ConsumesNonce(m[b].status) && e.account(m[a].from) == e.account(m[b].from) ::
      m[a].nonce != m[b].nonce
  }

  /** What a process holding (or about to use) a nonce may rely on. */
  ghost predicate Reserved(e: Env, m: Latest, proc: Proc) {
    && (proc.acct.Folded? ==> Above(e, m, proc.acct.addr, proc.acct.journalNext))
    && (proc.acct.Leased? && proc.acct.derived && (!proc.acct.journaled || Pending(e, proc.jrn)) ==>
          Above(e, m, proc.acct.addr, proc.acct.nonce))
    && (Pending(e, proc.jrn) ==>
          var draft := proc.jrn.job.draft;
          proc.acct == Leased(e.account(draft.from), draft.nonce, proc.jrn.job.derived, true))
  }

  ghost predicate NoncesOk(e: Env, w: World) {
    && w.derived <= Now(e, w).Keys
    && NoncesUnique(e, Now(e, w), w.derived)
    && forall p | p in w.procs :: Reserved(e, Now(e, w), w.procs[p])
  }

  /** A step that completes no line. */
  lemma IncompleteKeepsNonces(e: Env, w: World, s: Step, w': World)
    requires e.codec.Valid() && FileOk(e, w) && NoncesOk(e, w) && Takes(e, w, s, w') && !Completes(e, w, s)
    ensures NoncesOk(e, w')
  {
    StepIsAtomic(e, w, s, w');
    DerivedGrows(e, w, s, w');
    forall p | p in w'.procs
      ensures Reserved(e, Now(e, w'), w'.procs[p])
    {
      if s.Tamper? || p != s.p {
        OthersStay(e, w, s, w', p);
      } else {
        OwnReservation(e, w, s, w');
      }
    }
  }

  lemma DerivedGrows(e: Env, w: World, s: Step, w': World)
    requires Takes(e, w, s, w')
    ensures w'.derived == if Completes(e, w, s) && w.procs[s.p].jrn.job.AddNew? && w.procs[s.p].jrn.job.derived
                          then w.derived + {w.procs[s.p].jrn.r.id} else w.derived
  {}

  lemma OwnReservation(e: Env, w: World, s: Step, w': World)
    requires FileOk(e, w) && NoncesOk(e, w) && Takes(e, w, s, w') && !Completes(e, w, s)
    requires !s.Tamper? && s.p in w'.procs
    ensures Reserved(e, Now(e, w), w'.procs[s.p])
  {
    if s.FoldStep? {
      FoldedIsAbove(e, w, w.procs[s.p].acct.addr, s.journalNext);
    } else if s.p in w.procs {
      assert Reserved(e, Now(e, w), w.procs[s.p]);
      PendingAccount(e, w, s, w');
    }
  }

  /** Where a process's account state comes from: it is kept, or it is the lease just taken or marked. */
  lemma AccountOrigin(e: Env, w: World, s: Step, w': World)
    requires Takes(e, w, s, w') && !s.Tamper? && !s.FoldStep?
    requires s.p in w.procs && s.p in w'.procs
    ensures var a, a' := w.procs[s.p].acct, w'.procs[s.p].acct;
      && (a'.Folded? ==> a' == a)
      && (a'.Leased? && a'.derived ==>
            a' == a || (s.TakeLease? && a.Folded?) || (s.AskAppend? && a == a'.(journaled := false)))
  {}

  /** Apart from the fold itself, a process relies on nothing new. */
  lemma PendingAccount(e: Env, w: World, s: Step, w': World)
    requires Takes(e, w, s, w') && !s.Tamper? && !s.FoldStep? && !Completes(e, w, s)
    requires s.p in w.procs && s.p in w'.procs && Reserved(e, Now(e, w), w.procs[s.p])
    ensures Reserved(e, Now(e, w), w'.procs[s.p])
  {
    AccountOrigin(e, w, s, w');
    if s.TakeLease? {
      TakenIsAbove(e, w, s, w');
    } else if Pending(e, w'.procs[s.p].jrn) {
      PendingOrigin(e, w, s, w');
    }
  }

  lemma TakenIsAbove(e: Env, w: World, s: Step, w': World)
    requires Takes(e, w, s, w') && s.TakeLease? && Reserved(e, Now(e, w), w.procs[s.p])
    ensures Reserved(e, Now(e, w), w'.procs[s.p])
  {}

  /** A record is pending only if it was, or the lease's one append begins. */
  lemma PendingOrigin(e: Env, w: World, s: Step, w': World)
    requires Takes(e, w, s, w') && !s.Tamper? && s.p in w.procs && s.p in w'.procs
    requires Pending(e, w'.procs[s.p].jrn)
    ensures Pending(e, w.procs[s.p].jrn) || s.AskAppend?
    ensures !s.AskAppend? ==> w'.procs[s.p].acct == w.procs[s.p].acct && w'.procs[s.p].jrn.job == w.procs[s.p].jrn.job
  {}

  lemma FoldedIsAbove(e: Env, w: World, addr: int, next: u64)
    requires Bounded(Now(e, w)) && IsJournalNext(Consumed(Now(e, w), e.account, addr), next)
    ensures Above(e, Now(e, w), addr, next)
  {
    var m := Now(e, w);
    JournalNextIsFresh(Consumed(m, e.account, addr), next);
    forall id | LiveAt(e, m, id, addr)
      ensures m[id].nonce < next
    {
      assert m[id].nonce in Consumed(m, e.account, addr);
    }
  }

  /** The step that makes a line durable. */
  lemma CompletionKeepsNonces(e: Env, w: World, s: Step, w': World)
    requires e.codec.Valid() && LocksMatch(w) && FileOk(e, w) && NoncesOk(e, w) && Takes(e, w, s, w') && Completes(e, w, s)
    ensures NoncesOk(e, w')
  {
    var j := w.procs[s.p].jrn;
    StepIsAtomic(e, w, s, w');
    DerivedGrows(e, w, s, w');
    assert Knows(e, w.file, j) && Reserved(e, Now(e, w), w.procs[s.p]);
    var m := Now(e, w);
    if j.job.AddNew? {
      AddedStaysUnique(e, m, w.derived, j.r, j.job.derived);
    } else {
      ChangedStaysUnique(e, m, w.derived, j.r);
    }
    forall p | p in w'.procs
      ensures Reserved(e, Now(e, w'), w'.procs[p])
    {
      if p != s.p {
        OthersStay(e, w, s, w', p);
        OthersReservation(e, w, s.p, p);
      } else {
        WriterReservation(e, m, w.procs[p].acct, j);
        WriterMoves(e, w, p, w');
      }
    }
  }

  /** A fresh line whose nonce is above every live one of its account. */
  lemma AddedStaysUnique(e: Env, m: Latest, derived: set<string>, r: Record, isDerived: bool)
    requires derived <= m.Keys && NoncesUnique(e, m, derived) && r.id !in m
    requires isDerived ==> Above(e, m, e.account(r.from), r.nonce)
    ensures NoncesUnique(e, m[r.id := r], if isDerived then derived + {r.id} else derived)
  {
    var m' := m[r.id := r];
    var d' := if isDerived then derived + {r.id} else derived;
    forall a, b | a in d' && b in d' && a != b
      && ConsumesNonce(m'[a].status) && ConsumesNonce(m'[b].status) && e.account(m'[a].from) == e.account(m'[b].from)
      ensures m'[a].nonce != m'[b].nonce
    {
      if a == r.id {
        assert LiveAt(e, m, b, e.account(r.from));
      } else if b == r.id {
        assert LiveAt(e, m, a, e.account(r.from));
      }
    }
  }

  /** A transition keeps account and nonce and revives nothing. */
  lemma ChangedStaysUnique(e: Env, m: Latest, derived: set<string>, r: Record)
    requires NoncesUnique(e, m, derived) && r.id in m
    requires r.from == m[r.id].from && r.nonce == m[r.id].nonce
    requires m[r.id].status == FAILED ==> r.status == FAILED
    ensures NoncesUnique(e, m[r.id := r], derived)
    ensures forall addr, n :: Above(e, m, addr, n) ==> Above(e, m[r.id := r], addr, n)
  {
    forall addr, n | Above(e, m, addr, n)
      ensures Above(e, m[r.id := r], addr, n)
    {
      var m' := m[r.id := r];
      forall id | LiveAt(e, m', id, addr)
        ensures m'[id].nonce < n
      {
        assert LiveAt(e, m, id, addr);
      }
    }
  }

  lemma AddedElsewhere(e: Env, m: Latest, r: Record, addr: int, n: u64)
    requires Above(e, m, addr, n) && e.account(r.from) != addr
    ensures Above(e, m[r.id := r], addr, n)
  {
    var m' := m[r.id := r];
    forall id | LiveAt(e, m', id, addr)
      ensures m'[id].nonce < n
    {
      assert LiveAt(e, m, id, addr);
    }
  }

  /** Another process's nonce is safe: the new line is for an account it does not hold. */
  lemma OthersReservation(e: Env, w: World, p: Pid, q: Pid)
    requires LocksMatch(w) && FileOk(e, w) && NoncesOk(e, w)
    requires p in w.procs && q in w.procs && p != q && Completes(e, w, WriteByte(p))
    requires Now(e, w) == Fold(w.procs[p].jrn.recs)
    ensures Reserved(e, Now(e, w)[w.procs[p].jrn.r.id := w.procs[p].jrn.r], w.procs[q])
  {
    var m, r, j, other := Now(e, w), w.procs[p].jrn.r, w.procs[p].jrn, w.procs[q];
    assert Knows(e, w.file, j) && Reserved(e, m, w.procs[p]) && Reserved(e, m, other);
    if j.job.Change? {
      ChangedStaysUnique(e, m, w.derived, r);
    } else if other.acct.Folded? {
      AddedElsewhere(e, m, r, other.acct.addr, other.acct.journalNext);
    } else if other.acct.Leased? && Above(e, m, other.acct.addr, other.acct.nonce) {
      AddedElsewhere(e, m, r, other.acct.addr, other.acct.nonce);
    }
  }

  lemma WriterMoves(e: Env, w: World, p: Pid, w': World)
    requires Takes(e, w, WriteByte(p), w')
    ensures w'.procs[p] == Proc(w.procs[p].acct, w.procs[p].jrn.(k := w.procs[p].jrn.k + 1))
  {}

  /** The writer's own nonce is spent, or its line was a transition. */
  lemma WriterReservation(e: Env, m: Latest, acct: Account, j: Journal)
    requires j.Writing? && Admissible(j.job, j.recs, j.r) && m == Fold(j.recs)
    requires j.k + 1 == |e.codec.Line(j.r)| && Reserved(e, m, Proc(acct, j))
    ensures Reserved(e, m[j.r.id := j.r], Proc(acct, j.(k := j.k + 1)))
  {
    if j.job.Change? {
      ChangedStaysUnique(e, m, {}, j.r);
      if acct.Folded? { assert Above(e, m, acct.addr, acct.journalNext); }
      if acct.Leased? && acct.derived && !acct.journaled { assert Above(e, m, acct.addr, acct.nonce); }
    }
  }

  /** A live record of the account, journaled for an unforced lease, that carries the nonce of `r` already. */
  ghost predicate NonceTaken(e: Env, m: Latest, derived: set<string>, r: Record) {
    exists b :: b in derived && b != r.id && LiveAt(e, m, b, e.account(r.from)) && m[b].nonce == r.nonce
  }

  lemma TakenMeansFailed(e: Env, m: Latest, derived: set<string>, r: Record, b: string)
    requires NoncesUnique(e, m, derived) && r.id in m && r.from == m[r.id].from && r.nonce == m[r.id].nonce
    requires r.id in derived && b in derived && b != r.id
    requires LiveAt(e, m, b, e.account(r.from)) && m[b].nonce == r.nonce
    ensures m[r.id].status == FAILED
  {}

  /** A transition keeps unforced nonces unique exactly when it does not bring a failed unforced record back to life
      while its nonce is taken. */
  lemma TransitionUniqueIff(e: Env, m: Latest, derived: set<string>, r: Record)
    requires NoncesUnique(e, m, derived) && r.id in m && r.from == m[r.id].from && r.nonce == m[r.id].nonce
    ensures NoncesUnique(e, m[r.id := r], derived) <==>
      !(r.id in derived && m[r.id].status == FAILED && r.status != FAILED && NonceTaken(e, m, derived, r))
  {
    var m' := m[r.id := r];
    if r.id in derived && r.status != FAILED && NonceTaken(e, m, derived, r) {
      var b :| b in derived && b != r.id && LiveAt(e, m, b, e.account(r.from)) && m[b].nonce == r.nonce;
      assert m'[b] == m[b] && m'[r.id] == r;
      TakenMeansFailed(e, m, derived, r, b);
    } else {
      forall a, b | a in derived && b in derived && a != b && a in m' && b in m'
        && ConsumesNonce(m'[a].status) && ConsumesNonce(m'[b].status) && e.account(m'[a].from) == e.account(m'[b].from)
        ensures m'[a].nonce != m'[b].nonce
      {
        if a == r.id {
          assert LiveAt(e, m, b, e.account(r.from));
        } else if b == r.id {
          assert LiveAt(e, m, a, e.account(r.from));
        }
      }
    }
  }

  /** So the guard RevivesNothing is stronger than need be: in any world that satisfies the invariant, the line a
      SetState is about to write keeps unforced nonces unique exactly under the condition above. */
  lemma StampUniqueIff(e: Env, w: World, p: Pid, id: string, ts: string)
    requires Invariant(e, w) && Placed(e, w, Stamp(p, id, ts)) && Guarded(e, w, Stamp(p, id, ts))
    requires w.procs[p].jrn.job.Change?
    ensures var j, m := w.procs[p].jrn, Now(e, w);
      var r := Stamped(j.job, j.recs, id, ts);
      && r.id in m
      && (NoncesUnique(e, Fold(j.recs + [r]), w.derived) <==>
          !(r.id in w.derived && m[r.id].status == FAILED && r.status != FAILED && NonceTaken(e, m, w.derived, r)))
  {
    var j := w.procs[p].jrn;
    var r := Stamped(j.job, j.recs, id, ts);
    assert Knows(e, w.file, j);
    FoldSeqBound(j.recs, j.job.id);
    NextLineVisible(j.recs, r);
    TransitionUniqueIff(e, Now(e, w), w.derived, r);
  }

  // --- runs ---

  ghost predicate Invariant(e: Env, w: World) {
    LocksMatch(w) && FileOk(e, w) && NoncesOk(e, w)
  }

  /** No process yet; any file whose lines are in seq order with usable nonces, any cache. */
  ghost predicate Initial(e: Env, w: World) {
    && w.procs == map[] && w.accountLock == map[] && w.exclusive == None && w.shared == {} && w.derived == {}
    && Increasing(Records(e.codec, w.file)) && Bounded(Now(e, w))
  }

  lemma StepKeepsInvariant(e: Env, w: World, s: Step, w': World)
    requires e.codec.Valid() && Invariant(e, w) && Takes(e, w, s, w')
    ensures Invariant(e, w')
  {
    StepKeepsAccounts(e, w, s, w');
    StepKeepsJournals(e, w, s, w');
    StepKeepsFile(e, w, s, w');
    if Completes(e, w, s) {
      CompletionKeepsNonces(e, w, s, w');
    } else {
      IncompleteKeepsNonces(e, w, s, w');
    }
  }

  /** `ws` runs from an initial world by the steps `ss`. */
  ghost predicate IsRun(e: Env, ws: seq<World>, ss: seq<Step>) {
    && |ws| == |ss| + 1 && Initial(e, ws[0])
    && forall i | 0 <= i < |ss| :: StepAt(e, ws, ss, i)
  }

  ghost predicate StepAt(e: Env, ws: seq<World>, ss: seq<Step>, i: nat)
    requires i < |ss| && |ws| == |ss| + 1
  {
    Takes(e, ws[i], ss[i], ws[i + 1])
  }

  lemma {:induction false} RunsKeepInvariant(e: Env, ws: seq<World>, ss: seq<Step>, k: nat)
    requires e.codec.Valid() && IsRun(e, ws, ss) && k < |ws|
    ensures Invariant(e, ws[k])
  {
    if k == 0 {
      assert LocksMatch(ws[0]);
    } else {
      RunsKeepInvariant(e, ws, ss, k - 1);
      assert StepAt(e, ws, ss, k - 1);
      StepKeepsInvariant(e, ws[k - 1], ss[k - 1], ws[k]);
    }
  }

  /** Whatever the processes, crashes, chain values and cache contents: in every world of every run, two
      live records journaled for unforced leases of one account have different nonces, and the lines of
      the file are in strictly increasing seq order. */
  lemma NoDoubleAllocation(e: Env, ws: seq<World>, ss: seq<Step>, k: nat)
    requires e.codec.Valid() && IsRun(e, ws, ss) && k < |ws|
    ensures NoncesUnique(e, Now(e, ws[k]), ws[k].derived) && ws[k].derived <= Now(e, ws[k]).Keys
    ensures Increasing(Records(e.codec, ws[k].file))
  {
    RunsKeepInvariant(e, ws, ss, k);
  }

  /** A record visible in `m` is still there in `m'`: its id, account and nonce are for good, and so is
      its failure. */
  ghost predicate Persists(m: Latest, m': Latest) {
    forall id | id in m ::
      && id in m' && m'[id].from == m[id].from && m'[id].nonce == m[id].nonce
      && (m[id].status == FAILED ==> m'[id].status == FAILED)
  }

  lemma NextPersists(e: Env, ws: seq<World>, ss: seq<Step>, k: nat)
    requires e.codec.Valid() && IsRun(e, ws, ss) && k + 1 < |ws|
    ensures Persists(Now(e, ws[k]), Now(e, ws[k + 1]))
  {
    RunsKeepInvariant(e, ws, ss, k);
    assert StepAt(e, ws, ss, k);
    StepPersists(e, ws[k], ss[k], ws[k + 1]);
  }

  /** Over any stretch of a run, through crashes, repairs and compactions, no visible record is lost. */
  lemma {:induction false} RecordsPersist(e: Env, ws: seq<World>, ss: seq<Step>, i: nat, k: nat)
    requires e.codec.Valid() && IsRun(e, ws, ss) && i <= k < |ws|
    ensures Persists(Now(e, ws[i]), Now(e, ws[k]))
    decreases k
  {
    if i < k {
      RecordsPersist(e, ws, ss, i, k - 1);
      NextPersists(e, ws, ss, k - 1);
      PersistsTransitive(Now(e, ws[i]), Now(e, ws[k - 1]), Now(e, ws[k]));
    }
  }

  lemma PersistsTransitive(a: Latest, b: Latest, c: Latest)
    requires Persists(a, b) && Persists(b, c)
    ensures Persists(a, c)
  {}

  lemma StepPersists(e: Env, w: World, s: Step, w': World)
    requires e.codec.Valid() && FileOk(e, w) && Takes(e, w, s, w')
    ensures Persists(Now(e, w), Now(e, w'))
  {
    StepIsAtomic(e, w, s, w');
    if Completes(e, w, s) {
      assert Knows(e, w.file, w.procs[s.p].jrn);
    }
  }

  // --- deadlock ---

  /** `p` is blocked on a lock that `q` holds. */
  ghost predicate WaitsFor(w: World, p: Pid, q: Pid) {
    && p in w.procs && q in w.procs
    && ((w.procs[p].acct.Waiting? && w.procs[p].acct.addr in w.accountLock && w.accountLock[w.procs[p].acct.addr] == q)
        || (w.procs[p].jrn.WaitShared? && w.exclusive == Some(q))
        || (w.procs[p].jrn.WaitExclusive? && (w.exclusive == Some(q) || q in w.shared)))
  }

  /** Account locks come before the journal lock, and inside a journal section nothing is waited for. */
  function Rank(w: World, p: Pid): nat
    requires p in w.procs
  {
    if w.procs[p].acct.Waiting? then 2
    else if w.procs[p].jrn.WaitShared? || w.procs[p].jrn.WaitExclusive? then 1
    else 0
  }

  lemma WaitingDescends(w: World, p: Pid, q: Pid)
    requires LocksMatch(w) && WaitsFor(w, p, q)
    ensures Rank(w, p) > Rank(w, q)
  {}

  /** No wait-for cycle, nor any wait-for chain of more than two edges. */
  lemma {:induction false} NoWaitCycle(w: World, chain: seq<Pid>)
    requires LocksMatch(w) && |chain| >= 2
    requires forall i | 0 <= i < |chain| - 1 :: WaitsFor(w, chain[i], chain[i + 1])
    ensures |chain| <= 3 && chain[0] != chain[|chain| - 1]
  {
    WaitingDescends(w, chain[0], chain[1]);
    if |chain| > 2 {
      WaitingDescends(w, chain[1], chain[2]);
      if |chain| > 3 {
        WaitingDescends(w, chain[2], chain[3]);
      }
    }
  }

  /** A step that carries on with what its process is doing: no birth, death, giving up, new errand or
      cache tampering. */
  predicate Progress(s: Step) {
    !s.Spawn? && !s.Crash? && !s.Tamper? && !s.GiveUp? && !s.AskAccount? && !s.AskAppend? && !s.AskChange?
  }

  /** What a process has still to do before it is idle, coarse to fine: its account errand, its journal section,
      the bytes of its line. */
  function Errand(a: Account): nat {
    match a
    case NoAccount => 0
    case Leased(_, _, _, _) => 1
    case Folded(_, _, _) => 2
    case Deriving(_, _) => 3
    case Waiting(_, _) => 4
  }

  function Section(proc: Proc): nat {
    match proc.jrn
    case NoJournal => if proc.acct.Deriving? then 8 else 0
    case Shared => 1
    case Compacted => 2
    case Writing(_, _, _, _, _) => 3
    case Ready(_, _) => 4
    case Owner(_) => 5
    case WaitExclusive(_) => 6
    case WaitShared => 7
  }

  function BytesLeft(e: Env, j: Journal): nat {
    if j.Writing? && j.k <= |e.codec.Line(j.r)| then |e.codec.Line(j.r)| - j.k else 0
  }

  /** Process `p` has less to do in `w'` than in `w`. */
  predicate Nearer(e: Env, w: World, w': World, p: Pid) {
    && p in w.procs && p in w'.procs
    && var a, b := w.procs[p], w'.procs[p];
       Errand(b.acct) < Errand(a.acct)
       || (Errand(b.acct) == Errand(a.acct)
           && (Section(b) < Section(a) || (Section(b) == Section(a) && BytesLeft(e, b.jrn) < BytesLeft(e, a.jrn))))
  }

  /** Forced nonces are never derived, and deriving takes no exclusive section. */
  predicate ErrandOk(proc: Proc) {
    && (proc.acct.Deriving? || proc.acct.Folded? ==> !proc.acct.intent.Forced?)
    && (proc.acct.Deriving? ==> proc.jrn.NoJournal? || proc.jrn.WaitShared? || proc.jrn.Shared?)
  }

  ghost predicate ErrandsOk(w: World) {
    forall p | p in w.procs :: ErrandOk(w.procs[p])
  }

  lemma StepKeepsErrands(e: Env, w: World, s: Step, w': World)
    requires ErrandsOk(w) && Takes(e, w, s, w')
    ensures ErrandsOk(w')
  {
    forall p | p in w'.procs
      ensures ErrandOk(w'.procs[p])
    {
      if s.Tamper? || p != s.p { OthersStay(e, w, s, w', p); } else { OwnErrand(e, w, s, w'); }
    }
  }

  lemma OwnErrand(e: Env, w: World, s: Step, w': World)
    requires ErrandsOk(w) && Takes(e, w, s, w') && !s.Tamper? && s.p in w'.procs
    ensures ErrandOk(w'.procs[s.p])
  {}

  lemma {:induction false} RunsKeepErrands(e: Env, ws: seq<World>, ss: seq<Step>, k: nat)
    requires IsRun(e, ws, ss) && k < |ws|
    ensures ErrandsOk(ws[k])
  {
    if k > 0 {
      RunsKeepErrands(e, ws, ss, k - 1);
      assert StepAt(e, ws, ss, k - 1);
      StepKeepsErrands(e, ws[k - 1], ss[k - 1], ws[k]);
    }
  }

  /** In no world of any run is there a wait-for cycle, or a chain of more than two waits. */
  lemma RunsHaveNoWaitCycle(e: Env, ws: seq<World>, ss: seq<Step>, k: nat, chain: seq<Pid>)
    requires e.codec.Valid() && IsRun(e, ws, ss) && k < |ws| && |chain| >= 2
    requires forall i | 0 <= i < |chain| - 1 :: WaitsFor(ws[k], chain[i], chain[i + 1])
    ensures |chain| <= 3 && chain[0] != chain[|chain| - 1]
  {
    RunsKeepInvariant(e, ws, ss, k);
    NoWaitCycle(ws[k], chain);
  }

  /** In every world of every run, as long as some process is busy, some process can take a step that brings it
      nearer to being idle. */
  lemma RunsNeverGetStuck(e: Env, ws: seq<World>, ss: seq<Step>, k: nat, p: Pid) returns (s: Step)
    requires e.codec.Valid() && IsRun(e, ws, ss) && k < |ws| && p in ws[k].procs && ws[k].procs[p] != IDLE
    ensures Progress(s) && Enabled(e, ws[k], s) && Nearer(e, ws[k], Do(e, ws[k], s), s.p)
  {
    RunsKeepInvariant(e, ws, ss, k);
    RunsKeepErrands(e, ws, ss, k);
    s := SomeoneCanStep(e, ws[k], p);
  }

  /** As long as some process is busy, some process can carry on. */
  lemma SomeoneCanStep(e: Env, w: World, p: Pid) returns (s: Step)
    requires LocksMatch(w) && ErrandsOk(w) && p in w.procs && w.procs[p] != IDLE
    ensures Progress(s) && Enabled(e, w, s) && Nearer(e, w, Do(e, w, s), s.p)
  {
    var next := FollowWait(w, p);
    var q := FollowWait(w, next);
    assert !Blocked(w, q);
    s := OwnStep(e, w, q);
    OwnStepIsNearer(e, w, q, s);
  }

  ghost predicate Blocked(w: World, p: Pid) {
    exists q :: WaitsFor(w, p, q)
  }

  /** The process `p` waits for, or `p` itself; two such moves end at one that is not blocked. */
  lemma FollowWait(w: World, p: Pid) returns (q: Pid)
    requires LocksMatch(w) && p in w.procs && w.procs[p] != IDLE
    ensures q in w.procs && w.procs[q] != IDLE
    ensures if Blocked(w, p) then WaitsFor(w, p, q) && Rank(w, q) < Rank(w, p) else q == p
    ensures Rank(w, q) == 0 ==> !Blocked(w, q)
    ensures Rank(w, p) <= 1 ==> !Blocked(w, q)
  {
    q := p;
    if Blocked(w, p) {
      q :| WaitsFor(w, p, q);
      WaitingDescends(w, p, q);
    }
    if Rank(w, q) == 0 && Blocked(w, q) {
      var x :| WaitsFor(w, q, x);
      WaitingDescends(w, q, x);
    }
  }

  /** The step an unblocked process takes next. Only a line that may not be written (its record is gone, the seq
      would wrap, or it would revive a failed record) is abandoned. */
  ghost predicate CarriesOn(e: Env, w: World, p: Pid, s: Step)
    requires p in w.procs
  {
    var a, j := w.procs[p].acct, w.procs[p].jrn;
    if a.Waiting? then s == GetAccount(p)
    else
      match j
      case NoJournal =>
        if a.Deriving? then s == AskShared(p)
        else if a.Leased? then s == Release(p)
        else if a.Folded? && a.intent.Reset? then s == WriteReset(p)
        else s == TakeLease(p)
      case WaitShared => s == GetShared(p)
      case Shared => if a.Deriving? then s.FoldStep? && s.p == p else s == DropShared(p)
      case WaitExclusive(_) => s == GetExclusive(p)
      case Owner(_) => s == ReadRepair(p)
      case Ready(job, recs) => if MayWrite(job, recs) then s.Stamp? && s.p == p else s == DropExclusive(p)
      case Writing(_, _, _, r, k) => if k < |e.codec.Line(r)| then s == WriteByte(p) else s == DropExclusive(p)
      case Compacted => s == DropExclusive(p)
  }

  /** The line of the job may be written after `recs`. */
  predicate MayWrite(job: Job, recs: seq<Record>) {
    && Found(job, recs) && MaxSeq(recs) < U64 - 1
    && (job.Change? ==>
          var r := Fold(recs)[job.id];
          r.status == FAILED ==> Apply(job.mutation, r).status == FAILED)
  }

  lemma OwnStepIsNearer(e: Env, w: World, p: Pid, s: Step)
    requires p in w.procs && w.procs[p] != IDLE && ErrandOk(w.procs[p]) && CarriesOn(e, w, p, s) && Enabled(e, w, s)
    ensures Nearer(e, w, Do(e, w, s), p)
  {
    if w.procs[p].acct.Waiting? || w.procs[p].jrn.NoJournal? {
      ErrandIsNearer(e, w, p, s);
    } else if w.procs[p].jrn.WaitShared? || w.procs[p].jrn.Shared? {
      ReadingIsNearer(e, w, p, s);
    } else {
      WritingIsNearer(e, w, p, s);
    }
  }

  lemma ErrandIsNearer(e: Env, w: World, p: Pid, s: Step)
    requires p in w.procs && w.procs[p] != IDLE && ErrandOk(w.procs[p]) && CarriesOn(e, w, p, s) && Enabled(e, w, s)
    requires w.procs[p].acct.Waiting? || w.procs[p].jrn.NoJournal?
    ensures Nearer(e, w, Do(e, w, s), p)
  {}

  lemma ReadingIsNearer(e: Env, w: World, p: Pid, s: Step)
    requires p in w.procs && ErrandOk(w.procs[p]) && CarriesOn(e, w, p, s) && Enabled(e, w, s)
    requires !w.procs[p].acct.Waiting? && (w.procs[p].jrn.WaitShared? || w.procs[p].jrn.Shared?)
    ensures Nearer(e, w, Do(e, w, s), p)
  {}

  lemma WritingIsNearer(e: Env, w: World, p: Pid, s: Step)
    requires p in w.procs && ErrandOk(w.procs[p]) && CarriesOn(e, w, p, s) && Enabled(e, w, s)
    requires !w.procs[p].acct.Waiting? && !w.procs[p].jrn.NoJournal? && !w.procs[p].jrn.WaitShared? && !w.procs[p].jrn.Shared?
    ensures Nearer(e, w, Do(e, w, s), p)
  {
    match w.procs[p].jrn {
      case WaitExclusive(_) => OpeningIsNearer(e, w, p);
      case Owner(_) => ReadIsNearer(e, w, p);
      case Ready(job, recs) => if MayWrite(job, recs) { StampIsNearer(e, w, p, s.id, s.ts); } else { DropIsNearer(e, w, p); }
      case Writing(_, _, _, r, k) => if k < |e.codec.Line(r)| { ByteIsNearer(e, w, p); } else { DropIsNearer(e, w, p); }
      case Compacted => DropIsNearer(e, w, p);
    }
  }

  lemma OpeningIsNearer(e: Env, w: World, p: Pid)
    requires p in w.procs && ErrandOk(w.procs[p]) && Enabled(e, w, GetExclusive(p))
    ensures Nearer(e, w, Do(e, w, GetExclusive(p)), p)
  {}

  lemma ReadIsNearer(e: Env, w: World, p: Pid)
    requires p in w.procs && ErrandOk(w.procs[p]) && Enabled(e, w, ReadRepair(p))
    ensures Nearer(e, w, Do(e, w, ReadRepair(p)), p)
  {}

  lemma StampIsNearer(e: Env, w: World, p: Pid, id: string, ts: string)
    requires p in w.procs && ErrandOk(w.procs[p]) && Enabled(e, w, Stamp(p, id, ts))
    ensures Nearer(e, w, Do(e, w, Stamp(p, id, ts)), p)
  {}

  lemma ByteIsNearer(e: Env, w: World, p: Pid)
    requires p in w.procs && ErrandOk(w.procs[p]) && Enabled(e, w, WriteByte(p))
    ensures Nearer(e, w, Do(e, w, WriteByte(p)), p)
  {}

  lemma DropIsNearer(e: Env, w: World, p: Pid)
    requires p in w.procs && ErrandOk(w.procs[p]) && Enabled(e, w, DropExclusive(p)) && !w.procs[p].acct.Waiting?
    ensures Nearer(e, w, Do(e, w, DropExclusive(p)), p)
  {}

  /** There is always an id that is new. */
  lemma FreshId(ids: set<string>) returns (id: string)
    ensures id !in ids
  {
    var n := Longest(ids);
    id := seq(n + 1, i => 'x');
  }

  lemma {:induction false} Longest(ids: set<string>) returns (n: nat)
    ensures forall id | id in ids :: |id| <= n
    decreases ids
  {
    if ids == {} {
      n := 0;
    } else {
      var id :| id in ids;
      n := Longest(ids - {id});
      n := if |id| > n then |id| else n;
    }
  }

  lemma BlockedIf(w: World, p: Pid)
    requires LocksMatch(w) && p in w.procs
    ensures w.procs[p].acct.Waiting? && w.procs[p].acct.addr in w.accountLock ==> Blocked(w, p)
    ensures w.procs[p].jrn.WaitShared? && w.exclusive.Some? ==> Blocked(w, p)
    ensures w.procs[p].jrn.WaitExclusive? && (w.exclusive.Some? || w.shared != {}) ==> Blocked(w, p)
  {
    var a, j := w.procs[p].acct, w.procs[p].jrn;
    if a.Waiting? && a.addr in w.accountLock {
      assert WaitsFor(w, p, w.accountLock[a.addr]);
    }
    if (j.WaitShared? || j.WaitExclusive?) && w.exclusive.Some? {
      assert WaitsFor(w, p, w.exclusive.value);
    }
    if j.WaitExclusive? && w.shared != {} {
      var q :| q in w.shared;
      assert WaitsFor(w, p, q);
    }
  }

  /** A busy process that is not blocked can carry on. */
  lemma OwnStep(e: Env, w: World, p: Pid) returns (s: Step)
    requires LocksMatch(w) && ErrandsOk(w) && p in w.procs && w.procs[p] != IDLE && !Blocked(w, p)
    ensures Progress(s) && Enabled(e, w, s) && s.p == p && CarriesOn(e, w, p, s)
  {
    var a, j := w.procs[p].acct, w.procs[p].jrn;
    BlockedIf(w, p);
    if a.Waiting? {
      return GetAccount(p);
    }
    match j {
      case NoJournal =>
        if a.Deriving? { return AskShared(p); }
        if a.Leased? { return Release(p); }
        return if a.intent.Reset? then WriteReset(p) else TakeLease(p);
      case WaitShared =>
        return GetShared(p);
      case Shared =>
        if !a.Deriving? { return DropShared(p); }
        var next := JournalNextExists(Consumed(Now(e, w), e.account, a.addr));
        return FoldStep(p, next);
      case WaitExclusive(_) =>
        return GetExclusive(p);
      case Owner(_) => return ReadRepair(p);
      case Ready(job, recs) =>
        if !MayWrite(job, recs) { return DropExclusive(p); }
        var id := FreshId(Fold(recs).Keys);
        return Stamp(p, id, "");
      case Writing(_, _, _, r, k) =>
        if k < |e.codec.Line(r)| { return WriteByte(p); }
        return DropExclusive(p);
      case Compacted => return DropExclusive(p);
    }
  }
}
