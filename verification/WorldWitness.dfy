/** Concrete runs: what goes wrong when a failed record is brought back to life, and when the record a cache reset
    went by fails. One process is enough. */
module WorldWitness {
  import opened Text
  import opened JournalRecord
  import opened JournalFile
  import opened Nonce
  import opened World

  // --- runs ---

  /** A step of a run; `strict` says whether failed records stay failed. */
  ghost predicate Moves(e: Env, strict: bool, w: World, s: Step, w': World) {
    Placed(e, w, s) && Guarded(e, w, s) && (strict ==> RevivesNothing(e, w, s)) && w' == Do(e, w, s)
  }

  ghost predicate MovesAt(e: Env, strict: bool, ws: seq<World>, ss: seq<Step>, i: nat)
    requires i < |ss| && |ws| == |ss| + 1
  {
    Moves(e, strict, ws[i], ss[i], ws[i + 1])
  }

  ghost predicate IsPath(e: Env, strict: bool, ws: seq<World>, ss: seq<Step>) {
    |ws| == |ss| + 1 && forall i | 0 <= i < |ss| :: MovesAt(e, strict, ws, ss, i)
  }

  ghost predicate Reaches(e: Env, strict: bool, w: World, w': World) {
    exists ws, ss :: IsPath(e, strict, ws, ss) && ws[0] == w && ws[|ss|] == w'
  }

  lemma Here(e: Env, strict: bool, w: World)
    ensures Reaches(e, strict, w, w)
  {
    assert IsPath(e, strict, [w], []);
  }

  lemma Then(e: Env, strict: bool, w0: World, w: World, s: Step, w': World)
    requires Reaches(e, strict, w0, w) && Moves(e, strict, w, s, w')
    ensures Reaches(e, strict, w0, w')
  {
    var ws, ss :| IsPath(e, strict, ws, ss) && ws[0] == w0 && ws[|ss|] == w;
    PathSnoc(e, strict, ws, ss, s, w');
    assert (ws + [w'])[0] == w0 && (ws + [w'])[|ss + [s]|] == w';
  }

  lemma PathSnoc(e: Env, strict: bool, ws: seq<World>, ss: seq<Step>, s: Step, w': World)
    requires IsPath(e, strict, ws, ss) && Moves(e, strict, ws[|ss|], s, w')
    ensures IsPath(e, strict, ws + [w'], ss + [s])
  {
    var ws', ss' := ws + [w'], ss + [s];
    forall i | 0 <= i < |ss'|
      ensures MovesAt(e, strict, ws', ss', i)
    {
      if i < |ss| {
        assert MovesAt(e, strict, ws, ss, i);
        assert ws'[i] == ws[i] && ws'[i + 1] == ws[i + 1] && ss'[i] == ss[i];
      } else {
        assert ws'[i] == ws[|ss|] && ws'[i + 1] == w' && ss'[i] == s;
      }
    }
  }

  /** A strict path from an initial world is a run. */
  lemma StrictIsRun(e: Env, w0: World, w: World) returns (ws: seq<World>, ss: seq<Step>)
    requires Initial(e, w0) && Reaches(e, true, w0, w)
    ensures IsRun(e, ws, ss) && ws[|ss|] == w
  {
    ws, ss :| IsPath(e, true, ws, ss) && ws[0] == w0 && ws[|ss|] == w;
    forall i | 0 <= i < |ss|
      ensures StepAt(e, ws, ss, i)
    {
      assert MovesAt(e, true, ws, ss, i);
    }
  }

  // --- a world with one process ---

  const SOLE: Pid := 0

  function Alone(file: string, cache: map<int, u64>, derived: set<string>, proc: Proc): World {
    World(file, cache,
          if proc.acct.Holds() then map[proc.acct.addr := SOLE] else map[],
          if proc.jrn.Owns() then Some(SOLE) else None,
          if proc.jrn.Shared? then {SOLE} else {},
          map[SOLE := proc], derived)
  }

  const NOBODY: World := World("", map[], map[], None, {}, map[], {})

  lemma Start(e: Env, strict: bool)
    requires e.codec.Valid()
    ensures Initial(e, NOBODY)
    ensures Reaches(e, strict, NOBODY, Alone("", map[], {}, IDLE))
  {
    Here(e, strict, NOBODY);
    assert Records(e.codec, "") == [] && Fold([]) == map[];
    Then(e, strict, NOBODY, NOBODY, Spawn(SOLE), Alone("", map[], {}, IDLE));
  }

  lemma OneEntry(x: Proc, y: Proc, addr: int)
    ensures map[SOLE := x][SOLE := y] == map[SOLE := y]
    ensures map[addr := SOLE] - {addr} == map[]
    ensures var none: map<int, Pid> := map[]; none[addr := SOLE] == map[addr := SOLE]
    ensures var none: set<Pid> := {}; none + {SOLE} == {SOLE} && {SOLE} - {SOLE} == none
  {}

  /** One step of the lone process. */
  lemma Go(e: Env, strict: bool, w0: World, w: World, s: Step, w': World)
    requires Reaches(e, strict, w0, w)
    requires Placed(e, w, s) && Guarded(e, w, s) && (strict ==> RevivesNothing(e, w, s)) && Do(e, w, s) == w'
    ensures Reaches(e, strict, w0, w')
  {
    Then(e, strict, w0, w, s, w');
  }

  // --- errands ---

  /** From idle to the fold of the journal. */
  lemma Folding(e: Env, strict: bool, w0: World, file: string, cache: map<int, u64>, derived: set<string>,
                addr: int, intent: Intent, next: u64)
    requires Reaches(e, strict, w0, Alone(file, cache, derived, IDLE)) && !intent.Forced?
    requires IsJournalNext(Consumed(FoldOf(e.codec, file), e.account, addr), next)
    ensures Reaches(e, strict, w0, Alone(file, cache, derived, Proc(Folded(addr, intent, next), NoJournal)))
  {
    var w1 := Alone(file, cache, derived, IDLE);
    var w2 := Alone(file, cache, derived, Proc(Waiting(addr, intent), NoJournal));
    var w3 := Alone(file, cache, derived, Proc(Deriving(addr, intent), NoJournal));
    OneEntry(IDLE, w2.procs[SOLE], addr);
    Go(e, strict, w0, w1, AskAccount(SOLE, addr, intent), w2);
    OneEntry(w2.procs[SOLE], w3.procs[SOLE], addr);
    Go(e, strict, w0, w2, GetAccount(SOLE), w3);
    Reading(e, strict, w0, file, cache, derived, addr, intent, next);
  }

  lemma Reading(e: Env, strict: bool, w0: World, file: string, cache: map<int, u64>, derived: set<string>,
                addr: int, intent: Intent, next: u64)
    requires Reaches(e, strict, w0, Alone(file, cache, derived, Proc(Deriving(addr, intent), NoJournal)))
    requires IsJournalNext(Consumed(FoldOf(e.codec, file), e.account, addr), next)
    ensures Reaches(e, strict, w0, Alone(file, cache, derived, Proc(Folded(addr, intent, next), NoJournal)))
  {
    var w1 := Alone(file, cache, derived, Proc(Deriving(addr, intent), NoJournal));
    var w2 := Alone(file, cache, derived, Proc(Deriving(addr, intent), WaitShared));
    var w3 := Alone(file, cache, derived, Proc(Deriving(addr, intent), Shared));
    OneEntry(w1.procs[SOLE], w2.procs[SOLE], addr);
    Go(e, strict, w0, w1, AskShared(SOLE), w2);
    OneEntry(w2.procs[SOLE], w3.procs[SOLE], addr);
    Go(e, strict, w0, w2, GetShared(SOLE), w3);
    ReadingEnds(e, strict, w0, file, cache, derived, addr, intent, next);
  }

  lemma ReadingEnds(e: Env, strict: bool, w0: World, file: string, cache: map<int, u64>, derived: set<string>,
                    addr: int, intent: Intent, next: u64)
    requires Reaches(e, strict, w0, Alone(file, cache, derived, Proc(Deriving(addr, intent), Shared)))
    requires IsJournalNext(Consumed(FoldOf(e.codec, file), e.account, addr), next)
    ensures Reaches(e, strict, w0, Alone(file, cache, derived, Proc(Folded(addr, intent, next), NoJournal)))
  {
    var w1 := Alone(file, cache, derived, Proc(Deriving(addr, intent), Shared));
    var w2 := Alone(file, cache, derived, Proc(Folded(addr, intent, next), Shared));
    var w3 := Alone(file, cache, derived, Proc(Folded(addr, intent, next), NoJournal));
    OneEntry(w1.procs[SOLE], w2.procs[SOLE], addr);
    Go(e, strict, w0, w1, FoldStep(SOLE, next), w2);
    OneEntry(w2.procs[SOLE], w3.procs[SOLE], addr);
    Go(e, strict, w0, w2, DropShared(SOLE), w3);
  }

  /** An unforced lease, with the chain at `chainPending`. */
  lemma Leasing(e: Env, strict: bool, w0: World, file: string, cache: map<int, u64>, derived: set<string>,
                addr: int, chainPending: u64, next: u64, nonce: u64)
    requires Reaches(e, strict, w0, Alone(file, cache, derived, IDLE))
    requires IsJournalNext(Consumed(FoldOf(e.codec, file), e.account, addr), next)
    requires nonce == Derived(chainPending, if addr in cache then cache[addr] else 0, next)
    ensures Reaches(e, strict, w0, Alone(file, cache, derived, Proc(Leased(addr, nonce, true, false), NoJournal)))
  {
    Folding(e, strict, w0, file, cache, derived, addr, Send(chainPending), next);
    var w := Alone(file, cache, derived, Proc(Folded(addr, Send(chainPending), next), NoJournal));
    var w' := Alone(file, cache, derived, Proc(Leased(addr, nonce, true, false), NoJournal));
    OneEntry(w.procs[SOLE], w'.procs[SOLE], addr);
    Go(e, strict, w0, w, TakeLease(SOLE), w');
  }

  lemma Releasing(e: Env, strict: bool, w0: World, file: string, cache: map<int, u64>, derived: set<string>,
                  addr: int, nonce: u64, journaled: bool)
    requires Reaches(e, strict, w0, Alone(file, cache, derived, Proc(Leased(addr, nonce, true, journaled), NoJournal)))
    ensures Reaches(e, strict, w0, Alone(file, cache, derived, IDLE))
  {
    var w := Alone(file, cache, derived, Proc(Leased(addr, nonce, true, journaled), NoJournal));
    var w' := Alone(file, cache, derived, IDLE);
    OneEntry(w.procs[SOLE], IDLE, addr);
    Go(e, strict, w0, w, Release(SOLE), w');
  }

  /** ResetCache writes the journal's next nonce. */
  lemma Resetting(e: Env, strict: bool, w0: World, file: string, cache: map<int, u64>, derived: set<string>,
                  addr: int, next: u64)
    requires Reaches(e, strict, w0, Alone(file, cache, derived, IDLE))
    requires IsJournalNext(Consumed(FoldOf(e.codec, file), e.account, addr), next)
    ensures Reaches(e, strict, w0, Alone(file, cache[addr := next], derived, IDLE))
  {
    Folding(e, strict, w0, file, cache, derived, addr, Reset, next);
    var w := Alone(file, cache, derived, Proc(Folded(addr, Reset, next), NoJournal));
    var w' := Alone(file, cache[addr := next], derived, IDLE);
    OneEntry(w.procs[SOLE], IDLE, addr);
    Go(e, strict, w0, w, WriteReset(SOLE), w');
  }

  // --- journal sections ---

  /** An exclusive section from the request to the end: the file grows by the job's line. */
  lemma Journaling(e: Env, strict: bool, w0: World, file: string, cache: map<int, u64>, derived: set<string>,
                   acct: Account, job: Job, id: string, r: Record)
    requires e.codec.Valid() && Terminated(file) && !acct.Waiting?
    requires Reaches(e, strict, w0, Alone(file, cache, derived, Proc(acct, WaitExclusive(job))))
    requires var recs := Records(e.codec, file);
      && Found(job, recs) && MaxSeq(recs) < U64 - 1 && (job.AddNew? ==> id !in Fold(recs))
      && r == Stamped(job, recs, id, "")
      && (strict && job.Change? ==> (Fold(recs)[job.id].status == FAILED ==> r.status == FAILED))
    ensures var derived' := if job.AddNew? && job.derived then derived + {r.id} else derived;
      Reaches(e, strict, w0, Alone(file + e.codec.Line(r), cache, derived', Proc(acct, NoJournal)))
  {
    Opening(e, strict, w0, file, cache, derived, acct, job);
    var recs := Records(e.codec, file);
    var w3 := Alone(file, cache, derived, Proc(acct, Ready(job, recs)));
    var w4 := Alone(file, cache, derived, Proc(acct, Writing(job, recs, file, r, 0)));
    OneEntry(w3.procs[SOLE], w4.procs[SOLE], 0);
    Go(e, strict, w0, w3, Stamp(SOLE, id, ""), w4);
    Bytes(e, strict, w0, file, cache, derived, acct, job, recs, r, |e.codec.Line(r)| - 1);
    LastByte(e, strict, w0, file, cache, derived, acct, job, recs, r);
  }

  /** The lock is taken and the file read. */
  lemma Opening(e: Env, strict: bool, w0: World, file: string, cache: map<int, u64>, derived: set<string>,
                acct: Account, job: Job)
    requires Terminated(file) && !acct.Waiting?
    requires Reaches(e, strict, w0, Alone(file, cache, derived, Proc(acct, WaitExclusive(job))))
    ensures Reaches(e, strict, w0, Alone(file, cache, derived, Proc(acct, Ready(job, Records(e.codec, file)))))
  {
    var w1 := Alone(file, cache, derived, Proc(acct, WaitExclusive(job)));
    var w2 := Alone(file, cache, derived, Proc(acct, Owner(job)));
    var w3 := Alone(file, cache, derived, Proc(acct, Ready(job, Records(e.codec, file))));
    TerminatedIsRepaired(file);
    OneEntry(w1.procs[SOLE], w2.procs[SOLE], 0);
    Go(e, strict, w0, w1, GetExclusive(SOLE), w2);
    OneEntry(w2.procs[SOLE], w3.procs[SOLE], 0);
    Go(e, strict, w0, w2, ReadRepair(SOLE), w3);
  }

  lemma TerminatedIsRepaired(file: string)
    requires Terminated(file)
    ensures Repaired(file) == file && Tail(file) == ""
  {
    assert TrimSpace("") == "";
  }

  /** The line up to its byte `k`, short of the last one. */
  lemma {:induction false} Bytes(e: Env, strict: bool, w0: World, file: string, cache: map<int, u64>, derived: set<string>,
                                 acct: Account, job: Job, recs: seq<Record>, r: Record, k: nat)
    requires k < |e.codec.Line(r)|
    requires Reaches(e, strict, w0, Alone(file, cache, derived, Proc(acct, Writing(job, recs, file, r, 0))))
    ensures Reaches(e, strict, w0,
      Alone(file + e.codec.Line(r)[..k], cache, derived, Proc(acct, Writing(job, recs, file, r, k))))
  {
    if k == 0 {
      assert file + e.codec.Line(r)[..0] == file;
    } else {
      Bytes(e, strict, w0, file, cache, derived, acct, job, recs, r, k - 1);
      OneMore(file, e.codec.Line(r), k - 1);
      var w := Alone(file + e.codec.Line(r)[..k - 1], cache, derived, Proc(acct, Writing(job, recs, file, r, k - 1)));
      var w' := Alone(file + e.codec.Line(r)[..k], cache, derived, Proc(acct, Writing(job, recs, file, r, k)));
      OneEntry(w.procs[SOLE], w'.procs[SOLE], 0);
      Go(e, strict, w0, w, WriteByte(SOLE), w');
    }
  }

  lemma LastByte(e: Env, strict: bool, w0: World, file: string, cache: map<int, u64>, derived: set<string>,
                 acct: Account, job: Job, recs: seq<Record>, r: Record)
    requires var k := |e.codec.Line(r)| - 1;
      Reaches(e, strict, w0,
        Alone(file + e.codec.Line(r)[..k], cache, derived, Proc(acct, Writing(job, recs, file, r, k))))
    ensures var derived' := if job.AddNew? && job.derived then derived + {r.id} else derived;
      Reaches(e, strict, w0, Alone(file + e.codec.Line(r), cache, derived', Proc(acct, NoJournal)))
  {
    var line := e.codec.Line(r);
    var k := |line| - 1;
    var derived' := if job.AddNew? && job.derived then derived + {r.id} else derived;
    OneMore(file, line, k);
    assert line[..k + 1] == line;
    var w := Alone(file + line[..k], cache, derived, Proc(acct, Writing(job, recs, file, r, k)));
    var w' := Alone(file + line, cache, derived', Proc(acct, Writing(job, recs, file, r, k + 1)));
    OneEntry(w.procs[SOLE], w'.procs[SOLE], 0);
    Go(e, strict, w0, w, WriteByte(SOLE), w');
    Closing(e, strict, w0, file + line, cache, derived', acct, w'.procs[SOLE].jrn);
  }

  lemma Closing(e: Env, strict: bool, w0: World, file: string, cache: map<int, u64>, derived: set<string>,
                acct: Account, jrn: Journal)
    requires jrn.Owns() && Reaches(e, strict, w0, Alone(file, cache, derived, Proc(acct, jrn)))
    ensures Reaches(e, strict, w0, Alone(file, cache, derived, Proc(acct, NoJournal)))
  {
    var w := Alone(file, cache, derived, Proc(acct, jrn));
    var w' := Alone(file, cache, derived, Proc(acct, NoJournal));
    OneEntry(w.procs[SOLE], w'.procs[SOLE], 0);
    Go(e, strict, w0, w, DropExclusive(SOLE), w');
  }

  /** Lease, append a record for it, release. */
  lemma Sending(e: Env, strict: bool, w0: World, file: string, cache: map<int, u64>, derived: set<string>,
                draft: Record, chainPending: u64, next: u64, id: string, r: Record)
    requires e.codec.Valid() && Terminated(file)
    requires Reaches(e, strict, w0, Alone(file, cache, derived, IDLE))
    requires IsJournalNext(Consumed(FoldOf(e.codec, file), e.account, e.account(draft.from)), next)
    requires var addr := e.account(draft.from);
      draft.nonce == Derived(chainPending, if addr in cache then cache[addr] else 0, next) < U64 - 1
    requires var recs := Records(e.codec, file);
      MaxSeq(recs) < U64 - 1 && id !in Fold(recs) && r == Stamped(AddNew(draft, true), recs, id, "")
    ensures Reaches(e, strict, w0, Alone(file + e.codec.Line(r), cache, derived + {id}, IDLE))
  {
    var addr := e.account(draft.from);
    Leasing(e, strict, w0, file, cache, derived, addr, chainPending, next, draft.nonce);
    var w := Alone(file, cache, derived, Proc(Leased(addr, draft.nonce, true, false), NoJournal));
    var acct := Leased(addr, draft.nonce, true, true);
    var w' := Alone(file, cache, derived, Proc(acct, WaitExclusive(AddNew(draft, true))));
    OneEntry(w.procs[SOLE], w'.procs[SOLE], addr);
    Go(e, strict, w0, w, AskAppend(SOLE, draft), w');
    Journaling(e, strict, w0, file, cache, derived, acct, AddNew(draft, true), id, r);
    Releasing(e, strict, w0, file + e.codec.Line(r), cache, derived + {id}, addr, draft.nonce, true);
  }

  /** SetState on a record that is there. */
  lemma Changing(e: Env, strict: bool, w0: World, file: string, cache: map<int, u64>, derived: set<string>,
                 id: string, m: StateMutation, r: Record)
    requires e.codec.Valid() && Terminated(file)
    requires Reaches(e, strict, w0, Alone(file, cache, derived, IDLE))
    requires var recs := Records(e.codec, file);
      && MaxSeq(recs) < U64 - 1 && id in Fold(recs) && r == Stamped(Change(id, m), recs, id, "")
      && (strict && Fold(recs)[id].status == FAILED ==> r.status == FAILED)
    ensures Reaches(e, strict, w0, Alone(file + e.codec.Line(r), cache, derived, IDLE))
  {
    var w := Alone(file, cache, derived, IDLE);
    var w' := Alone(file, cache, derived, Proc(NoAccount, WaitExclusive(Change(id, m))));
    OneEntry(IDLE, w'.procs[SOLE], 0);
    Go(e, strict, w0, w, AskChange(SOLE, id, m), w');
    Journaling(e, strict, w0, file, cache, derived, NoAccount, Change(id, m), id, r);
  }

  /** A file grown by one line: terminated, and one record longer. */
  lemma Grown(c: Codec, file: string, r: Record)
    requires c.Valid() && Terminated(file)
    ensures Terminated(file + c.Line(r)) && Records(c, file + c.Line(r)) == Records(c, file) + [r]
  {
    TerminatedIsRepaired(file);
    assert TrimSpace("") == "";
    WholeLineIsVisible(c, file, r);
  }

  // --- the stories ---

  const BROADCAST := "broadcast"

  function To(status: string): StateMutation {
    StateMutation(status, None, None, None, None, None, None)
  }

  /** The four lines of the first story and their folds. */
  function Line1(draft: Record, a: string): Record {
    draft.(id := a, ts := "", seqNo := 1)
  }

  function Line2(draft: Record, a: string): Record {
    draft.(id := a, ts := "", seqNo := 2, status := FAILED)
  }

  function Line3(draft: Record, b: string): Record {
    draft.(id := b, ts := "", seqNo := 3)
  }

  function Line4(draft: Record, a: string): Record {
    draft.(id := a, ts := "", seqNo := 4, status := BROADCAST)
  }

  /** What is known of a file after a story so far. */
  ghost predicate Holds(c: Codec, file: string, rs: seq<Record>, m: Latest, top: u64) {
    Terminated(file) && Records(c, file) == rs && Fold(rs) == m && MaxSeq(rs) == top
  }

  lemma OneConsumed(e: Env, a: string, r: Record)
    requires r.status != FAILED && r.nonce == 0
    ensures IsJournalNext(Consumed(map[][a := r], e.account, e.account(r.from)), 1)
  {
    var m: Latest := map[][a := r];
    assert a in m && m[a] == r;
    assert 0 in Consumed(m, e.account, e.account(r.from));
    assert forall n | n in Consumed(m, e.account, e.account(r.from)) :: n == 0;
  }

  lemma HoldsMore(c: Codec, file: string, rs: seq<Record>, m: Latest, top: u64, r: Record)
    requires c.Valid() && Holds(c, file, rs, m, top) && top < U64 - 1 && r.seqNo == top + 1
    ensures Holds(c, file + c.Line(r), rs + [r], m[r.id := r], top + 1)
  {
    Grown(c, file, r);
    NextIsNewest(rs, m, top, r);
  }

  lemma NextIsNewest(rs: seq<Record>, m: Latest, top: u64, r: Record)
    requires Fold(rs) == m && MaxSeq(rs) == top && top < U64 - 1 && r.seqNo == top + 1
    ensures Fold(rs + [r]) == m[r.id := r] && MaxSeq(rs + [r]) == top + 1
  {
    NextLineVisible(rs, r);
    MaxSeqSnoc(rs, r);
  }

  lemma NothingConsumed(e: Env, m: Latest, addr: int)
    requires forall id | id in m :: m[id].status == FAILED
    ensures Consumed(m, e.account, addr) == {} && IsJournalNext(Consumed(m, e.account, addr), 0)
  {}

  /** An account's first record is sent. */
  lemma SentOnce(e: Env, strict: bool, draft: Record, a: string)
    requires e.codec.Valid() && draft.nonce == 0
    ensures var r1 := Line1(draft, a); var file := "" + e.codec.Line(r1);
      && Reaches(e, strict, NOBODY, Alone(file, map[], {} + {a}, IDLE))
      && Holds(e.codec, file, [] + [r1], map[][a := r1], 1)
  {
    var r1 := Line1(draft, a);
    Start(e, strict);
    assert Holds(e.codec, "", [], map[], 0);
    NothingConsumed(e, map[], e.account(draft.from));
    Sending(e, strict, NOBODY, "", map[], {}, draft, 0, 0, a, r1);
    HoldsMore(e.codec, "", [], map[], 0, r1);
  }

  /** It fails: nothing is consumed any more, so the journal calls for nonce 0 again. */
  lemma ThenFails(e: Env, strict: bool, file: string, cache: map<int, u64>, derived: set<string>, draft: Record, a: string)
    requires e.codec.Valid() && Holds(e.codec, file, [] + [Line1(draft, a)], map[][a := Line1(draft, a)], 1)
    requires Reaches(e, strict, NOBODY, Alone(file, cache, derived, IDLE))
    ensures var r2 := Line2(draft, a); var file' := file + e.codec.Line(r2);
      && Reaches(e, strict, NOBODY, Alone(file', cache, derived, IDLE))
      && Holds(e.codec, file', [] + [Line1(draft, a)] + [r2], map[a := r2], 2)
      && IsJournalNext(Consumed(map[a := r2], e.account, e.account(draft.from)), 0)
  {
    var r1, r2 := Line1(draft, a), Line2(draft, a);
    Changing(e, strict, NOBODY, file, cache, derived, a, To(FAILED), r2);
    HoldsMore(e.codec, file, [] + [r1], map[][a := r1], 1, r2);
    assert map[][a := r1][a := r2] == map[a := r2];
    NothingConsumed(e, map[a := r2], e.account(draft.from));
  }

  /** Without the guard: a record is sent, fails, its nonce goes to a second record, and a late rebroadcast brings
      the first one back. Two live records from unforced leases now carry nonce 0. */
  lemma RevivalRun(e: Env, draft: Record, a: string, b: string) returns (w: World)
    requires e.codec.Valid() && draft.nonce == 0 && draft.status != FAILED && a != b
    ensures Reaches(e, false, NOBODY, w) && !NoncesUnique(e, Now(e, w), w.derived)
  {
    var r1, r2, r3, r4 := Line1(draft, a), Line2(draft, a), Line3(draft, b), Line4(draft, a);
    var f1 := "" + e.codec.Line(r1);
    var f2 := f1 + e.codec.Line(r2);
    var f3 := f2 + e.codec.Line(r3);
    var rs2 := [] + [r1] + [r2];
    SentOnce(e, false, draft, a);
    ThenFails(e, false, f1, map[], {} + {a}, draft, a);
    Sending(e, false, NOBODY, f2, map[], {} + {a}, draft, 0, 0, b, r3);
    HoldsMore(e.codec, f2, rs2, map[a := r2], 2, r3);
    Revived(e, f3, rs2 + [r3], map[a := r2][b := r3], r2, r3, r4, {} + {a} + {b});
    w := Alone(f3 + e.codec.Line(r4), map[], {} + {a} + {b}, IDLE);
  }

  lemma Revived(e: Env, file: string, rs: seq<Record>, m: Latest, failed: Record, other: Record, r: Record, derived: set<string>)
    requires e.codec.Valid() && Holds(e.codec, file, rs, m, 3) && Reaches(e, false, NOBODY, Alone(file, map[], derived, IDLE))
    requires failed.id in m && m[failed.id] == failed && other.id in m && m[other.id] == other && other.id != failed.id
    requires r == failed.(status := BROADCAST, ts := "", seqNo := 4) && other.status != FAILED
    requires other.from == failed.from && other.nonce == failed.nonce && failed.id in derived && other.id in derived
    ensures var w := Alone(file + e.codec.Line(r), map[], derived, IDLE);
      Reaches(e, false, NOBODY, w) && !NoncesUnique(e, Now(e, w), w.derived)
  {
    Changing(e, false, NOBODY, file, map[], derived, failed.id, To(BROADCAST), r);
    HoldsMore(e.codec, file, rs, m, 3, r);
    BothLive(e, r, other, Alone(file + e.codec.Line(r), map[], derived, IDLE));
  }

  lemma BothLive(e: Env, r: Record, r': Record, w: World)
    requires r.id in w.derived && r'.id in w.derived && r.id != r'.id && r.from == r'.from && r.nonce == r'.nonce
    requires r.status != FAILED && r'.status != FAILED
    requires r.id in Now(e, w) && Now(e, w)[r.id] == r && r'.id in Now(e, w) && Now(e, w)[r'.id] == r'
    ensures !NoncesUnique(e, Now(e, w), w.derived)
  {}

  /** In a real run: a record is sent, the cache is reset to 1, the record fails, and the next lease takes nonce 1
      although the journal calls for 0. */
  lemma StaleResetRun(e: Env, draft: Record, a: string) returns (ws: seq<World>, ss: seq<Step>)
    requires e.codec.Valid() && draft.nonce == 0 && draft.status != FAILED
    ensures IsRun(e, ws, ss)
    ensures var w := ws[|ss|];
      && SOLE in w.procs && w.procs[SOLE].acct == Leased(e.account(draft.from), 1, true, false)
      && IsJournalNext(Consumed(Now(e, w), e.account, e.account(draft.from)), 0)
  {
    var addr := e.account(draft.from);
    var f1 := "" + e.codec.Line(Line1(draft, a));
    var f2 := f1 + e.codec.Line(Line2(draft, a));
    var cache: map<int, u64> := map[][addr := 1];
    SentAndReset(e, draft, a);
    ThenFails(e, true, f1, cache, {} + {a}, draft, a);
    StaleLease(e, f2, cache, {} + {a}, addr);
    ws, ss := StrictIsRun(e, NOBODY, Alone(f2, cache, {} + {a}, Proc(Leased(addr, 1, true, false), NoJournal)));
  }

  lemma SentAndReset(e: Env, draft: Record, a: string)
    requires e.codec.Valid() && draft.nonce == 0 && draft.status != FAILED
    ensures var r1 := Line1(draft, a); var file := "" + e.codec.Line(r1);
      && Reaches(e, true, NOBODY, Alone(file, map[][e.account(draft.from) := 1], {} + {a}, IDLE))
      && Holds(e.codec, file, [] + [r1], map[][a := r1], 1)
  {
    var addr, r1 := e.account(draft.from), Line1(draft, a);
    SentOnce(e, true, draft, a);
    OneConsumed(e, a, r1);
    Resetting(e, true, NOBODY, "" + e.codec.Line(r1), map[], {} + {a}, addr, 1);
  }

  lemma StaleLease(e: Env, file: string, cache: map<int, u64>, derived: set<string>, addr: int)
    requires Reaches(e, true, NOBODY, Alone(file, cache, derived, IDLE)) && addr in cache && cache[addr] == 1
    requires IsJournalNext(Consumed(FoldOf(e.codec, file), e.account, addr), 0)
    ensures Reaches(e, true, NOBODY, Alone(file, cache, derived, Proc(Leased(addr, 1, true, false), NoJournal)))
  {
    Leasing(e, true, NOBODY, file, cache, derived, addr, 0, 0, 1);
  }
}
