/** The journal store over one chain's file: internal/journal/store.go and store_jsonl.go, on the
    write primitives of internal/fsx/atomic.go.

Every system call may fail, and a crash may follow any of them: the disk collects in `seen` each
content the file has had since the running operation began, so what holds of every element of
`seen` holds of whatever a crash leaves behind. */
module JournalStore {
  import opened Text
  import opened JournalRecord
  import opened JournalFile

  datatype Error = StateCorrupt | LockTimeout | NotFound
  datatype Result<+T> = Ok(value: T) | Err(error: Error)

  const SUPERSEDED_THRESHOLD := 5000
  const SIZE_THRESHOLD := 0x80_0000

  /** One file name and the temporary file WriteAtomic prepares beside it. */
  class Disk {
    var content: Option<string>
    var temp: Option<string>
    ghost var seen: set<string>

    ghost predicate Valid()
      reads this
    {
      Bytes() in seen
    }

    /** A missing file reads as empty. */
    function Bytes(): string
      reads this
    {
      if content.Some? then content.value else ""
    }

    constructor (initial: Option<string>)
      ensures Valid() && content == initial
    {
      content, temp := initial, None;
      seen := {if initial.Some? then initial.value else ""};
    }

    /** An operation begins: only the present content has been seen. */
    ghost method Watch()
      modifies this`seen
      ensures seen == {Bytes()}
    {
      seen := {Bytes()};
    }

    /** fsx.WriteAtomic. It may fail before or after the rename, at any byte of the temporary file;
        under the file's own name there is only ever the old content or all of the new one. */
    method WriteAtomic(data: string) returns (ok: bool)
      requires Valid()
      modifies this
      ensures Valid() && seen <= old(seen) + {data}
      ensures ok ==> content == Some(data)
      ensures content == old(content) || content == Some(data)
    {
      if * { return false; }  // no temporary name, or the open fails
      temp := Some("");
      var committed := false;
      var written := 0;
      while written < |data|
        invariant written <= |data| && temp == Some(data[..written])
        invariant content == old(content) && seen == old(seen)
      {
        if * { temp := None; return false; }
        assert data[..written] + [data[written]] == data[..written + 1];
        temp := Some(temp.value + [data[written]]);
        written := written + 1;
        seen := seen + {Bytes()};
      }
      assert data[..|data|] == data;
      if * { temp := None; return false; }  // sync or close fails
      if * { temp := None; return false; }  // rename fails
      content, temp := temp, None;
      committed := true;
      seen := seen + {Bytes()};
      if * { return false; }  // the directory sync fails after the rename took effect
      return committed;
    }

    /** Open for append, one write, sync, close. The write may stop after any byte, and the call may
        fail although every byte was written. */
    method AppendBytes(b: string) returns (ok: bool)
      requires Valid()
      modifies this
      ensures Valid()
      ensures forall d | d in seen :: d in old(seen) || Prefixed(old(Bytes()), b, d)
      ensures Prefixed(old(Bytes()), b, Bytes())
      ensures ok ==> Bytes() == old(Bytes()) + b
    {
      var before := Bytes();
      assert before + b[..0] == before;
      if * { return false; }
      content := Some(before);  // O_CREATE
      var written := 0;
      while written < |b|
        invariant written <= |b| && Bytes() == before + b[..written]
        invariant Valid() && content.Some?
        invariant forall d | d in seen :: d in old(seen) || Prefixed(before, b, d)
      {
        if * { return false; }
        assert before + b[..written] + [b[written]] == before + b[..written + 1];
        content := Some(content.value + [b[written]]);
        written := written + 1;
        seen := seen + {Bytes()};
      }
      assert b[..|b|] == b;
      if * { return false; }  // sync or close fails
      return true;
    }
  }

  /** `d` is `before` followed by some prefix of `b`: what a write cut short leaves. */
  ghost predicate Prefixed(before: string, b: string, d: string) {
    exists k :: 0 <= k <= |b| && d == before + b[..k]
  }

  /** The caller's *Record, which Append stamps in place. */
  class RecordBox {
    var r: Record

    constructor (r: Record)
      ensures this.r == r
    {
      this.r := r;
    }
  }

  /** What a file may hold, `rs` being its records before a line for `r` was added. */
  ghost predicate Progress(rs: seq<Record>, r: Record, after: seq<Record>) {
    after == rs || after == rs + [r] || IsSnapshot(Fold(rs + [r]), after)
  }

  /** A reader of `d` sees the fold of `rs`, or that fold with exactly `r` put in. */
  ghost predicate Atomic(c: Codec, rs: seq<Record>, r: Record, d: string) {
    FoldOf(c, d) == Fold(rs) || FoldOf(c, d) == Put(Fold(rs), r)
  }

  /** If file order was seq order, it still is. */
  ghost predicate Ordered(c: Codec, rs: seq<Record>, d: string) {
    Increasing(rs) && MaxSeq(rs) < U64 - 1 ==> Increasing(Records(c, d))
  }

  /** The two together. */
  ghost predicate Safe(c: Codec, rs: seq<Record>, r: Record, d: string) {
    Atomic(c, rs, r, d) && Ordered(c, rs, d)
  }

  /** No content in `ds` has other records than `rs`. */
  ghost predicate Untouched(c: Codec, rs: seq<Record>, ds: set<string>) {
    forall d | d in ds :: Records(c, d) == rs
  }

  ghost predicate AllSafe(c: Codec, rs: seq<Record>, r: Record, ds: set<string>) {
    forall d | d in ds :: Safe(c, rs, r, d)
  }

  lemma SafeTogether(c: Codec, rs: seq<Record>, r: Record, before: set<string>, after: set<string>)
    requires AllSafe(c, rs, r, before)
    requires forall d | d in after :: d in before || Safe(c, rs, r, d)
    ensures AllSafe(c, rs, r, after)
  {}

  lemma UntouchedIsSafe(c: Codec, rs: seq<Record>, r: Record, ds: set<string>)
    requires Untouched(c, rs, ds)
    ensures AllSafe(c, rs, r, ds)
  {
    forall d | d in ds
      ensures Safe(c, rs, r, d)
    {
      assert Records(c, d) == rs;
    }
  }

  lemma ProgressIsAtomic(c: Codec, rs: seq<Record>, r: Record, d: string)
    requires Progress(rs, r, Records(c, d)) && r.seqNo == Next(MaxSeq(rs))
    ensures Safe(c, rs, r, d)
    ensures Records(c, d) != rs ==> FoldOf(c, d) == Put(Fold(rs), r)
  {
    FoldSnoc(rs, r);
    if Records(c, d) != rs {
      if Increasing(rs) && MaxSeq(rs) < U64 - 1 {
        IncreasingSnoc(rs, r);
      }
      if Records(c, d) != rs + [r] {
        SnapshotKeepsFold(rs + [r], Records(c, d));
      }
    }
  }

  /** However far the write got, the file holds the old records, or those and `r`. */
  lemma WrittenLine(c: Codec, before: string, r: Record, d: string)
    requires c.Valid() && TrimSpace(Tail(before)) == "" && Prefixed(before, c.Line(r), d)
    ensures Progress(Records(c, before), r, Records(c, d))
  {
    var line := c.Line(r);
    var k :| 0 <= k <= |line| && d == before + line[..k];
    if k < |line| {
      PartialLineIsInvisible(c, before, r, k);
    } else {
      assert line[..k] == line;
      WholeLineIsVisible(c, before, r);
    }
  }

  lemma TailAt(d: string, k: nat)
    requires k <= |d| && '\n' !in d[k..] && (k == 0 || d[k - 1] == '\n')
    ensures Tail(d) == d[k..] && Complete(d) == d[..k]
    decreases |d|
  {
    if k < |d| {
      var d' := d[..|d| - 1];
      assert d[|d| - 1] == d[k..][|d| - 1 - k];
      assert d'[k..] == d[k..][..|d| - 1 - k];
      TailAt(d', k);
    } else {
      assert d[..k] == d;
    }
  }

  class Store {
    const codec: Codec
    const disk: Disk

    constructor (codec: Codec, disk: Disk)
      ensures this.codec == codec && this.disk == disk
    {
      this.codec, this.disk := codec, disk;
    }

    /** readAll: the records and their highest seq; under the exclusive lock a torn final line is
        also cut off the file. */
    method ReadAll(repair: bool) returns (res: Result<(seq<Record>, u64)>)
      requires disk.Valid()
      modifies if repair then {disk} else {}
      ensures disk.Valid() && disk.seen <= old(disk.seen) + {Repaired(old(disk.Bytes()))}
      ensures disk.Bytes() == old(disk.Bytes()) || disk.Bytes() == Repaired(old(disk.Bytes()))
      ensures res.Err? ==> res.error == StateCorrupt
      ensures res.Ok? ==>
        && res.value.0 == Records(codec, old(disk.Bytes()))
        && res.value.1 == MaxSeq(res.value.0)
        && (repair ==> disk.Bytes() == Repaired(old(disk.Bytes())))
    {
      if * { return Err(StateCorrupt); }  // the read fails
      var data := disk.Bytes();
      var recs, maxSeq, torn := ScanLines(codec, data);
      if torn && repair {
        var ok := TruncateTornFinal(data);
        if !ok { return Err(StateCorrupt); }
      }
      return Ok((recs, maxSeq));
    }

    /** truncateTornFinal, on the bytes just read. */
    method TruncateTornFinal(data: string) returns (ok: bool)
      requires disk.Valid() && disk.Bytes() == data
      modifies disk
      ensures disk.Valid() && disk.seen <= old(disk.seen) + {Complete(data)}
      ensures disk.Bytes() == data || disk.Bytes() == Complete(data)
      ensures ok ==> disk.Bytes() == Complete(data)
    {
      ok := disk.WriteAtomic(Complete(data));
    }

    /** compact: the values of the fold, sorted, encoded and swapped in. */
    method Compact(folded: Latest) returns (ok: bool)
      requires disk.Valid() && codec.Valid()
      requires forall id | id in folded :: folded[id].id == id
      modifies disk
      ensures disk.Valid()
      ensures forall d | d in disk.seen :: d in old(disk.seen) || IsSnapshot(folded, Records(codec, d))
      ensures ok ==> IsSnapshot(folded, Records(codec, disk.Bytes()))
    {
      var snap := Snapshot(folded);
      var buf := EncodeAll(codec, snap);
      EncodedReadsBack(codec, snap);
      ok := disk.WriteAtomic(buf);
    }

    /** appendLine and the maybeCompact that follows it, for a record stamped after `recs`. */
    method AddLine(recs: seq<Record>, r: Record) returns (res: Result<()>)
      requires disk.Valid() && codec.Valid()
      requires recs == Records(codec, disk.Bytes()) && TrimSpace(Tail(disk.Bytes())) == ""
      requires r.seqNo == Next(MaxSeq(recs))
      modifies disk
      ensures disk.Valid()
      ensures forall d | d in disk.seen :: d in old(disk.seen) || Safe(codec, recs, r, d)
      ensures res.Err? ==> res.error == StateCorrupt
      ensures res.Ok? ==> FoldOf(codec, disk.Bytes()) == Put(Fold(recs), r)
    {
      ghost var before := disk.Bytes();
      var ok := disk.AppendBytes(codec.Line(r));
      assert forall d | d in disk.seen :: d in old(disk.seen) || Progress(recs, r, Records(codec, d)) by {
        forall d | Prefixed(before, codec.Line(r), d)
          ensures Progress(recs, r, Records(codec, d))
        {
          WrittenLine(codec, before, r, d);
        }
      }
      if ok {
        WholeLineIsVisible(codec, before, r);
        ok := MaybeCompact(recs, r);
      }
      forall d | d in disk.seen && d !in old(disk.seen)
        ensures Safe(codec, recs, r, d)
      {
        ProgressIsAtomic(codec, recs, r, d);
      }
      if ok {
        FoldSnoc(recs, r);
        if Records(codec, disk.Bytes()) != recs + [r] {
          SnapshotKeepsFold(recs + [r], Records(codec, disk.Bytes()));
        }
      }
      return if ok then Ok(()) else Err(StateCorrupt);
    }

    /** maybeCompact, after the line for `latest` was written. */
    method MaybeCompact(preRecs: seq<Record>, latest: Record) returns (ok: bool)
      requires disk.Valid() && codec.Valid()
      requires Records(codec, disk.Bytes()) == preRecs + [latest]
      modifies disk
      ensures disk.Valid()
      ensures forall d | d in disk.seen ::
        d in old(disk.seen) || IsSnapshot(Fold(preRecs + [latest]), Records(codec, d))
      ensures ok ==>
        disk.Bytes() == old(disk.Bytes()) || IsSnapshot(Fold(preRecs + [latest]), Records(codec, disk.Bytes()))
      ensures ok && Superseded(preRecs + [latest]) >= SUPERSEDED_THRESHOLD ==>
        IsSnapshot(Fold(preRecs + [latest]), Records(codec, disk.Bytes()))
      ensures Superseded(preRecs + [latest]) < SUPERSEDED_THRESHOLD && |old(disk.Bytes())| < SIZE_THRESHOLD ==>
        ok && disk.Bytes() == old(disk.Bytes()) && disk.seen == old(disk.seen)
    {
      var all := preRecs + [latest];
      var folded := FoldLatest(all);
      forall id | id in folded
        ensures folded[id].id == id
      {
        FoldSeqBound(all, id);
      }
      if |all| - |folded| < SUPERSEDED_THRESHOLD {
        if * { return true; }  // the stat fails: compaction waits
        if |disk.Bytes()| < SIZE_THRESHOLD { return true; }
      }
      ok := Compact(folded);
    }

    /** Append. `freshId` is what newULID yields (None when the entropy source fails), `now` the clock.

        Whatever fails and wherever it stops, a later reader sees the old fold or the old fold with
        exactly the stamped record; success means the latter. */
    method Append(rec: RecordBox, freshId: Option<string>, now: string) returns (res: Result<()>)
      requires disk.Valid() && codec.Valid()
      modifies disk, rec
      ensures disk.Valid()
      ensures AllSafe(codec, Records(codec, old(disk.Bytes())), rec.r, disk.seen)
      ensures res.Ok? ==> FoldOf(codec, disk.Bytes()) == Put(FoldOf(codec, old(disk.Bytes())), rec.r)
      ensures res.Ok? ==> Stamped(old(rec.r), freshId, now, MaxSeq(Records(codec, old(disk.Bytes()))), rec.r)
      ensures old(rec.r.id) == "" && freshId.None? ==> res.Err?
    {
      ghost var rs := Records(codec, disk.Bytes());
      disk.Watch();
      RepairKeepsRecords(codec, disk.Bytes());
      UntouchedIsSafe(codec, rs, rec.r, disk.seen);
      if * { return Err(LockTimeout); }
      var read := ReadAll(true);
      UntouchedIsSafe(codec, rs, rec.r, disk.seen);
      if read.Err? { return Err(read.error); }
      var (recs, maxSeq) := read.value;
      var stamped := Stamp(rec, freshId, now, maxSeq);
      UntouchedIsSafe(codec, rs, rec.r, disk.seen);
      if !stamped { return Err(StateCorrupt); }
      res := AddLine(recs, rec.r);
    }

    /** Append's assignments to the caller's record. */
    static method Stamp(rec: RecordBox, freshId: Option<string>, now: string, maxSeq: u64) returns (ok: bool)
      modifies rec
      ensures !ok <==> old(rec.r.id) == "" && freshId.None?
      ensures ok ==> Stamped(old(rec.r), freshId, now, maxSeq, rec.r)
    {
      if rec.r.v == 0 { rec.r := rec.r.(v := 1); }
      if rec.r.id == "" {
        if freshId.None? { return false; }
        rec.r := rec.r.(id := freshId.value);
      }
      if rec.r.ts == "" { rec.r := rec.r.(ts := now); }
      rec.r := rec.r.(seqNo := Next(maxSeq));
      return true;
    }

    /** The line SetState derives from the prior latest record. */
    static function Transition(prior: Record, m: StateMutation, maxSeq: u64, now: string): Record {
      Apply(m, prior).(seqNo := Next(maxSeq), ts := now)
    }

    /** SetState. An unknown id is NotFound and adds nothing; otherwise as Append, for the prior
        latest record with the mutation applied. */
    method SetState(id: string, m: StateMutation, now: string) returns (res: Result<()>)
      requires disk.Valid() && codec.Valid()
      modifies disk
      ensures disk.Valid()
      ensures id !in FoldOf(codec, old(disk.Bytes())) || id == "" ==>
        res.Err? && Untouched(codec, Records(codec, old(disk.Bytes())), disk.seen)
      ensures res == Err(NotFound) ==> id !in FoldOf(codec, old(disk.Bytes()))
      ensures id in FoldOf(codec, old(disk.Bytes())) ==>
        var rs := Records(codec, old(disk.Bytes()));
        var next := Transition(Fold(rs)[id], m, MaxSeq(rs), now);
        && AllSafe(codec, rs, next, disk.seen)
        && (res.Ok? ==> FoldOf(codec, disk.Bytes()) == Put(Fold(rs), next))
      ensures res.Ok? ==> Moved(Records(codec, old(disk.Bytes())), FoldOf(codec, disk.Bytes()), id, m, now)
    {
      ghost var rs := Records(codec, disk.Bytes());
      disk.Watch();
      if id == "" { return Err(StateCorrupt); }
      RepairKeepsRecords(codec, disk.Bytes());
      if * { return Err(LockTimeout); }
      var read := ReadAll(true);
      assert Untouched(codec, rs, disk.seen);
      if id in Fold(rs) {
        UntouchedIsSafe(codec, rs, Transition(Fold(rs)[id], m, MaxSeq(rs), now), disk.seen);
      }
      if read.Err? { return Err(read.error); }
      res := MoveRecord(read.value.0, read.value.1, id, m, now);
    }

    /** SetState once the file is read. */
    method MoveRecord(recs: seq<Record>, maxSeq: u64, id: string, m: StateMutation, now: string)
        returns (res: Result<()>)
      requires disk.Valid() && codec.Valid()
      requires recs == Records(codec, disk.Bytes()) && maxSeq == MaxSeq(recs) && TrimSpace(Tail(disk.Bytes())) == ""
      requires Untouched(codec, recs, disk.seen)
      modifies disk
      ensures disk.Valid()
      ensures id !in Fold(recs) ==> res == Err(NotFound) && disk.seen == old(disk.seen)
      ensures id in Fold(recs) ==>
        var next := Transition(Fold(recs)[id], m, maxSeq, now);
        && res != Err(NotFound)
        && AllSafe(codec, recs, next, disk.seen)
        && (res.Ok? ==> FoldOf(codec, disk.Bytes()) == Put(Fold(recs), next))
      ensures res.Ok? ==> Moved(recs, FoldOf(codec, disk.Bytes()), id, m, now)
    {
      var latest := FoldLatest(recs);
      if id !in latest { return Err(NotFound); }
      var next := Transition(latest[id], m, maxSeq, now);
      UntouchedIsSafe(codec, recs, next, disk.seen);
      TransitionMoves(recs, id, m, now);
      ghost var before := disk.seen;
      res := AddLine(recs, next);
      SafeTogether(codec, recs, next, before, disk.seen);
    }
  }

  /** The fold after a transition of `id`: every other record is as it was, and the record of `id` has the next seq,
      the time of the call and what the mutation carries. Where the seq would wrap around, a reader keeps the old
      record instead, unless that has seq 0. */
  ghost predicate Moved(rs: seq<Record>, after: Latest, id: string, m: StateMutation, now: string) {
    && id in Fold(rs) && after.Keys == Fold(rs).Keys
    && (forall x | x in after && x != id :: after[x] == Fold(rs)[x])
    && if MaxSeq(rs) < U64 - 1 || Fold(rs)[id].seqNo == 0 then
         && after[id].seqNo == (if MaxSeq(rs) < U64 - 1 then MaxSeq(rs) + 1 else 0)
         && after[id].ts == now && Carries(m, Fold(rs)[id], after[id])
       else after[id] == Fold(rs)[id]
  }

  lemma TransitionMoves(rs: seq<Record>, id: string, m: StateMutation, now: string)
    requires id in Fold(rs)
    ensures Moved(rs, Put(Fold(rs), Store.Transition(Fold(rs)[id], m, MaxSeq(rs), now)), id, m, now)
  {
    FoldSeqBound(rs, id);
    NextIs(MaxSeq(rs));
    var next := TransitionFields(Fold(rs)[id], m, MaxSeq(rs), now);
    PutOne(Fold(rs), next, MaxSeq(rs));
  }

  lemma NextIs(n: u64)
    ensures Next(n) == if n < U64 - 1 then n + 1 else 0
  {}

  lemma TransitionFields(r: Record, m: StateMutation, maxSeq: u64, now: string) returns (next: Record)
    ensures next == Store.Transition(r, m, maxSeq, now)
    ensures Carries(m, r, next) && next.id == r.id && next.seqNo == Next(maxSeq) && next.ts == now
  {
    ApplyCarries(m, r);
    next := Store.Transition(r, m, maxSeq, now);
  }

  lemma PutOne(latest: Latest, next: Record, maxSeq: u64)
    requires next.id in latest && latest[next.id].seqNo <= maxSeq
    requires next.seqNo == if maxSeq < U64 - 1 then maxSeq + 1 else 0
    ensures Put(latest, next).Keys == latest.Keys
    ensures forall x | x in latest && x != next.id :: Put(latest, next)[x] == latest[x]
    ensures Put(latest, next)[next.id] ==
      if maxSeq < U64 - 1 || latest[next.id].seqNo == 0 then next else latest[next.id]
  {}

  /** Lines that a later line of the same id stands for. */
  function Superseded(rs: seq<Record>): int {
    |rs| - |Fold(rs)|
  }

  /** How Append fills in the caller's record: version, id and timestamp only where they are missing,
      the seq always. */
  ghost predicate Stamped(r: Record, freshId: Option<string>, now: string, maxSeq: u64, r': Record) {
    && r'.v == (if r.v == 0 then 1 else r.v)
    && (if r.id == "" then freshId == Some(r'.id) else r'.id == r.id)
    && r'.ts == (if r.ts == "" then now else r.ts)
    && r'.seqNo == Next(maxSeq)
    && r' == r.(v := r'.v, id := r'.id, ts := r'.ts, seqNo := r'.seqNo)
  }

  /** The loop of readAll over the segments of the file. `torn` reports a final segment that is not
      blank and has no newline. */
  method ScanLines(c: Codec, data: string) returns (recs: seq<Record>, maxSeq: u64, torn: bool)
    ensures recs == Records(c, data) && maxSeq == MaxSeq(recs)
    ensures torn <==> TrimSpace(Tail(data)) != ""
  {
    recs, maxSeq, torn := [], 0, false;
    if data == "" { return; }
    var lines, hasTrailingNL := Split(data), Terminated(data);
    ghost var at := 0;
    var i := 0;
    while i < |lines|
      invariant 0 <= i <= |lines|
      invariant i < |lines| ==> AtSegment(c, data, recs, lines[i..], at) && !torn
      invariant maxSeq == MaxSeq(recs)
      invariant i == |lines| ==> recs == Records(c, data) && (torn <==> TrimSpace(Tail(data)) != "")
    {
      var trimmed, isFinal := TrimSpace(lines[i]), i == |lines| - 1;
      assert lines[i..][0] == lines[i] && lines[i..][1..] == lines[i + 1..];
      ghost var parsed := ParseLine(c, lines[i]);
      at := NextSegment(c, data, recs, lines[i..], at);
      assert parsed == [] ==> recs + parsed == recs;
      i := i + 1;
      if isFinal && !hasTrailingNL && trimmed != "" {
        torn := true;
        continue;
      }
      if trimmed == "" { continue; }
      var r := c.dec(trimmed);
      if r.None? { continue; }
      MaxSeqSnoc(recs, r.value);
      recs := recs + [r.value];
      if r.value.seqNo > maxSeq { maxSeq := r.value.seqNo; }
    }
  }

  /** `lines` are the segments of `data` from `at` on; `recs` holds the records before them. */
  ghost predicate AtSegment(c: Codec, data: string, recs: seq<Record>, lines: seq<string>, at: nat) {
    && at <= |data| && (at == 0 || data[at - 1] == '\n')
    && lines == Split(data[at..])
    && Records(c, data) == recs + Records(c, data[at..])
  }

  /** One turn of the loop: a segment before the last is a line; the last is the tail. */
  lemma NextSegment(c: Codec, data: string, recs: seq<Record>, lines: seq<string>, at: nat) returns (next: nat)
    requires lines != [] && AtSegment(c, data, recs, lines, at)
    ensures |lines| > 1 ==> AtSegment(c, data, recs + ParseLine(c, lines[0]), lines[1..], next)
    ensures |lines| == 1 ==>
      recs == Records(c, data) && lines[0] == Tail(data) && (Terminated(data) <==> lines[0] == "")
  {
    if |lines| == 1 {
      next := at;
      LastSegment(c, data, recs, lines, at);
    } else {
      next := at + |lines[0]| + 1;
      InnerSegment(c, data, recs, lines, at);
    }
  }

  lemma InnerSegment(c: Codec, data: string, recs: seq<Record>, lines: seq<string>, at: nat)
    requires |lines| > 1 && AtSegment(c, data, recs, lines, at)
    ensures AtSegment(c, data, recs + ParseLine(c, lines[0]), lines[1..], at + |lines[0]| + 1)
  {
    var rest, next := data[at..], at + |lines[0]| + 1;
    FirstSegment(c, rest, lines);
    assert data[next..] == rest[|lines[0]| + 1..];
    assert data[next - 1] == rest[|lines[0]|];
    Associates(recs, ParseLine(c, lines[0]), Records(c, data[next..]));
  }

  lemma LastSegment(c: Codec, data: string, recs: seq<Record>, lines: seq<string>, at: nat)
    requires |lines| == 1 && AtSegment(c, data, recs, lines, at)
    ensures recs == Records(c, data) && lines[0] == Tail(data) && (Terminated(data) <==> lines[0] == "")
  {
    FirstSegment(c, data[at..], lines);
    assert recs + [] == recs;
    TailAt(data, at);
    TailHasNoNewline(data);
  }

  lemma FirstSegment(c: Codec, rest: string, lines: seq<string>)
    requires lines == Split(rest)
    ensures |lines| == 1 ==> '\n' !in rest && lines[0] == rest && Records(c, rest) == []
    ensures |lines| > 1 ==>
      && |lines[0]| < |rest| && rest[|lines[0]|] == '\n' && lines[1..] == Split(rest[|lines[0]| + 1..])
      && Records(c, rest) == ParseLine(c, lines[0]) + Records(c, rest[|lines[0]| + 1..])
  {}

  // --- ranging over a Go map, and the exchange sort of compact ---

  /** `order` visits the values of `m` once each. */
  ghost predicate Visits(m: Latest, order: seq<Record>) {
    && (forall i | 0 <= i < |order| :: order[i].id in m && m[order[i].id] == order[i])
    && (forall id | id in m :: m[id] in order)
    && (forall i, j | 0 <= i < j < |order| :: order[i].id != order[j].id)
  }

  /** The values of a map in the arbitrary order of a Go range loop. */
  method Values(m: Latest) returns (order: seq<Record>)
    requires forall id | id in m :: m[id].id == id
    ensures Visits(m, order)
  {
    order := [];
    var todo := m.Keys;
    while todo != {}
      invariant todo <= m.Keys
      invariant forall i | 0 <= i < |order| :: order[i].id in m.Keys - todo && m[order[i].id] == order[i]
      invariant forall id | id in m.Keys - todo :: m[id] in order
      invariant forall i, j | 0 <= i < j < |order| :: order[i].id != order[j].id
      decreases todo
    {
      var id :| id in todo;
      order := order + [m[id]];
      todo := todo - {id};
    }
  }

  method Swap(a: array<Record>, i: nat, j: nat)
    requires i < a.Length && j < a.Length
    modifies a
    ensures a[i] == old(a[j]) && a[j] == old(a[i])
    ensures forall k | 0 <= k < a.Length && k != i && k != j :: a[k] == old(a[k])
    ensures multiset(a[..]) == multiset(old(a[..]))
  {
    a[i], a[j] := a[j], a[i];
  }

  /** The exchange sort of compact. */
  method SortBySeq(snap: array<Record>)
    modifies snap
    ensures multiset(snap[..]) == multiset(old(snap[..]))
    ensures forall i, j | 0 <= i < j < snap.Length :: snap[i].seqNo <= snap[j].seqNo
  {
    for i := 0 to snap.Length
      invariant multiset(snap[..]) == multiset(old(snap[..]))
      invariant forall k, l | 0 <= k < i && k < l < snap.Length :: snap[k].seqNo <= snap[l].seqNo
    {
      for j := i + 1 to snap.Length
        invariant multiset(snap[..]) == multiset(old(snap[..]))
        invariant forall k, l | 0 <= k < i && k < l < snap.Length :: snap[k].seqNo <= snap[l].seqNo
        invariant forall l | i < l < j :: snap[i].seqNo <= snap[l].seqNo
      {
        if snap[j].seqNo < snap[i].seqNo {
          Swap(snap, i, j);
        }
      }
    }
  }

  /** The slice compact builds from the folded map. */
  method Snapshot(folded: Latest) returns (snap: seq<Record>)
    requires forall id | id in folded :: folded[id].id == id
    ensures IsSnapshot(folded, snap)
  {
    var order := Values(folded);
    var a := new Record[|order|](i requires 0 <= i < |order| => order[i]);
    assert a[..] == order;
    SortBySeq(a);
    SortedValues(folded, order, a[..]);
    snap := a[..];
  }

  method EncodeAll(c: Codec, snap: seq<Record>) returns (buf: string)
    ensures buf == Encoded(c, snap)
  {
    buf := "";
    for i := 0 to |snap|
      invariant buf == Encoded(c, snap[..i])
    {
      assert snap[..i + 1][..i] == snap[..i];
      buf := buf + c.Line(snap[i]);
    }
    assert snap[..|snap|] == snap;
  }

  lemma SortedValues(m: Latest, order: seq<Record>, sorted: seq<Record>)
    requires Visits(m, order) && multiset(sorted) == multiset(order)
    requires forall i, j | 0 <= i < j < |sorted| :: sorted[i].seqNo <= sorted[j].seqNo
    ensures IsSnapshot(m, sorted)
  {
    forall i | 0 <= i < |sorted|
      ensures sorted[i] in order
    {
      assert sorted[i] in multiset(sorted);
    }
    forall r | r in order
      ensures r in sorted
    {
      assert r in multiset(order);
    }
    forall i, j | 0 <= i < j < |sorted|
      ensures sorted[i].id != sorted[j].id
    {
      if sorted[i].id == sorted[j].id {
        assert sorted[i] == sorted[j];
        TwiceInSorted(sorted, i, j);
        OnceInOrder(order, sorted[i]);
      }
    }
  }

  lemma TwiceInSorted(s: seq<Record>, i: nat, j: nat)
    requires i < j < |s| && s[i] == s[j]
    ensures multiset(s)[s[i]] >= 2
  {
    assert s == s[..j] + s[j..];
    assert s[..j][i] == s[i] && s[j..][0] == s[i];
    assert s[i] in multiset(s[..j]) && s[i] in multiset(s[j..]);
  }

  lemma {:induction false} OnceInOrder(s: seq<Record>, r: Record)
    requires forall i, j | 0 <= i < j < |s| :: s[i].id != s[j].id
    ensures multiset(s)[r] <= 1
  {
    if s != [] {
      var init := s[..|s| - 1];
      assert s == init + [s[|s| - 1]];
      OnceInOrder(init, r);
      assert s[|s| - 1] !in init;
    }
  }
}
