/** internal/journal/record.go: the journal line schema, and the fold of lines to the latest
    record per id (internal/journal/store.go foldLatest). */
module JournalRecord {
  import opened Text

  const U64 := 0x1_0000_0000_0000_0000

  type u64 = n: nat | n < U64

  /** Go's uint64 `n + 1`. */
  function Next(n: u64): u64 {
    (n + 1) % U64
  }

  // Status is a Go string; these are the values the journal itself compares with.
  const CONFIRMED := "confirmed"
  const REVERTED := "reverted"
  const REPLACED := "replaced"
  const FAILED := "failed"

  predicate IsTerminal(status: string) {
    status == CONFIRMED || status == REVERTED || status == REPLACED || status == FAILED
  }

  predicate ConsumesNonce(status: string) {
    status != FAILED
  }

  /** Of the four settled statuses only "failed" gives its nonce back, and no other status does. */
  lemma StatusesAre(status: string)
    ensures IsTerminal(status) <==> status in ["confirmed", "reverted", "replaced", "failed"]
    ensures !ConsumesNonce(status) <==> status == "failed"
    ensures !ConsumesNonce(status) ==> IsTerminal(status)
  {}

  datatype Receipt = Receipt(blockNumber: u64, blockHash: string, gasUsed: u64, price: string, status: u64)

  /** One journal line. `rest` stands for the fields the journal never reads. */
  datatype Record = Record(
    v: int, id: string, seqNo: u64, ts: string, chainId: u64, status: string, from: string, nonce: u64,
    txHash: string, reservationId: string, replacing: Option<string>, replacedBy: Option<string>,
    receipt: Option<Receipt>, error: Option<string>, rest: string)

  datatype StateMutation = StateMutation(
    status: string, txHash: Option<string>, receipt: Option<Receipt>, replacedBy: Option<string>,
    replacing: Option<string>, error: Option<string>, reservationId: Option<string>)

  function Or<T>(o: Option<T>, default: T): T {
    if o.Some? then o.value else default
  }

  /** StateMutation.applyTo: an empty status and absent fields leave the record's own. */
  function Apply(m: StateMutation, r: Record): (r': Record)
    ensures r'.id == r.id && r'.seqNo == r.seqNo && r'.from == r.from && r'.nonce == r.nonce
    ensures r'.v == r.v && r'.ts == r.ts && r'.chainId == r.chainId && r'.rest == r.rest
  {
    r.(status := if m.status == "" then r.status else m.status,
    txHash := Or(m.txHash, r.txHash),
    receipt := if m.receipt.Some? then m.receipt else r.receipt,
    replacedBy := if m.replacedBy.Some? then m.replacedBy else r.replacedBy,
    replacing := if m.replacing.Some? then m.replacing else r.replacing,
    error := if m.error.Some? then m.error else r.error,
    reservationId := Or(m.reservationId, r.reservationId))
  }

  /** `r'` is `r` with what the mutation carries, each field in its own place. */
  predicate Carries(m: StateMutation, r: Record, r': Record) {
    && (m.status != "" ==> r'.status == m.status) && (m.status == "" ==> r'.status == r.status)
    && (m.txHash.Some? ==> r'.txHash == m.txHash.value) && (m.txHash.None? ==> r'.txHash == r.txHash)
    && (m.receipt.Some? ==> r'.receipt == m.receipt) && (m.receipt.None? ==> r'.receipt == r.receipt)
    && (m.replacedBy.Some? ==> r'.replacedBy == m.replacedBy) && (m.replacedBy.None? ==> r'.replacedBy == r.replacedBy)
    && (m.replacing.Some? ==> r'.replacing == m.replacing) && (m.replacing.None? ==> r'.replacing == r.replacing)
    && (m.error.Some? ==> r'.error == m.error) && (m.error.None? ==> r'.error == r.error)
    && (m.reservationId.Some? ==> r'.reservationId == m.reservationId.value)
    && (m.reservationId.None? ==> r'.reservationId == r.reservationId)
    && r'.v == r.v && r'.id == r.id && r'.chainId == r.chainId && r'.from == r.from && r'.nonce == r.nonce
    && r'.rest == r.rest
  }

  lemma ApplyCarries(m: StateMutation, r: Record)
    ensures Carries(m, r, Apply(m, r))
  {}

  /** Applying a mutation again changes nothing more. */
  lemma ApplyTwice(m: StateMutation, r: Record)
    ensures Apply(m, Apply(m, r)) == Apply(m, r)
  {}

  // --- the fold ---

  type Latest = map<string, Record>

  /** One turn of foldLatest's loop. */
  function Put(m: Latest, r: Record): Latest {
    if r.id in m && r.seqNo < m[r.id].seqNo then m else m[r.id := r]
  }

  function Fold(rs: seq<Record>): Latest {
    if rs == [] then map[] else Put(Fold(rs[..|rs| - 1]), rs[|rs| - 1])
  }

  method FoldLatest(rs: seq<Record>) returns (latest: Latest)
    ensures latest == Fold(rs)
  {
    latest := map[];
    for i := 0 to |rs|
      invariant latest == Fold(rs[..i])
    {
      assert rs[..i + 1][..i] == rs[..i];
      if rs[i].id !in latest || rs[i].seqNo >= latest[rs[i].id].seqNo {
        latest := latest[rs[i].id := rs[i]];
      }
    }
    assert rs[..|rs|] == rs;
  }

  lemma FoldSnoc(rs: seq<Record>, r: Record)
    ensures Fold(rs + [r]) == Put(Fold(rs), r)
  {
    assert (rs + [r])[..|rs|] == rs;
  }

  /** `k` is where the fold takes its record for rs[k].id from: no line of that id has a higher seq,
      and no later one an equal seq. */
  predicate IsLatest(rs: seq<Record>, k: nat)
    requires k < |rs|
  {
    forall j | 0 <= j < |rs| && rs[j].id == rs[k].id ::
      rs[j].seqNo <= rs[k].seqNo && (j > k ==> rs[j].seqNo < rs[k].seqNo)
  }

  /** The fold holds exactly the ids of the file, each with its latest line. */
  lemma {:induction false} FoldIsLatest(rs: seq<Record>, id: string)
    ensures id in Fold(rs) <==> exists j :: 0 <= j < |rs| && rs[j].id == id
    ensures id in Fold(rs) ==> exists k :: 0 <= k < |rs| && rs[k].id == id && rs[k] == Fold(rs)[id] && IsLatest(rs, k)
  {
    if rs != [] {
      var init, r := rs[..|rs| - 1], rs[|rs| - 1];
      FoldIsLatest(init, id);
      assert forall j | 0 <= j < |init| :: rs[j] == init[j];
      if id == r.id {
        assert rs[|rs| - 1].id == id;
        if Fold(rs)[id] == r && (id !in Fold(init) || Fold(init)[id].seqNo <= r.seqNo) {
          assert IsLatest(rs, |rs| - 1);
        } else {
          var k :| 0 <= k < |init| && init[k].id == id && init[k] == Fold(init)[id] && IsLatest(init, k);
          assert IsLatest(rs, k) && rs[k] == Fold(rs)[id];
        }
      } else if id in Fold(init) {
        var k :| 0 <= k < |init| && init[k].id == id && init[k] == Fold(init)[id] && IsLatest(init, k);
        assert IsLatest(rs, k) && rs[k] == Fold(rs)[id];
      }
    }
  }

  /** The running maximum readAll keeps. */
  function MaxSeq(rs: seq<Record>): u64 {
    if rs == [] then 0
    else
      var m := MaxSeq(rs[..|rs| - 1]);
      if rs[|rs| - 1].seqNo > m then rs[|rs| - 1].seqNo else m
  }

  lemma {:induction false} MaxSeqBounds(rs: seq<Record>)
    ensures forall j | 0 <= j < |rs| :: rs[j].seqNo <= MaxSeq(rs)
    ensures rs != [] ==> exists k :: 0 <= k < |rs| && rs[k].seqNo == MaxSeq(rs)
  {
    if rs != [] {
      var init := rs[..|rs| - 1];
      MaxSeqBounds(init);
      assert forall j | 0 <= j < |init| :: rs[j] == init[j];
      if MaxSeq(rs) == rs[|rs| - 1].seqNo {
      } else if init != [] {
        var k :| 0 <= k < |init| && init[k].seqNo == MaxSeq(init);
        assert rs[k].seqNo == MaxSeq(rs);
      }
    }
  }

  lemma MaxSeqSnoc(rs: seq<Record>, r: Record)
    ensures MaxSeq(rs + [r]) == if r.seqNo > MaxSeq(rs) then r.seqNo else MaxSeq(rs)
  {
    assert (rs + [r])[..|rs|] == rs;
  }

  /** No folded record is newer than the newest line. */
  lemma FoldSeqBound(rs: seq<Record>, id: string)
    requires id in Fold(rs)
    ensures Fold(rs)[id].id == id && Fold(rs)[id].seqNo <= MaxSeq(rs)
  {
    FoldIsLatest(rs, id);
    MaxSeqBounds(rs);
  }

  /** A line stamped with the next seq shows up in the fold exactly when the uint64 counter did not
      wrap onto a folded record of the same id with a positive seq. */
  lemma NextLineVisible(rs: seq<Record>, r: Record)
    requires r.seqNo == Next(MaxSeq(rs))
    ensures r.id in Fold(rs + [r])
    ensures Fold(rs + [r]) == Fold(rs)[r.id := r] <==>
      (MaxSeq(rs) < U64 - 1 || r.id !in Fold(rs) || Fold(rs)[r.id].seqNo == 0)
  {
    FoldSnoc(rs, r);
    if r.id in Fold(rs) {
      FoldSeqBound(rs, r.id);
    }
  }

  /** File order is seq order. */
  predicate Increasing(rs: seq<Record>) {
    forall i, j | 0 <= i < j < |rs| :: rs[i].seqNo < rs[j].seqNo
  }

  lemma IncreasingSnoc(rs: seq<Record>, r: Record)
    requires Increasing(rs) && r.seqNo == Next(MaxSeq(rs)) && MaxSeq(rs) < U64 - 1
    ensures Increasing(rs + [r])
  {
    MaxSeqBounds(rs);
  }

  /** The next seq is above every line's, and the file stays in seq order, exactly as long as the uint64 counter
      does not wrap. */
  lemma NextSeqIsNewestIff(rs: seq<Record>, r: Record)
    requires Increasing(rs) && rs != [] && r.seqNo == Next(MaxSeq(rs))
    ensures Increasing(rs + [r]) <==> MaxSeq(rs) < U64 - 1
    ensures (forall x | x in rs :: x.seqNo < r.seqNo) <==> MaxSeq(rs) < U64 - 1
  {
    MaxSeqBounds(rs);
    var k :| 0 <= k < |rs| && rs[k].seqNo == MaxSeq(rs);
    assert (rs + [r])[k] == rs[k] && (rs + [r])[|rs|] == r && rs[k] in rs;
  }

  // --- snapshots ---

  /** `snap` lists the values of `m` once each, by ascending seq. */
  predicate IsSnapshot(m: Latest, snap: seq<Record>) {
    && (forall i | 0 <= i < |snap| :: snap[i].id in m && m[snap[i].id] == snap[i])
    && (forall id | id in m :: m[id] in snap)
    && (forall i, j | 0 <= i < j < |snap| :: snap[i].id != snap[j].id)
    && (forall i, j | 0 <= i < j < |snap| :: snap[i].seqNo <= snap[j].seqNo)
  }

  /** Fold of lines with distinct ids: each id keeps its one line. */
  lemma {:induction false} FoldDistinct(rs: seq<Record>)
    requires forall i, j | 0 <= i < j < |rs| :: rs[i].id != rs[j].id
    ensures forall id :: id in Fold(rs) <==> exists i :: 0 <= i < |rs| && rs[i].id == id
    ensures forall i | 0 <= i < |rs| :: Fold(rs)[rs[i].id] == rs[i]
  {
    forall id
      ensures id in Fold(rs) <==> exists i :: 0 <= i < |rs| && rs[i].id == id
    {
      FoldIsLatest(rs, id);
    }
    forall i | 0 <= i < |rs|
      ensures Fold(rs)[rs[i].id] == rs[i]
    {
      FoldIsLatest(rs, rs[i].id);
    }
  }

  /** Folding a snapshot of a fold gives the fold back, under the same highest seq and without
      disturbing the file order of seqs. */
  lemma SnapshotKeepsFold(rs: seq<Record>, snap: seq<Record>)
    requires IsSnapshot(Fold(rs), snap)
    ensures Fold(snap) == Fold(rs)
    ensures MaxSeq(snap) == MaxSeq(rs)
    ensures Increasing(rs) ==> Increasing(snap)
  {
    SnapshotFold(rs, snap);
    SnapshotMaxSeq(rs, snap);
    if Increasing(rs) {
      forall i, j | 0 <= i < j < |snap|
        ensures snap[i].seqNo < snap[j].seqNo
      {
        FoldIsLatest(rs, snap[i].id);
        FoldIsLatest(rs, snap[j].id);
      }
    }
  }

  lemma SnapshotFold(rs: seq<Record>, snap: seq<Record>)
    requires IsSnapshot(Fold(rs), snap)
    ensures Fold(snap) == Fold(rs)
  {
    FoldDistinct(snap);
    forall id
      ensures id in Fold(snap) <==> id in Fold(rs)
      ensures id in Fold(rs) ==> Fold(snap)[id] == Fold(rs)[id]
    {
      FoldIsLatest(rs, id);
      if id in Fold(rs) {
        SnapshotHolds(Fold(rs), snap, id);
      }
    }
  }

  lemma SnapshotHolds(m: Latest, snap: seq<Record>, id: string)
    requires IsSnapshot(m, snap) && id in m && m[id].id == id && (forall i | 0 <= i < |snap| :: snap[i].id in Fold(snap))
    requires forall i | 0 <= i < |snap| :: Fold(snap)[snap[i].id] == snap[i]
    ensures id in Fold(snap) && Fold(snap)[id] == m[id]
  {
    var i :| 0 <= i < |snap| && snap[i] == m[id];
  }

  lemma SnapshotMaxSeq(rs: seq<Record>, snap: seq<Record>)
    requires IsSnapshot(Fold(rs), snap)
    ensures MaxSeq(snap) == MaxSeq(rs)
  {
    MaxSeqBounds(rs);
    MaxSeqBounds(snap);
    if rs != [] {
      var k :| 0 <= k < |rs| && rs[k].seqNo == MaxSeq(rs);
      FoldIsLatest(rs, rs[k].id);
      var i :| 0 <= i < |snap| && snap[i] == Fold(rs)[rs[k].id];
      assert snap[i].seqNo >= MaxSeq(rs);
    }
    if snap != [] {
      var i :| 0 <= i < |snap| && snap[i].seqNo == MaxSeq(snap);
      FoldSeqBound(rs, snap[i].id);
    }
  }
}
