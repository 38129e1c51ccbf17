/** The five queries of internal/journal/store.go. Each reads under the shared lock, folds, and ranges
    over the folded map in Go's arbitrary order; when seqs are distinct that order cannot show. */
module JournalQueries {
  import opened Text
  import opened JournalRecord
  import opened JournalFile
  import opened JournalStore

  /** Store.read: the fold handed to a query. A torn tail is dropped in memory only. */
  method Read(s: Store) returns (res: Result<Latest>)
    requires s.disk.Valid()
    ensures res.Ok? ==> res.value == FoldOf(s.codec, s.disk.Bytes())
    ensures res.Err? ==> res.error != NotFound
  {
    if * { return Err(LockTimeout); }
    var read := s.ReadAll(false);
    if read.Err? { return Err(read.error); }
    var latest := FoldLatest(read.value.0);
    return Ok(latest);
  }

  /** `found` is a matching record of highest seq, None when nothing matches. */
  predicate IsBest(m: Latest, p: Record -> bool, found: Option<Record>) {
    match found
    case None => forall id | id in m :: !p(m[id])
    case Some(r) => r.id in m && m[r.id] == r && p(r) && forall id | id in m && p(m[id]) :: m[id].seqNo <= r.seqNo
  }

  /** `out` lists the matching records once each, newest first. */
  predicate IsListing(m: Latest, p: Record -> bool, out: seq<Record>) {
    && (forall r | r in out :: r.id in m && m[r.id] == r && p(r))
    && (forall id | id in m && p(m[id]) :: m[id] in out)
    && DistinctIds(out) && Descending(out)
  }

  predicate DistinctIds(rs: seq<Record>) {
    forall i, j | 0 <= i < j < |rs| :: rs[i].id != rs[j].id
  }

  predicate Descending(rs: seq<Record>) {
    forall i, j | 0 <= i < j < |rs| :: rs[i].seqNo >= rs[j].seqNo
  }

  predicate KeyedById(m: Latest) {
    forall id | id in m :: m[id].id == id
  }

  lemma FoldKeyedById(rs: seq<Record>)
    ensures KeyedById(Fold(rs))
  {
    forall id | id in Fold(rs)
      ensures Fold(rs)[id].id == id
    {
      FoldSeqBound(rs, id);
    }
  }

  /** The loop shared by ByReservation and ByHash. */
  method Best(m: Latest, p: Record -> bool) returns (found: Option<Record>)
    requires KeyedById(m)
    ensures IsBest(m, p, found)
  {
    found := None;
    var todo := m.Keys;
    while todo != {}
      invariant todo <= m.Keys
      invariant found.None? ==> forall id | id in m && id !in todo :: !p(m[id])
      invariant found.Some? ==>
        && found.value.id in m && m[found.value.id] == found.value && p(found.value)
        && forall id | id in m && id !in todo && p(m[id]) :: m[id].seqNo <= found.value.seqNo
      decreases todo
    {
      var id :| id in todo;
      todo := todo - {id};
      if p(m[id]) && (found.None? || m[id].seqNo > found.value.seqNo) {
        found := Some(m[id]);
      }
    }
  }

  /** The loop shared by Unresolved and List, then sortBySeqDesc (a stable insertion sort here). */
  method Listing(m: Latest, p: Record -> bool) returns (out: seq<Record>)
    requires KeyedById(m)
    ensures IsListing(m, p, out)
  {
    out := [];
    var todo := m.Keys;
    while todo != {}
      invariant todo <= m.Keys
      invariant forall r | r in out :: r.id in m && r.id !in todo && m[r.id] == r && p(r)
      invariant forall id | id in m && id !in todo && p(m[id]) :: m[id] in out
      invariant DistinctIds(out) && Descending(out)
      decreases todo
    {
      var id :| id in todo;
      todo := todo - {id};
      if p(m[id]) {
        out := InsertDesc(out, m[id]);
      }
    }
  }

  method InsertDesc(out: seq<Record>, r: Record) returns (out': seq<Record>)
    requires Descending(out) && DistinctIds(out) && forall x | x in out :: x.id != r.id
    ensures forall x :: x in out' <==> x in out || x == r
    ensures Descending(out') && DistinctIds(out')
  {
    var k := |out|;
    while k > 0 && out[k - 1].seqNo < r.seqNo
      invariant 0 <= k <= |out|
      invariant forall i | k <= i < |out| :: out[i].seqNo < r.seqNo
    {
      k := k - 1;
    }
    out' := out[..k] + [r] + out[k..];
    Spliced(out, k, r, out');
  }

  lemma Spliced(out: seq<Record>, k: nat, r: Record, out': seq<Record>)
    requires k <= |out| && out' == out[..k] + [r] + out[k..]
    requires Descending(out) && DistinctIds(out) && forall x | x in out :: x.id != r.id
    requires (forall i | 0 <= i < k :: out[i].seqNo >= r.seqNo) && (forall i | k <= i < |out| :: out[i].seqNo < r.seqNo)
    ensures forall x :: x in out' <==> x in out || x == r
    ensures Descending(out') && DistinctIds(out')
  {
    assert out == out[..k] + out[k..];
    forall i, j | 0 <= i < j < |out'|
      ensures out'[i].seqNo >= out'[j].seqNo && out'[i].id != out'[j].id
    {
      var x, y := SplicedAt(out, k, r, out', i), SplicedAt(out, k, r, out', j);
      if i != k && j != k { assert out[x].seqNo >= out[y].seqNo && out[x].id != out[y].id; }
      if i == k { assert out[y] in out; }
      if j == k { assert out[x] in out; }
    }
  }

  /** Where an element other than the inserted one came from. */
  function SplicedAt(out: seq<Record>, k: nat, r: Record, out': seq<Record>, i: nat): (x: nat)
    requires k <= |out| && out' == out[..k] + [r] + out[k..] && i < |out'|
    ensures x == if i <= k then i else i - 1
    ensures i != k ==> x < |out| && out'[i] == out[x]
    ensures i == k ==> out'[i] == r
  {
    if i <= k then i else i - 1
  }

  function HasReservation(reservationId: string): Record -> bool {
    (r: Record) => r.reservationId == reservationId
  }

  function HasHash(hexToHash: string -> string, want: string): Record -> bool {
    (r: Record) => r.txHash != "" && hexToHash(r.txHash) == want
  }

  method ByReservation(s: Store, reservationId: string) returns (res: Result<Record>)
    requires s.disk.Valid()
    ensures res.Ok? ==> IsBest(FoldOf(s.codec, s.disk.Bytes()), HasReservation(reservationId), Some(res.value))
    ensures res == Err(NotFound) ==> IsBest(FoldOf(s.codec, s.disk.Bytes()), HasReservation(reservationId), None)
  {
    var read := Read(s);
    if read.Err? { return Err(read.error); }
    FoldKeyedById(Records(s.codec, s.disk.Bytes()));
    var found := Best(read.value, HasReservation(reservationId));
    return if found.None? then Err(NotFound) else Ok(found.value);
  }

  /** `hexToHash` is common.HexToHash, `want` the hash looked for. */
  method ByHash(s: Store, hexToHash: string -> string, want: string) returns (res: Result<Record>)
    requires s.disk.Valid()
    ensures res.Ok? ==> IsBest(FoldOf(s.codec, s.disk.Bytes()), HasHash(hexToHash, want), Some(res.value))
    ensures res == Err(NotFound) ==> IsBest(FoldOf(s.codec, s.disk.Bytes()), HasHash(hexToHash, want), None)
  {
    var read := Read(s);
    if read.Err? { return Err(read.error); }
    FoldKeyedById(Records(s.codec, s.disk.Bytes()));
    var found := Best(read.value, HasHash(hexToHash, want));
    return if found.None? then Err(NotFound) else Ok(found.value);
  }

  method ByID(s: Store, id: string) returns (res: Result<Record>)
    requires s.disk.Valid()
    ensures res.Ok? ==> id in FoldOf(s.codec, s.disk.Bytes()) && res.value == FoldOf(s.codec, s.disk.Bytes())[id]
    ensures res == Err(NotFound) ==> id !in FoldOf(s.codec, s.disk.Bytes())
  {
    var read := Read(s);
    if read.Err? { return Err(read.error); }
    return if id in read.value then Ok(read.value[id]) else Err(NotFound);
  }

  method Unresolved(s: Store) returns (res: Result<seq<Record>>)
    requires s.disk.Valid()
    ensures res.Ok? ==> IsListing(FoldOf(s.codec, s.disk.Bytes()), (r: Record) => !IsTerminal(r.status), res.value)
  {
    var read := Read(s);
    if read.Err? { return Err(read.error); }
    FoldKeyedById(Records(s.codec, s.disk.Bytes()));
    var out := Listing(read.value, (r: Record) => !IsTerminal(r.status));
    return Ok(out);
  }

  /** `account` is common.HexToAddress; `from` None stands for the zero address, meaning all. */
  method List(s: Store, account: string -> int, from: Option<int>) returns (res: Result<seq<Record>>)
    requires s.disk.Valid()
    ensures res.Ok? ==> IsListing(FoldOf(s.codec, s.disk.Bytes()), (r: Record) => from.None? || account(r.from) == from.value, res.value)
  {
    var read := Read(s);
    if read.Err? { return Err(read.error); }
    FoldKeyedById(Records(s.codec, s.disk.Bytes()));
    var out := Listing(read.value, (r: Record) => from.None? || account(r.from) == from.value);
    return Ok(out);
  }

  // --- the answers are functions of the file ---

  predicate SeqsDistinct(m: Latest) {
    forall a, b | a in m && b in m && a != b :: m[a].seqNo != m[b].seqNo
  }

  lemma IncreasingSeqsDistinct(rs: seq<Record>)
    requires Increasing(rs)
    ensures SeqsDistinct(Fold(rs))
  {
    forall a, b | a in Fold(rs) && b in Fold(rs) && a != b
      ensures Fold(rs)[a].seqNo != Fold(rs)[b].seqNo
    {
      FoldIsLatest(rs, a);
      FoldIsLatest(rs, b);
    }
  }

  lemma BestIsUnique(m: Latest, p: Record -> bool, x: Option<Record>, y: Option<Record>)
    requires SeqsDistinct(m) && IsBest(m, p, x) && IsBest(m, p, y)
    ensures x == y
  {}

  lemma {:induction false} ListingIsUnique(m: Latest, p: Record -> bool, x: seq<Record>, y: seq<Record>)
    requires SeqsDistinct(m) && KeyedById(m) && IsListing(m, p, x) && IsListing(m, p, y)
    ensures x == y
    decreases |x|
  {
    if x == [] {
      if y != [] { SameHead(m, p, y, x); }
    } else {
      SameHead(m, p, x, y);
      ListingTail(m, p, x);
      ListingTail(m, p, y);
      ListingIsUnique(m - {x[0].id}, p, x[1..], y[1..]);
      assert x == [x[0]] + x[1..] && y == [y[0]] + y[1..];
    }
  }

  lemma SameHead(m: Latest, p: Record -> bool, x: seq<Record>, y: seq<Record>)
    requires SeqsDistinct(m) && KeyedById(m) && IsListing(m, p, x) && IsListing(m, p, y) && x != []
    ensures y != [] && x[0] == y[0]
  {
    assert m[x[0].id] in y;
    var i :| 0 <= i < |y| && y[i] == x[0];
    assert y[0] in y;
    assert m[y[0].id] in x;
    var j :| 0 <= j < |x| && x[j] == y[0];
    assert x[0].seqNo >= x[j].seqNo && y[0].seqNo >= y[i].seqNo;
  }

  lemma ListingTail(m: Latest, p: Record -> bool, x: seq<Record>)
    requires KeyedById(m) && IsListing(m, p, x) && x != []
    ensures IsListing(m - {x[0].id}, p, x[1..])
  {
    var m' := m - {x[0].id};
    assert x == [x[0]] + x[1..];
    forall r | r in x[1..]
      ensures r.id in m' && m'[r.id] == r && p(r)
    {
      assert r in x;
    }
    forall id | id in m' && p(m'[id])
      ensures m'[id] in x[1..]
    {
      assert m[id] in x && m[id].id == id;
    }
  }

  /** A match that is newer than every other record is the answer. */
  lemma NewestIsFound(m: Latest, p: Record -> bool, id: string, found: Option<Record>)
    requires id in m && p(m[id]) && (forall x | x in m && x != id :: m[x].seqNo < m[id].seqNo) && IsBest(m, p, found)
    requires KeyedById(m)
    ensures found == Some(m[id])
  {}

  /** Once a SetState has succeeded, looking for the hash or the reservation it carried gives its record, with what
      it carried, whatever other records have that hash or reservation. */
  lemma CarriedIsFound(rs: seq<Record>, after: Latest, id: string, m: StateMutation, now: string,
                       hexToHash: string -> string, found: Option<Record>)
    requires Moved(rs, after, id, m, now) && MaxSeq(rs) < U64 - 1
    ensures m.txHash.Some? && m.txHash.value != "" && IsBest(after, HasHash(hexToHash, hexToHash(m.txHash.value)), found)
      ==> found == Some(after[id]) && found.value.txHash == m.txHash.value
    ensures m.reservationId.Some? && IsBest(after, HasReservation(m.reservationId.value), found)
      ==> found == Some(after[id]) && found.value.reservationId == m.reservationId.value
  {
    MovedIsNewest(rs, after, id, m, now);
    if m.txHash.Some? && m.txHash.value != "" && IsBest(after, HasHash(hexToHash, hexToHash(m.txHash.value)), found) {
      NewestIsFound(after, HasHash(hexToHash, hexToHash(m.txHash.value)), id, found);
    }
    if m.reservationId.Some? && IsBest(after, HasReservation(m.reservationId.value), found) {
      NewestIsFound(after, HasReservation(m.reservationId.value), id, found);
    }
  }

  lemma MovedIsNewest(rs: seq<Record>, after: Latest, id: string, m: StateMutation, now: string)
    requires Moved(rs, after, id, m, now) && MaxSeq(rs) < U64 - 1
    ensures KeyedById(after) && forall x | x in after && x != id :: after[x].seqNo < after[id].seqNo
  {
    FoldKeyedById(rs);
    forall x | x in after && x != id
      ensures after[x].seqNo < after[id].seqNo
    {
      FoldSeqBound(rs, x);
    }
  }

  /** Any two answers, one before and one after a compaction, are the same answer in the same order. */
  lemma QueriesSurviveCompaction(c: Codec, d: string, snap: seq<Record>, p: Record -> bool)
    requires c.Valid() && Increasing(Records(c, d)) && IsSnapshot(FoldOf(c, d), snap)
    ensures forall x, y | IsBest(FoldOf(c, d), p, x) && IsBest(FoldOf(c, Encoded(c, snap)), p, y) :: x == y
    ensures forall x, y | IsListing(FoldOf(c, d), p, x) && IsListing(FoldOf(c, Encoded(c, snap)), p, y) :: x == y
  {
    CompactionIsInvisible(c, d, snap);
    IncreasingSeqsDistinct(Records(c, d));
    FoldKeyedById(Records(c, d));
    var m := FoldOf(c, d);
    forall x, y | IsListing(m, p, x) && IsListing(m, p, y)
      ensures x == y
    {
      ListingIsUnique(m, p, x, y);
    }
  }
}
