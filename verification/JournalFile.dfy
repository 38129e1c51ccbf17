/** The bytes of a journal file (internal/journal/store_jsonl.go): which records they hold, what a
    torn tail is, and what an appended line or a rewritten snapshot makes of them. */
module JournalFile {
  import opened Text
  import opened JournalRecord

  /** encoding/json at the Record type: what Marshal writes and what Unmarshal makes of a line. */
  datatype Codec = Codec(enc: Record -> string, dec: string -> Option<Record>) {

    /** All that is assumed of it: a record reads back, on one line, in braces. */
    ghost predicate Valid() {
      forall r: Record :: Encodes(r)
    }

    ghost predicate Encodes(r: Record) {
      && dec(enc(r)) == Some(r)
      && |enc(r)| >= 2 && enc(r)[0] == '{' && enc(r)[|enc(r)| - 1] == '}'
      && '\n' !in enc(r)
    }

    /** The line appendLine writes. */
    function Line(r: Record): string {
      enc(r) + "\n"
    }
  }

  /** Empty, or ending in a newline. */
  predicate Terminated(d: string) {
    d == "" || d[|d| - 1] == '\n'
  }

  /** Everything up to and including the last newline. */
  function Complete(d: string): (p: string)
    ensures p <= d && Terminated(p)
  {
    if Terminated(d) then d else Complete(d[..|d| - 1])
  }

  function Tail(d: string): string {
    d[|Complete(d)|..]
  }

  lemma {:induction false} TailHasNoNewline(d: string)
    ensures d == Complete(d) + Tail(d)
    ensures '\n' !in Tail(d)
    ensures Terminated(d) <==> Tail(d) == ""
  {
    if !Terminated(d) {
      var d' := d[..|d| - 1];
      TailHasNoNewline(d');
      assert Tail(d) == Tail(d') + [d[|d| - 1]];
    }
  }

  /** What readAll keeps of one line: nothing when it is blank or does not parse. */
  function ParseLine(c: Codec, line: string): (rs: seq<Record>)
    ensures |rs| <= 1
  {
    var t := TrimSpace(line);
    if t == "" then [] else if c.dec(t).None? then [] else [c.dec(t).value]
  }

  /** The records of a file: its newline-terminated lines that parse, in order. */
  function Records(c: Codec, d: string): seq<Record>
    decreases |d|
  {
    var i := Find(d, '\n');
    if i == |d| then [] else ParseLine(c, d[..i]) + Records(c, d[i + 1..])
  }

  lemma {:induction false} RecordsConcat(c: Codec, a: string, b: string)
    requires Terminated(a)
    ensures Records(c, a + b) == Records(c, a) + Records(c, b)
    decreases |a|
  {
    if a == "" {
      assert a + b == b;
    } else {
      var i := Find(a, '\n');
      FirstLineOf(a, b, i);
      RecordsConcat(c, a[i + 1..], b);
      Associates(ParseLine(c, a[..i]), Records(c, a[i + 1..]), Records(c, b));
    }
  }

  lemma FirstLineOf(a: string, b: string, i: nat)
    requires a != "" && Terminated(a) && i == Find(a, '\n')
    ensures i < |a| && Terminated(a[i + 1..]) && Find(a + b, '\n') == i
    ensures (a + b)[..i] == a[..i] && (a + b)[i + 1..] == a[i + 1..] + b
  {
    FindPrefix(a, b, '\n');
  }

  lemma {:induction false} FindPrefix(a: string, b: string, x: char)
    requires x in a
    ensures Find(a + b, x) == Find(a, x) < |a|
  {
    var i := Find(a, x);
    var j := Find(a + b, x);
    assert (a + b)[i] == x;
    assert forall k | 0 <= k < i :: (a + b)[k] == a[k];
  }

  /** An unterminated tail holds no record, so a prefix of a line adds nothing. */
  lemma TornTailIsInvisible(c: Codec, a: string, t: string)
    requires Terminated(a) && '\n' !in t
    ensures Records(c, a + t) == Records(c, a)
  {
    RecordsConcat(c, a, t);
  }

  lemma RecordsComplete(c: Codec, d: string)
    ensures Records(c, Complete(d)) == Records(c, d)
  {
    TailHasNoNewline(d);
    TornTailIsInvisible(c, Complete(d), Tail(d));
  }

  /** A whole line after a file whose tail is at most blank adds exactly its record. */
  lemma WholeLineIsVisible(c: Codec, d: string, r: Record)
    requires c.Valid() && TrimSpace(Tail(d)) == ""
    ensures Records(c, d + c.Line(r)) == Records(c, d) + [r]
  {
    var a, line := Complete(d), Tail(d) + c.enc(r);
    TailHasNoNewline(d);
    assert d + c.Line(r) == a + (line + "\n");
    RecordsConcat(c, a, line + "\n");
    ParseEncoded(c, Tail(d), r);
    OneLine(c, line);
    RecordsComplete(c, d);
  }

  lemma ParseEncoded(c: Codec, w: string, r: Record)
    requires c.Valid() && TrimSpace(w) == "" && '\n' !in w
    ensures '\n' !in w + c.enc(r)
    ensures ParseLine(c, w + c.enc(r)) == [r]
  {
    assert c.Encodes(r);
    TrimBlankFront(w, c.enc(r));
  }

  lemma OneLine(c: Codec, line: string)
    requires '\n' !in line
    ensures Records(c, line + "\n") == ParseLine(c, line)
  {
    var d := line + "\n";
    var i := Find(d, '\n');
    assert d[|line|] == '\n';
    assert forall k | 0 <= k < |line| :: d[k] == line[k];
    assert i == |line| && d[..i] == line && d[i + 1..] == "";
  }

  /** Any strict prefix of a line, after the same file, adds nothing. */
  lemma PartialLineIsInvisible(c: Codec, d: string, r: Record, k: nat)
    requires c.Valid() && k < |c.Line(r)|
    ensures Records(c, d + c.Line(r)[..k]) == Records(c, d)
  {
    assert c.Encodes(r);
    var a, w, p := Complete(d), Tail(d), c.Line(r)[..k];
    TailHasNoNewline(d);
    assert p == c.enc(r)[..k];
    assert d + p == a + (w + p);
    TornTailIsInvisible(c, a, w + p);
    RecordsComplete(c, d);
  }

  /** What truncateTornFinal leaves: readAll repairs exactly the tails that are not blank. */
  function Repaired(d: string): string {
    if TrimSpace(Tail(d)) == "" then d else Complete(d)
  }

  lemma RepairKeepsRecords(c: Codec, d: string)
    ensures Records(c, Repaired(d)) == Records(c, d)
    ensures TrimSpace(Tail(Repaired(d))) == ""
  {
    RecordsComplete(c, d);
    TailHasNoNewline(Complete(d));
  }

  /** The bytes compact writes. */
  function Encoded(c: Codec, rs: seq<Record>): string {
    if rs == [] then "" else Encoded(c, rs[..|rs| - 1]) + c.Line(rs[|rs| - 1])
  }

  lemma {:induction false} EncodedReadsBack(c: Codec, rs: seq<Record>)
    requires c.Valid()
    ensures Terminated(Encoded(c, rs)) && Records(c, Encoded(c, rs)) == rs
  {
    if rs != [] {
      var d, r := Encoded(c, rs[..|rs| - 1]), rs[|rs| - 1];
      EncodedReadsBack(c, rs[..|rs| - 1]);
      TailHasNoNewline(d);
      WholeLineIsVisible(c, d, r);
    }
  }

  /** The fold a reader of these bytes sees. */
  function FoldOf(c: Codec, d: string): Latest {
    Fold(Records(c, d))
  }

  /** Compaction is invisible: whatever bytes the file held, a snapshot of their fold answers every
      query alike (each one is a function of the fold), continues with the same seq, and keeps file
      order equal to seq order. */
  lemma CompactionIsInvisible(c: Codec, d: string, snap: seq<Record>)
    requires c.Valid() && IsSnapshot(FoldOf(c, d), snap)
    ensures FoldOf(c, Encoded(c, snap)) == FoldOf(c, d)
    ensures Next(MaxSeq(Records(c, Encoded(c, snap)))) == Next(MaxSeq(Records(c, d)))
    ensures Increasing(Records(c, d)) ==> Increasing(Records(c, Encoded(c, snap)))
  {
    EncodedReadsBack(c, snap);
    SnapshotKeepsFold(Records(c, d), snap);
  }

  // --- the segments readAll loops over ---

  /** bytes.Split on newlines, keeping the final segment. */
  function Split(d: string): (lines: seq<string>)
    ensures lines != []
    decreases |d|
  {
    var i := Find(d, '\n');
    if i == |d| then [d] else [d[..i]] + Split(d[i + 1..])
  }
}
