/** The nested-literal splitter of internal/abi/coerce.go and the type-directed descent that uses it. */
module Literal {
  import opened Text

  // --- the scan ---

  /** The loop variables of splitLiteral; `elems` holds what each separator cut off, not yet trimmed. */
  datatype Scan = Scan(elems: seq<string>, buf: string, depth: nat, inStr: bool, esc: bool)

  const FRESH: Scan := Scan([], "", 0, false, false)

  /** One round of the loop; None when a bracket closes that was never opened. */
  function Step(st: Scan, ch: char): Option<Scan> {
    var keep := st.(buf := st.buf + [ch]);
    if st.inStr then
      if st.esc then Some(keep.(esc := false))
      else if ch == '\\' then Some(keep.(esc := true))
      else if ch == '"' then Some(keep.(inStr := false))
      else Some(keep)
    else if ch == '"' then Some(keep.(inStr := true))
    else if ch == '[' || ch == '(' then Some(keep.(depth := st.depth + 1))
    else if ch == ']' || ch == ')' then if st.depth == 0 then None else Some(keep.(depth := st.depth - 1))
    else if ch == ',' && st.depth == 0 then Some(st.(elems := st.elems + [st.buf], buf := ""))
    else Some(keep)
  }

  function Steps(st: Scan, s: string): Option<Scan>
    decreases |s|
  {
    if s == "" then Some(st)
    else
      var next := Step(st, s[0]);
      if next.None? then None else Steps(next.value, s[1..])
  }

  lemma {:induction false} StepsConcat(st: Scan, s: string, t: string)
    ensures Steps(st, s + t) == if Steps(st, s).None? then None else Steps(Steps(st, s).value, t)
    decreases |s|
  {
    if s == "" {
      assert s + t == t;
    } else {
      assert (s + t)[1..] == s[1..] + t;
      var next := Step(st, s[0]);
      if next.Some? {
        StepsConcat(next.value, s[1..], t);
      }
    }
  }

  lemma StepsOne(st: Scan, c: char)
    ensures Steps(st, [c]) == Step(st, c)
  {
    assert [c][1..] == "";
  }

  lemma StepsLast(st: Scan, s: string, i: nat)
    requires i < |s|
    ensures Steps(st, s[..i + 1]) == if Steps(st, s[..i]).None? then None else Step(Steps(st, s[..i]).value, s[i])
    ensures Steps(st, s[..i + 1]).None? ==> Steps(st, s).None?
  {
    assert s[..i] + [s[i]] == s[..i + 1];
    StepsConcat(st, s[..i], [s[i]]);
    if Steps(st, s[..i]).Some? {
      var st' := Steps(st, s[..i]).value;
      assert [s[i]][1..] == "";
      assert Steps(st', [s[i]]) == Step(st', s[i]);
    }
    assert s[..i + 1] + s[i + 1..] == s;
    StepsConcat(st, s[..i + 1], s[i + 1..]);
  }

  /** The pieces between the separators, untrimmed. */
  function Pieces(inner: string): Option<seq<string>> {
    var end := Steps(FRESH, inner);
    if end.None? || end.value.inStr || end.value.depth != 0 then None else Some(end.value.elems + [end.value.buf])
  }

  // --- unquote ---

  function Unescape(body: string): string {
    if body == "" then ""
    else if |body| > 1 && body[0] == '\\' && (body[1] == '"' || body[1] == '\\') then [body[1]] + Unescape(body[2..])
    else [body[0]] + Unescape(body[1..])
  }

  predicate FullyQuoted(s: string) {
    |s| >= 2 && s[0] == '"' && s[|s| - 1] == '"'
  }

  function Unquoted(s: string): string {
    if FullyQuoted(s) then Unescape(s[1..|s| - 1]) else s
  }

  method Unquote(s: string) returns (r: string, ok: bool)
    ensures ok == FullyQuoted(s) && r == Unquoted(s)
  {
    if |s| < 2 || s[0] != '"' || s[|s| - 1] != '"' { return s, false; }
    var body := s[1..|s| - 1];
    r, ok := "", true;
    var i := 0;
    while i < |body|
      invariant 0 <= i <= |body| && r + Unescape(body[i..]) == Unescape(body)
    {
      ghost var r0, i0 := r, i;
      if body[i] == '\\' && i + 1 < |body| && (body[i + 1] == '"' || body[i + 1] == '\\') {
        r := r + [body[i + 1]];
        i := i + 2;
      } else {
        r := r + [body[i]];
        i := i + 1;
      }
      UnescapeStep(body, r0, i0);
    }
  }

  lemma UnescapeStep(body: string, r: string, i: nat)
    requires i < |body|
    ensures var two := body[i] == '\\' && i + 1 < |body| && (body[i + 1] == '"' || body[i + 1] == '\\');
      r + Unescape(body[i..]) == if two then r + [body[i + 1]] + Unescape(body[i + 2..]) else r + [body[i]] + Unescape(body[i + 1..])
  {
    var t := body[i..];
    assert t[1..] == body[i + 1..];
    if |t| > 1 {
      assert t[2..] == body[i + 2..];
    }
  }

  /** A backslash counts in front of a quote or a backslash only; anywhere else it is kept, with what follows it. */
  lemma UnescapeCases(c: char, rest: string)
    ensures c == '"' || c == '\\' ==> Unescape(['\\', c] + rest) == [c] + Unescape(rest)
    ensures c != '"' && c != '\\' ==> Unescape(['\\', c] + rest) == ['\\', c] + Unescape(rest)
    ensures c != '\\' ==> Unescape([c] + rest) == [c] + Unescape(rest)
    ensures Unescape("\\") == "\\"
  {
    var t := ['\\', c] + rest;
    assert t[1..] == [c] + rest && t[2..] == rest;
    assert ([c] + rest)[1..] == rest;
    assert ['\\'] + ([c] + Unescape(rest)) == ['\\', c] + Unescape(rest);
    assert "\\"[1..] == "";
  }

  /** A text is unquoted exactly when it begins and ends with a quote, two different ones. */
  lemma UnquotedIff(s: string, body: string)
    ensures FullyQuoted(s) && body == s[1..|s| - 1] <==> s == ['"'] + (body + ['"'])
    ensures s == ['"'] + (body + ['"']) ==> Unquoted(s) == Unescape(body)
    ensures !FullyQuoted(s) ==> Unquoted(s) == s
  {
    if FullyQuoted(s) {
      assert s == ['"'] + (s[1..|s| - 1] + ['"']);
    }
    var t := ['"'] + (body + ['"']);
    assert t[1..|t| - 1] == body;
  }

  // --- splitLiteral ---

  function Trimmed(pieces: seq<string>): (r: seq<string>)
    ensures |r| == |pieces|
  {
    seq(|pieces|, k requires 0 <= k < |pieces| => TrimSpace(pieces[k]))
  }

  function Polished(pieces: seq<string>): (r: seq<string>)
    ensures |r| == |pieces|
    ensures forall k | 0 <= k < |r| :: r[k] == Unquoted(TrimSpace(pieces[k]))
  {
    seq(|pieces|, k requires 0 <= k < |pieces| => Unquoted(TrimSpace(pieces[k])))
  }

  function Split(s0: string, open: char, close: char): Option<seq<string>> {
    SplitTrimmed(TrimSpace(s0), open, close)
  }

  function SplitTrimmed(s: string, open: char, close: char): Option<seq<string>> {
    if |s| < 2 || s[0] != open || s[|s| - 1] != close then None else Elements(s[1..|s| - 1])
  }

  function Elements(inner: string): Option<seq<string>> {
    if TrimSpace(inner) == "" then Some([])
    else if Pieces(inner).None? then None
    else Some(Polished(Pieces(inner).value))
  }

  /** The scanning loop of splitLiteral: the trimmed elements, None for its errors. */
  method ScanElements(inner: string) returns (out: Option<seq<string>>)
    ensures out == if Pieces(inner).None? then None else Some(Trimmed(Pieces(inner).value))
  {
    var elems: seq<string>, buf, depth, inStr, esc := [], "", 0, false, false;
    ghost var cut: seq<string> := [];
    for i := 0 to |inner|
      invariant depth >= 0 && Steps(FRESH, inner[..i]) == Some(Scan(cut, buf, depth, inStr, esc))
      invariant elems == Trimmed(cut)
    {
      StepsLast(FRESH, inner, i);
      var ch := inner[i];
      if inStr {
        if esc {
          esc := false;
        } else if ch == '\\' {
          esc := true;
        } else if ch == '"' {
          inStr := false;
        }
        buf := buf + [ch];
        continue;
      }
      if ch == '"' {
        inStr := true;
        buf := buf + [ch];
      } else if ch == '[' || ch == '(' {
        depth := depth + 1;
        buf := buf + [ch];
      } else if ch == ']' || ch == ')' {
        depth := depth - 1;
        if depth < 0 { return None; }
        buf := buf + [ch];
      } else if ch == ',' && depth == 0 {
        elems := elems + [TrimSpace(buf)];
        cut := cut + [buf];
        buf := "";
      } else {
        buf := buf + [ch];
      }
    }
    assert inner[..|inner|] == inner;
    if inStr || depth != 0 { return None; }
    elems := elems + [TrimSpace(buf)];
    assert elems == Trimmed(cut + [buf]);
    return Some(elems);
  }

  method SplitLiteral(s0: string, open: char, close: char) returns (out: Option<seq<string>>)
    ensures out == Split(s0, open, close)
  {
    var s := TrimSpace(s0);
    if |s| < 2 || s[0] != open || s[|s| - 1] != close { return None; }
    var inner := s[1..|s| - 1];
    if TrimSpace(inner) == "" { return Some([]); }
    var scanned := ScanElements(inner);
    if scanned.None? { return None; }
    var elems := UnquoteEach(scanned.value);
    assert elems == Polished(Pieces(inner).value);
    return Some(elems);
  }

  /** The last loop of splitLiteral. */
  method UnquoteEach(trimmed: seq<string>) returns (elems: seq<string>)
    ensures |elems| == |trimmed| && forall k | 0 <= k < |elems| :: elems[k] == Unquoted(trimmed[k])
  {
    elems := trimmed;
    for i := 0 to |elems|
      invariant |elems| == |trimmed|
      invariant forall k | 0 <= k < i :: elems[k] == Unquoted(trimmed[k])
      invariant forall k | i <= k < |elems| :: elems[k] == trimmed[k]
    {
      var uq, ok := Unquote(elems[i]);
      if ok {
        elems := elems[i := uq];
      }
    }
  }

  // --- what a split is ---

  /** Brackets and quotes close inside `p`, and it has no separator of its own. */
  predicate Whole(p: string) {
    Steps(FRESH, p) == Some(Scan([], p, 0, false, false))
  }

  function Join(pieces: seq<string>): string
    requires pieces != []
  {
    if |pieces| == 1 then pieces[0] else pieces[0] + ([','] + Join(pieces[1..]))
  }

  /** A scan does not look at what it has collected. */
  function Onto(elems: seq<string>, buf: string, st: Scan): Scan {
    if st.elems == [] then st.(elems := elems, buf := buf + st.buf)
    else st.(elems := elems + ([buf + st.elems[0]] + st.elems[1..]))
  }

  lemma StepOnto(elems: seq<string>, buf: string, st: Scan, ch: char)
    ensures Step(Onto(elems, buf, st), ch)
         == if Step(st, ch).None? then None else Some(Onto(elems, buf, Step(st, ch).value))
  {
    if st.elems == [] {
      assert buf + st.buf + [ch] == buf + (st.buf + [ch]);
      assert [st.buf][1..] == [];
      assert elems + [buf + st.buf] == elems + ([buf + st.buf] + []);
    } else {
      var more := st.elems + [st.buf];
      assert more[1..] == st.elems[1..] + [st.buf];
      assert elems + ([buf + st.elems[0]] + st.elems[1..]) + [st.buf] == elems + ([buf + more[0]] + more[1..]);
    }
  }

  lemma {:induction false} StepsOnto(elems: seq<string>, buf: string, st: Scan, s: string)
    ensures Steps(Onto(elems, buf, st), s)
         == if Steps(st, s).None? then None else Some(Onto(elems, buf, Steps(st, s).value))
    decreases |s|
  {
    if s != "" {
      StepOnto(elems, buf, st, s[0]);
      if Step(st, s[0]).Some? {
        StepsOnto(elems, buf, Step(st, s[0]).value, s[1..]);
      }
    }
  }

  /** After a whole piece and a separator the scan starts afresh, one element richer. */
  lemma AfterPiece(p: string, rest: string)
    requires Whole(p)
    ensures Steps(FRESH, p + ([','] + rest))
         == if Steps(FRESH, rest).None? then None
            else Some(Steps(FRESH, rest).value.(elems := [p] + Steps(FRESH, rest).value.elems))
  {
    StepsConcat(FRESH, p, [','] + rest);
    assert ([','] + rest)[1..] == rest;
    var st := Scan([p], "", 0, false, false);
    assert [] + [p] == [p];
    assert Steps(FRESH, p + ([','] + rest)) == Steps(st, rest);
    assert Onto([p], "", FRESH) == st;
    StepsOnto([p], "", FRESH, rest);
    if Steps(FRESH, rest).Some? {
      OntoPiece(p, Steps(FRESH, rest).value);
    }
  }

  lemma OntoPiece(p: string, st: Scan)
    ensures Onto([p], "", st) == st.(elems := [p] + st.elems)
  {
    if st.elems == [] {
      assert "" + st.buf == st.buf;
      assert [p] + st.elems == [p];
    } else {
      assert "" + st.elems[0] == st.elems[0];
      assert ["" + st.elems[0]] + st.elems[1..] == st.elems;
    }
  }

  lemma {:induction false} JoinSplits(ps: seq<string>)
    requires ps != [] && forall p | p in ps :: Whole(p)
    ensures Pieces(Join(ps)) == Some(ps)
  {
    assert Whole(ps[0]);
    if |ps| == 1 {
      assert [] + [ps[0]] == ps;
    } else {
      JoinSplits(ps[1..]);
      PieceInFront(ps[0], Join(ps[1..]), ps[1..]);
      assert [ps[0]] + ps[1..] == ps;
    }
  }

  lemma PieceInFront(p: string, rest: string, ps: seq<string>)
    requires Whole(p) && Pieces(rest) == Some(ps)
    ensures Pieces(p + ([','] + rest)) == Some([p] + ps)
  {
    AfterPiece(p, rest);
    var end := Steps(FRESH, rest).value;
    assert [p] + end.elems + [end.buf] == [p] + (end.elems + [end.buf]);
  }

  /** Every state of a scan spells out what it has read: nothing is lost, and each cut piece is whole. */
  lemma {:induction false} ScanSpells(s: string)
    requires Steps(FRESH, s).Some?
    ensures var st := Steps(FRESH, s).value;
      && Join(st.elems + [st.buf]) == s
      && (forall p | p in st.elems :: Whole(p))
      && Steps(FRESH, st.buf) == Some(st.(elems := []))
      && (st.esc ==> st.inStr)
    decreases |s|
  {
    if s != "" {
      var n := |s| - 1;
      StepsLast(FRESH, s, n);
      assert s[..n + 1] == s;
      ScanSpells(s[..n]);
      var st := Steps(FRESH, s[..n]).value;
      var st' := Steps(FRESH, s).value;
      if st'.elems != st.elems { CutSpells(st, s); } else { KeepSpells(st, st', s, s[n]); }
    }
  }

  lemma CutSpells(st: Scan, s: string)
    requires s != "" && Join(st.elems + [st.buf]) == s[..|s| - 1] && s[|s| - 1] == ','
    ensures Join(st.elems + [st.buf] + [""]) == s
  {
    JoinSnoc(st.elems + [st.buf], "");
    assert [','] + "" == [','];
    assert s[..|s| - 1] + [','] == s;
  }

  lemma KeepSpells(st: Scan, st': Scan, s: string, c: char)
    requires s != "" && c == s[|s| - 1] && Join(st.elems + [st.buf]) == s[..|s| - 1]
    requires Step(st, c) == Some(st') && st'.elems == st.elems && Steps(FRESH, st.buf) == Some(st.(elems := []))
    ensures Join(st'.elems + [st'.buf]) == s
    ensures Steps(FRESH, st'.buf) == Some(st'.(elems := []))
  {
    assert st'.buf == st.buf + [c];
    JoinExtend(st.elems, st.buf, [c]);
    assert s[..|s| - 1] + [c] == s;
    KeepScans(st, st', c);
  }

  lemma KeepScans(st: Scan, st': Scan, c: char)
    requires Step(st, c) == Some(st') && st'.elems == st.elems && Steps(FRESH, st.buf) == Some(st.(elems := []))
    ensures Steps(FRESH, st.buf + [c]) == Some(st'.(elems := []))
  {
    StepsConcat(FRESH, st.buf, [c]);
    StepsOne(st.(elems := []), c);
  }

  lemma {:induction false} JoinSnoc(ps: seq<string>, last: string)
    requires ps != []
    ensures Join(ps + [last]) == Join(ps) + ([','] + last)
  {
    if |ps| == 1 {
      assert (ps + [last])[1..] == [last];
    } else {
      assert (ps + [last])[1..] == ps[1..] + [last];
      JoinSnoc(ps[1..], last);
      assert ps[0] + ([','] + (Join(ps[1..]) + ([','] + last))) == ps[0] + ([','] + Join(ps[1..])) + ([','] + last);
    }
  }

  lemma JoinExtend(ps: seq<string>, buf: string, more: string)
    ensures Join(ps + [buf + more]) == Join(ps + [buf]) + more
  {
    if ps != [] {
      JoinSnoc(ps, buf + more);
      JoinSnoc(ps, buf);
      assert Join(ps) + ([','] + (buf + more)) == Join(ps) + ([','] + buf) + more;
    }
  }

  /** The splitter finds the one way to cut a text at its top-level separators into whole pieces, and fails
      exactly when there is none. */
  lemma PiecesIff(inner: string, ps: seq<string>)
    ensures Pieces(inner) == Some(ps) <==> ps != [] && Join(ps) == inner && forall p | p in ps :: Whole(p)
  {
    if ps != [] && Join(ps) == inner && forall p | p in ps :: Whole(p) {
      JoinSplits(ps);
    }
    if Pieces(inner) == Some(ps) {
      ScanSpells(inner);
    }
  }

  /** `elems` are the elements of the text inside the brackets: none of a blank one, else those of its one cut into
      whole pieces, trimmed and unquoted. */
  ghost predicate Inside(inner: string, elems: seq<string>) {
    if TrimSpace(inner) == "" then elems == []
    else exists ps :: Cuts(inner, ps) && elems == Polished(ps)
  }

  ghost predicate Cuts(inner: string, ps: seq<string>) {
    ps != [] && Join(ps) == inner && forall p | p in ps :: Whole(p)
  }

  predicate Between(s: string, open: char, inner: string, close: char) {
    s == [open] + (inner + [close])
  }

  /** A literal splits exactly when, trimmed, it stands between its brackets and its inside has a cut. */
  lemma SplitIff(s0: string, open: char, close: char, elems: seq<string>)
    ensures Split(s0, open, close) == Some(elems)
      <==> exists inner :: Between(TrimSpace(s0), open, inner, close) && Inside(inner, elems)
  {
    SplitTrimmedIff(TrimSpace(s0), open, close, elems);
  }

  lemma SplitTrimmedIff(s: string, open: char, close: char, elems: seq<string>)
    ensures SplitTrimmed(s, open, close) == Some(elems)
      <==> exists inner :: Between(s, open, inner, close) && Inside(inner, elems)
  {
    forall inner
      ensures Between(s, open, inner, close)
        <==> |s| >= 2 && s[0] == open && s[|s| - 1] == close && inner == s[1..|s| - 1]
    {
      BetweenIff(s, open, inner, close);
    }
    if |s| >= 2 && s[0] == open && s[|s| - 1] == close {
      ElementsIff(s[1..|s| - 1], elems);
      assert Between(s, open, s[1..|s| - 1], close);
    }
  }

  lemma BetweenIff(s: string, open: char, inner: string, close: char)
    ensures Between(s, open, inner, close)
      <==> |s| >= 2 && s[0] == open && s[|s| - 1] == close && inner == s[1..|s| - 1]
  {
    var t := [open] + (inner + [close]);
    assert t[1..|t| - 1] == inner;
    if |s| >= 2 {
      assert s == [s[0]] + (s[1..|s| - 1] + [s[|s| - 1]]);
    }
  }

  lemma ElementsIff(inner: string, elems: seq<string>)
    ensures Elements(inner) == Some(elems) <==> Inside(inner, elems)
  {
    if TrimSpace(inner) != "" {
      forall ps
        ensures Pieces(inner) == Some(ps) <==> Cuts(inner, ps)
      {
        PiecesIff(inner, ps);
      }
      if Pieces(inner).Some? {
        assert Cuts(inner, Pieces(inner).value);
      }
    }
  }

  /** Blanks around an element do not count. */
  lemma PaddedElement(lead: string, p: string, trail: string)
    requires Only(lead, ASCII_SPACE) && Clean(p) && Only(trail, ASCII_SPACE)
    ensures Polished([lead + (p + trail)]) == [Unquoted(p)]
  {
    TrimPads(lead, p, trail);
  }

  // --- trees of arrays and tuples ---

  datatype Ty = Scalar | Slice(elem: Ty) | Fixed(elem: Ty, size: nat) | Struct(fields: seq<Ty>)

  /** What the scalar coercers are handed, in the shape of the type. */
  datatype Tree = Leaf(text: string) | Array(items: seq<Tree>) | Tuple(items: seq<Tree>)

  predicate HasType(v: Tree, ty: Ty)
    decreases ty
  {
    match ty
    case Scalar => v.Leaf?
    case Slice(elem) => v.Array? && forall i | 0 <= i < |v.items| :: HasType(v.items[i], elem)
    case Fixed(elem, size) => v.Array? && |v.items| == size && forall i | 0 <= i < |v.items| :: HasType(v.items[i], elem)
    case Struct(fields) =>
      v.Tuple? && |v.items| == |fields| && forall i | 0 <= i < |fields| :: HasType(v.items[i], fields[i])
  }

  function Escape(s: string): string {
    if s == "" then "" else (if s[0] == '"' || s[0] == '\\' then ['\\', s[0]] else [s[0]]) + Escape(s[1..])
  }

  function Print(v: Tree): string
    decreases v, 0
  {
    match v
    case Leaf(text) => ['"'] + (Escape(text) + ['"'])
    case Array(items) => ['['] + (PrintAll(items) + [']'])
    case Tuple(items) => ['('] + (PrintAll(items) + [')'])
  }

  function PrintAll(vs: seq<Tree>): string
    decreases vs, 1
  {
    if vs == [] then "" else if |vs| == 1 then Print(vs[0]) else Print(vs[0]) + ([','] + PrintAll(vs[1..]))
  }

  /** coerce, coerceArray and coerceTuple, keeping the scalar texts as they are. */
  function Read(ty: Ty, s: string): Option<Tree>
    decreases ty, 0
  {
    match ty
    case Scalar => Some(Leaf(s))
    case Slice(elem) =>
      var elems := Split(s, '[', ']');
      if elems.None? then None
      else
        var items := ReadEach(elem, elems.value);
        if items.None? then None else Some(Array(items.value))
    case Fixed(elem, size) =>
      var elems := Split(s, '[', ']');
      if elems.None? || |elems.value| != size then None
      else
        var items := ReadEach(elem, elems.value);
        if items.None? then None else Some(Array(items.value))
    case Struct(fields) =>
      var elems := Split(s, '(', ')');
      if elems.None? || |elems.value| != |fields| then None
      else
        var items := ReadFields(fields, elems.value);
        if items.None? then None else Some(Tuple(items.value))
  }

  function ReadEach(elem: Ty, ss: seq<string>): Option<seq<Tree>>
    decreases elem, 1, |ss|
  {
    if ss == [] then Some([])
    else
      var v, more := Read(elem, ss[0]), ReadEach(elem, ss[1..]);
      if v.None? || more.None? then None else Some([v.value] + more.value)
  }

  function ReadFields(fields: seq<Ty>, ss: seq<string>): Option<seq<Tree>>
    requires |fields| == |ss|
    decreases fields, 1
  {
    if ss == [] then Some([])
    else
      var v, more := Read(fields[0], ss[0]), ReadFields(fields[1..], ss[1..]);
      if v.None? || more.None? then None else Some([v.value] + more.value)
  }

  // --- the round trip ---

  lemma {:induction false} UnescapeEscape(s: string)
    ensures Unescape(Escape(s)) == s
  {
    if s != "" {
      UnescapeEscape(s[1..]);
      var e := Escape(s[1..]);
      if s[0] == '"' || s[0] == '\\' {
        assert (['\\', s[0]] + e)[2..] == e;
      } else {
        assert ([s[0]] + e)[1..] == e;
      }
    }
  }

  lemma HeadScans(st: Scan, c: char)
    requires st.inStr && !st.esc
    ensures var head := if c == '"' || c == '\\' then ['\\', c] else [c];
      Steps(st, head) == Some(st.(buf := st.buf + head))
  {
    if c == '"' || c == '\\' {
      var mid := st.(buf := st.buf + ['\\'], esc := true);
      assert ['\\'] + [c] == ['\\', c];
      StepsConcat(st, ['\\'], [c]);
      StepsOne(st, '\\');
      StepsOne(mid, c);
      assert st.buf + ['\\'] + [c] == st.buf + ['\\', c];
    } else {
      StepsOne(st, c);
    }
  }

  /** Inside quotes an escaped text is read to its end, whatever it holds. */
  lemma {:induction false} EscapeScans(st: Scan, s: string)
    requires st.inStr && !st.esc
    ensures Steps(st, Escape(s)) == Some(st.(buf := st.buf + Escape(s)))
    decreases |s|
  {
    if s == "" {
      assert st.buf + "" == st.buf;
    } else {
      var head := if s[0] == '"' || s[0] == '\\' then ['\\', s[0]] else [s[0]];
      HeadScans(st, s[0]);
      EscapeScans(st.(buf := st.buf + head), s[1..]);
      TwoScans(st, head, Escape(s[1..]));
    }
  }

  lemma TwoScans(st: Scan, p: string, q: string)
    requires Steps(st, p) == Some(st.(buf := st.buf + p))
    requires var next := st.(buf := st.buf + p); Steps(next, q) == Some(next.(buf := next.buf + q))
    ensures Steps(st, p + q) == Some(st.(buf := st.buf + (p + q)))
  {
    StepsConcat(st, p, q);
    Associates(st.buf, p, q);
  }

  /** Scanning `[c] + (body + [d])`, given how its parts scan. */
  lemma Wrapped(st: Scan, before: Scan, c: char, body: string, after: Scan, d: char)
    requires Step(st, c) == Some(before) && Steps(before, body) == Some(after)
    ensures Steps(st, [c] + (body + [d])) == Step(after, d)
  {
    StepsConcat(st, [c], body + [d]);
    StepsOne(st, c);
    StepsConcat(before, body, [d]);
    StepsOne(after, d);
  }

  lemma Regroup(buf: string, c: string, body: string, d: string)
    ensures buf + c + body + d == buf + (c + (body + d))
  {}

  lemma {:induction false} PrintScans(st: Scan, v: Tree)
    requires !st.inStr && !st.esc
    ensures Steps(st, Print(v)) == Some(st.(buf := st.buf + Print(v)))
    decreases v, 0
  {
    match v
    case Leaf(text) =>
      var inside := st.(inStr := true, buf := st.buf + ['"']);
      EscapeScans(inside, text);
      Wrapped(st, inside, '"', Escape(text), inside.(buf := inside.buf + Escape(text)), '"');
      Regroup(st.buf, ['"'], Escape(text), ['"']);
    case Array(items) =>
      var inside := st.(depth := st.depth + 1, buf := st.buf + ['[']);
      PrintAllScans(inside, items);
      Wrapped(st, inside, '[', PrintAll(items), inside.(buf := inside.buf + PrintAll(items)), ']');
      Regroup(st.buf, ['['], PrintAll(items), [']']);
    case Tuple(items) =>
      var inside := st.(depth := st.depth + 1, buf := st.buf + ['(']);
      PrintAllScans(inside, items);
      Wrapped(st, inside, '(', PrintAll(items), inside.(buf := inside.buf + PrintAll(items)), ')');
      Regroup(st.buf, ['('], PrintAll(items), [')']);
  }

  lemma InnerComma(st: Scan, p: string, more: string)
    requires !st.inStr && st.depth > 0 && Steps(st, p) == Some(st.(buf := st.buf + p))
    requires var next := st.(buf := st.buf + p + [',']); Steps(next, more) == Some(next.(buf := next.buf + more))
    ensures Steps(st, p + ([','] + more)) == Some(st.(buf := st.buf + (p + ([','] + more))))
  {
    var mid := st.(buf := st.buf + p);
    StepsConcat(st, p, [','] + more);
    StepsConcat(mid, [','], more);
    StepsOne(mid, ',');
    Regroup(st.buf, p, [','], more);
  }

  /** Inside a bracket the separators are ordinary text. */
  lemma {:induction false} PrintAllScans(st: Scan, vs: seq<Tree>)
    requires !st.inStr && !st.esc && st.depth > 0
    ensures Steps(st, PrintAll(vs)) == Some(st.(buf := st.buf + PrintAll(vs)))
    decreases vs, 1
  {
    if vs == [] {
      assert st.buf + "" == st.buf;
    } else if |vs| == 1 {
      PrintScans(st, vs[0]);
    } else {
      var p, more := Print(vs[0]), PrintAll(vs[1..]);
      PrintScans(st, vs[0]);
      PrintAllScans(st.(buf := st.buf + p + [',']), vs[1..]);
      InnerComma(st, p, more);
    }
  }

  lemma PrintIsWhole(v: Tree)
    ensures Whole(Print(v)) && Clean(Print(v))
  {
    PrintScans(FRESH, v);
    PrintEnds(v);
    assert [] + Print(v) == Print(v);
  }

  lemma PrintEnds(v: Tree)
    ensures Clean(Print(v))
  {
    match v
    case Leaf(text) => WrappedClean('"', Escape(text), '"');
    case Array(items) => WrappedClean('[', PrintAll(items), ']');
    case Tuple(items) => WrappedClean('(', PrintAll(items), ')');
  }

  lemma WrappedClean(c: char, body: string, d: char)
    requires Solid(c) && Solid(d)
    ensures var s := [c] + (body + [d]); Clean(s) && s[0] == c && s[|s| - 1] == d && s[1..|s| - 1] == body
  {}

  function Printed(vs: seq<Tree>): (r: seq<string>)
    ensures |r| == |vs|
  {
    if vs == [] then [] else [Print(vs[0])] + Printed(vs[1..])
  }

  lemma {:induction false} PrintAllIsJoin(vs: seq<Tree>)
    requires vs != []
    ensures PrintAll(vs) == Join(Printed(vs))
    ensures forall k | 0 <= k < |vs| :: Printed(vs)[k] == Print(vs[k])
  {
    if |vs| > 1 {
      PrintAllIsJoin(vs[1..]);
    }
  }

  lemma {:induction false} PrintAllClean(vs: seq<Tree>)
    requires vs != []
    ensures Clean(PrintAll(vs))
  {
    PrintEnds(vs[0]);
    if |vs| > 1 {
      PrintAllClean(vs[1..]);
      CleanConcat(Print(vs[0]), PrintAll(vs[1..]));
    }
  }

  lemma CleanConcat(s: string, t: string)
    requires Clean(s) && Clean(t)
    ensures Clean(s + ([','] + t))
  {}

  /** The string an element is handed on as: the text of a leaf, the literal of anything else. */
  function Handed(v: Tree): string {
    if v.Leaf? then v.text else Print(v)
  }

  lemma PolishedPrint(v: Tree)
    ensures Unquoted(TrimSpace(Print(v))) == Handed(v)
  {
    PrintEnds(v);
    TrimClean(Print(v));
    match v
    case Leaf(text) => QuotedReads(text);
    case Array(_) => assert !FullyQuoted(Print(v));
    case Tuple(_) => assert !FullyQuoted(Print(v));
  }

  lemma QuotedReads(text: string)
    ensures Unquoted(['"'] + (Escape(text) + ['"'])) == text
  {
    WrappedClean('"', Escape(text), '"');
    UnescapeEscape(text);
  }

  lemma SplitPrinted(vs: seq<Tree>, open: char, close: char)
    requires (open == '[' && close == ']') || (open == '(' && close == ')')
    ensures var r := Split([open] + (PrintAll(vs) + [close]), open, close);
      r.Some? && |r.value| == |vs| && forall k | 0 <= k < |vs| :: r.value[k] == Handed(vs[k])
  {
    WrappedClean(open, PrintAll(vs), close);
    TrimClean([open] + (PrintAll(vs) + [close]));
    ElementsPrinted(vs);
  }

  lemma ElementsPrinted(vs: seq<Tree>)
    ensures var r := Elements(PrintAll(vs));
      r.Some? && |r.value| == |vs| && forall k | 0 <= k < |vs| :: r.value[k] == Handed(vs[k])
  {
    if vs == [] {
      assert TrimSpace("") == "";
    } else {
      PiecesPrinted(vs);
    }
  }

  lemma PiecesPrinted(vs: seq<Tree>)
    requires vs != []
    ensures TrimSpace(PrintAll(vs)) != "" && Pieces(PrintAll(vs)) == Some(Printed(vs))
    ensures forall k | 0 <= k < |vs| :: Polished(Printed(vs))[k] == Handed(vs[k])
  {
    PrintAllIsJoin(vs);
    PrintAllClean(vs);
    TrimClean(PrintAll(vs));
    var ps := Printed(vs);
    forall k | 0 <= k < |vs|
      ensures Whole(ps[k]) && Unquoted(TrimSpace(ps[k])) == Handed(vs[k])
    {
      PrintIsWhole(vs[k]);
      PolishedPrint(vs[k]);
    }
    JoinSplits(ps);
  }

  /** Splitting inverts printing at every level: whatever commas, brackets, quotes and backslashes the leaves
      hold. (A bare top-level scalar is taken verbatim, so `Handed` leaves it unquoted.) */
  lemma {:induction false} ReadInvertsPrint(v: Tree, ty: Ty)
    requires HasType(v, ty)
    ensures Read(ty, Handed(v)) == Some(v)
    decreases ty, 0
  {
    match ty
    case Scalar =>
    case Slice(elem) =>
      SplitPrinted(v.items, '[', ']');
      ReadEachInverts(v.items, elem, Split(Print(v), '[', ']').value);
    case Fixed(elem, _) =>
      SplitPrinted(v.items, '[', ']');
      ReadEachInverts(v.items, elem, Split(Print(v), '[', ']').value);
    case Struct(fields) =>
      SplitPrinted(v.items, '(', ')');
      ReadFieldsInverts(v.items, fields, Split(Print(v), '(', ')').value);
  }

  lemma {:induction false} ReadEachInverts(vs: seq<Tree>, elem: Ty, ss: seq<string>)
    requires |ss| == |vs| && forall k | 0 <= k < |vs| :: HasType(vs[k], elem) && ss[k] == Handed(vs[k])
    ensures ReadEach(elem, ss) == Some(vs)
    decreases elem, 1, |ss|
  {
    if vs != [] {
      assert HasType(vs[0], elem);
      ReadInvertsPrint(vs[0], elem);
      ReadEachInverts(vs[1..], elem, ss[1..]);
      ReadEachStep(vs, elem, ss);
    }
  }

  lemma ReadEachStep(vs: seq<Tree>, elem: Ty, ss: seq<string>)
    requires vs != [] && ss != [] && Read(elem, ss[0]) == Some(vs[0]) && ReadEach(elem, ss[1..]) == Some(vs[1..])
    ensures ReadEach(elem, ss) == Some(vs)
  {
    assert [vs[0]] + vs[1..] == vs;
  }

  lemma {:induction false} ReadFieldsInverts(vs: seq<Tree>, fields: seq<Ty>, ss: seq<string>)
    requires |ss| == |vs| == |fields| && forall k | 0 <= k < |vs| :: HasType(vs[k], fields[k]) && ss[k] == Handed(vs[k])
    ensures ReadFields(fields, ss) == Some(vs)
    decreases fields, 1
  {
    if vs != [] {
      assert HasType(vs[0], fields[0]);
      ReadInvertsPrint(vs[0], fields[0]);
      ReadFieldsInverts(vs[1..], fields[1..], ss[1..]);
      assert [vs[0]] + vs[1..] == vs;
    }
  }

  /** The descent keeps the shape of the type: what it returns always has it. */
  lemma {:induction false} ReadHasType(ty: Ty, s: string)
    ensures Read(ty, s).Some? ==> HasType(Read(ty, s).value, ty)
    decreases ty, 0
  {
    if Read(ty, s).Some? {
      match ty
      case Scalar =>
      case Slice(elem) => ReadEachHasType(elem, Split(s, '[', ']').value);
      case Fixed(elem, _) => ReadEachHasType(elem, Split(s, '[', ']').value);
      case Struct(fields) => ReadFieldsHasType(fields, Split(s, '(', ')').value);
    }
  }

  lemma {:induction false} ReadEachHasType(elem: Ty, ss: seq<string>)
    ensures ReadEach(elem, ss).Some? ==>
      |ReadEach(elem, ss).value| == |ss| && forall v | v in ReadEach(elem, ss).value :: HasType(v, elem)
    decreases elem, 1, |ss|
  {
    if ss != [] {
      ReadHasType(elem, ss[0]);
      ReadEachHasType(elem, ss[1..]);
    }
  }

  lemma {:induction false} ReadFieldsHasType(fields: seq<Ty>, ss: seq<string>)
    requires |fields| == |ss|
    ensures var r := ReadFields(fields, ss);
      r.Some? ==> |r.value| == |ss| && forall k | 0 <= k < |ss| :: HasType(r.value[k], fields[k])
    decreases fields, 1
  {
    if ss != [] {
      ReadHasType(fields[0], ss[0]);
      ReadFieldsHasType(fields[1..], ss[1..]);
    }
  }
}
