/** JSON objects by the grammar of RFC 8259, sections 2 to 7, and what the wallet plaintext decoder of
    internal/keys/codec.go makes of them. */
module PlaintextJson {
  import opened Text
  import opened PlaintextCodec

  // --- the grammar, with every choice of white space, escapes and number form ---

  /** Section 7: an unescaped char, a two-char escape, or \uXXXX. */
  datatype Piece = Plain(c: char) | Short(e: char) | Long(hex: string)

  datatype Sign = NoSign | Plus | Minus

  /** Section 6. */
  datatype Number = Number(minus: bool, whole: string, frac: Option<string>, exp: Option<Exponent>)
  datatype Exponent = Exponent(e: char, sign: Sign, digits: string)

  datatype Json =
    | Null | True | False
    | Num(n: Number)
    | Str(pieces: seq<Piece>)
    | Arr(blank: string, elems: seq<Elem>)
    | Obj(blank: string, members: seq<Member>)

  /** A value between white space. */
  datatype Elem = Elem(before: string, v: Json, after: string)

  /** ws string ws ":" ws value ws */
  datatype Member = Member(before: string, key: seq<Piece>, mid: string, e: Elem)

  /** A piece the decoder can read; unlike the grammar it lets control chars pass unescaped. */
  predicate Readable(p: Piece) {
    match p
    case Plain(c) => c != '"' && c != '\\'
    case Short(e) => Unescape(e).Some?
    case Long(h) => |h| == 4 && Hex(h) >= 0
  }

  predicate AllReadable(ps: seq<Piece>) {
    forall i | 0 <= i < |ps| :: Readable(ps[i])
  }

  predicate PieceOk(p: Piece) {
    Readable(p) && (p.Plain? ==> p.c >= ' ')
  }

  predicate Numeral(s: string) {
    s != "" && Digits(s)
  }

  predicate NumberOk(n: Number) {
    && Numeral(n.whole) && (|n.whole| > 1 ==> n.whole[0] != '0')
    && (n.frac.Some? ==> Numeral(n.frac.value))
    && (n.exp.Some? ==> (n.exp.value.e == 'e' || n.exp.value.e == 'E') && Numeral(n.exp.value.digits))
  }

  ghost predicate Ok(j: Json)
    decreases j, 1
  {
    match j
    case Num(n) => NumberOk(n)
    case Str(ps) => PiecesOk(ps)
    case Arr(b, es) => Only(b, JSON_SPACE) && forall i | 0 <= i < |es| :: ElemOk(es[i])
    case Obj(b, ms) => Only(b, JSON_SPACE) && forall i | 0 <= i < |ms| :: MemberOk(ms[i])
    case _ => true
  }

  predicate PiecesOk(ps: seq<Piece>) {
    AllReadable(ps) && forall i | 0 <= i < |ps| :: PieceOk(ps[i])
  }

  ghost predicate ElemOk(e: Elem)
    decreases e, 0
  {
    Only(e.before, JSON_SPACE) && Only(e.after, JSON_SPACE) && Ok(e.v)
  }

  ghost predicate MemberOk(m: Member)
    decreases m, 0
  {
    Only(m.before, JSON_SPACE) && Only(m.mid, JSON_SPACE) && PiecesOk(m.key) && ElemOk(m.e)
  }

  // --- the text ---

  function PieceText(p: Piece): string {
    match p
    case Plain(c) => [c]
    case Short(e) => ['\\', e]
    case Long(h) => "\\u" + h
  }

  function PiecesText(ps: seq<Piece>): string {
    if ps == [] then "" else PieceText(ps[0]) + PiecesText(ps[1..])
  }

  function StringText(ps: seq<Piece>): string {
    "\"" + (PiecesText(ps) + "\"")
  }

  function SignText(s: Sign): string {
    match s case NoSign => "" case Plus => "+" case Minus => "-"
  }

  function NumberText(n: Number): string {
    (if n.minus then "-" else "") + n.whole
    + (if n.frac.Some? then "." + n.frac.value else "")
    + (if n.exp.Some? then [n.exp.value.e] + SignText(n.exp.value.sign) + n.exp.value.digits else "")
  }

  function Render(j: Json): string
    decreases j, 1
  {
    match j
    case Null => "null"
    case True => "true"
    case False => "false"
    case Num(n) => NumberText(n)
    case Str(ps) => StringText(ps)
    case Arr(b, es) => "[" + ((if es == [] then b else ElemsText(es)) + "]")
    case Obj(b, ms) => "{" + ((if ms == [] then b else MembersText(ms)) + "}")
  }

  function ElemText(e: Elem): string
    decreases e, 0
  {
    e.before + (Render(e.v) + e.after)
  }

  function ElemsText(es: seq<Elem>): string
    requires es != []
    decreases es, 0
  {
    if |es| == 1 then ElemText(es[0]) else ElemText(es[0]) + ("," + ElemsText(es[1..]))
  }

  function MemberText(m: Member): string
    decreases m, 0
  {
    m.before + (StringText(m.key) + (m.mid + (":" + ElemText(m.e))))
  }

  function MembersText(ms: seq<Member>): string
    requires ms != []
    decreases ms, 0
  {
    if |ms| == 1 then MemberText(ms[0]) else MemberText(ms[0]) + ("," + MembersText(ms[1..]))
  }

  // --- strings ---

  function PieceBytes(p: Piece): string
    requires Readable(p)
  {
    match p
    case Plain(c) => [c]
    case Short(e) => [Unescape(e).value]
    case Long(h) => HexBound(h); Utf8(Hex(h))
  }

  /** The bytes a JSON string denotes, as the decoder renders them. */
  function Bytes(ps: seq<Piece>): string
    requires AllReadable(ps)
  {
    if ps == [] then "" else PieceBytes(ps[0]) + Bytes(ps[1..])
  }

  lemma PieceIsItem(p: Piece, rest: string)
    requires Readable(p)
    ensures PieceText(p) != "" && PieceText(p)[0] != '"'
    ensures Item(PieceText(p) + rest) == Some(Token(PieceBytes(p), rest))
  {
    var t := PieceText(p) + rest;
    match p {
      case Plain(_) => assert t[1..] == rest;
      case Short(e) => assert t[1] == e && e != 'u' && t[2..] == rest;
      case Long(h) => assert t[1] == 'u' && t[2..6] == h && t[6..] == rest;
    }
  }

  lemma BodyStep(t: string, i: Token)
    requires t != "" && t[0] != '"' && Item(t) == Some(i) && Body(i.rest).Some?
    ensures Body(t) == Some(Token(i.text + Body(i.rest).value.text, Body(i.rest).value.rest))
  {}

  lemma {:induction false} BodyOfPieces(ps: seq<Piece>, rest: string)
    requires AllReadable(ps)
    ensures Body(PiecesText(ps) + ("\"" + rest)) == Some(Token(Bytes(ps), rest))
    decreases |ps|
  {
    if ps == [] {
      assert PiecesText(ps) + ("\"" + rest) == "\"" + rest;
      assert ("\"" + rest)[1..] == rest;
    } else {
      var tail := PiecesText(ps[1..]) + ("\"" + rest);
      assert PiecesText(ps) + ("\"" + rest) == PieceText(ps[0]) + tail;
      PieceIsItem(ps[0], tail);
      BodyOfPieces(ps[1..], rest);
      BodyStep(PieceText(ps[0]) + tail, Token(PieceBytes(ps[0]), tail));
    }
  }

  /** stringBytes reads any JSON string, and stops right after it. */
  lemma StrOfPieces(ps: seq<Piece>, rest: string)
    requires AllReadable(ps)
    ensures PlaintextCodec.Str(StringText(ps) + rest) == Some(Token(Bytes(ps), rest))
  {
    assert StringText(ps) + rest == "\"" + (PiecesText(ps) + ("\"" + rest));
    BodyOfPieces(ps, rest);
  }

  // --- what else it reads as a string: nothing but unescaped control chars ---

  lemma ItemAhead(t: string) returns (p: Piece)
    requires t != "" && t[0] != '"' && Item(t).Some?
    ensures Readable(p) && t == PieceText(p) + Item(t).value.rest && PieceBytes(p) == Item(t).value.text
  {
    if t[0] != '\\' {
      p := Plain(t[0]);
      assert t == [t[0]] + t[1..];
    } else if t[1] == 'u' {
      p := Long(t[2..6]);
      UnicodeText(t);
    } else {
      p := Short(t[1]);
      assert t == ['\\', t[1]] + t[2..];
    }
  }

  lemma UnicodeText(t: string)
    requires |t| >= 6 && t[0] == '\\' && t[1] == 'u'
    ensures t == PieceText(Long(t[2..6])) + t[6..]
  {
    assert t[..2] == "\\u" && t == t[..2] + t[2..6] + t[6..];
  }

  lemma {:induction false} BodyAhead(t: string) returns (ps: seq<Piece>)
    requires Body(t).Some?
    ensures AllReadable(ps) && t == PiecesText(ps) + (['"'] + Body(t).value.rest) && Bytes(ps) == Body(t).value.text
    decreases |t|
  {
    if t[0] == '"' {
      ps := [];
      assert t == "" + (['"'] + t[1..]);
    } else {
      var p := ItemAhead(t);
      var more := BodyAhead(Item(t).value.rest);
      ps := [p] + more;
      assert ps[1..] == more;
      PieceInFront(p, more, Body(t).value.rest, t);
    }
  }

  lemma PieceInFront(p: Piece, more: seq<Piece>, rest: string, t: string)
    requires t == PieceText(p) + (PiecesText(more) + (['"'] + rest))
    ensures t == PiecesText([p] + more) + (['"'] + rest)
  {
    assert ([p] + more)[1..] == more;
    Associates(PieceText(p), PiecesText(more), ['"'] + rest);
  }

  /** stringBytes takes a text for a string exactly when it begins with readable pieces between quotes, and returns
      their bytes and what follows. */
  lemma StrIff(t: string, text: string, rest: string)
    ensures PlaintextCodec.Str(t) == Some(Token(text, rest))
      <==> exists ps :: AllReadable(ps) && t == StringText(ps) + rest && text == Bytes(ps)
  {
    if PlaintextCodec.Str(t) == Some(Token(text, rest)) {
      var ps := BodyAhead(t[1..]);
      QuotedAhead(t, PiecesText(ps), rest);
    }
    forall ps | AllReadable(ps) && t == StringText(ps) + rest && text == Bytes(ps)
      ensures PlaintextCodec.Str(t) == Some(Token(text, rest))
    {
      StrOfPieces(ps, rest);
    }
  }

  lemma QuotedAhead(t: string, inner: string, rest: string)
    requires t != "" && t[0] == '"' && t[1..] == inner + (['"'] + rest)
    ensures t == "\"" + (inner + "\"") + rest
  {
    assert t == ['"'] + t[1..];
    assert inner + (['"'] + rest) == inner + ['"'] + rest;
  }

  // --- numbers and white space ---

  predicate AllNumberChars(s: string) {
    forall i | 0 <= i < |s| :: NumberChar(s[i])
  }

  lemma NumberTextChars(n: Number)
    requires NumberOk(n)
    ensures NumberText(n) != "" && AllNumberChars(NumberText(n))
    ensures NumberText(n)[0] == '-' || '0' <= NumberText(n)[0] <= '9'
  {
    var a := (if n.minus then "-" else "") + n.whole;
    assert AllNumberChars(a) && (a[0] == '-' || '0' <= a[0] <= '9');
    var b := if n.frac.Some? then "." + n.frac.value else "";
    assert AllNumberChars(b);
    var c := if n.exp.Some? then [n.exp.value.e] + SignText(n.exp.value.sign) + n.exp.value.digits else "";
    assert AllNumberChars(c);
    assert NumberText(n) == a + b + c;
  }

  predicate Ends(rest: string) {
    rest == "" || !NumberChar(rest[0])
  }

  lemma {:induction false} DropNumberOf(s: string, rest: string)
    requires AllNumberChars(s) && Ends(rest)
    ensures DropNumber(s + rest) == rest
    decreases |s|
  {
    if s == "" {
      assert s + rest == rest;
    } else {
      assert (s + rest)[1..] == s[1..] + rest;
      DropNumberOf(s[1..], rest);
    }
  }

  lemma {:induction false} SkipWsOf(w: string, t: string)
    requires Only(w, JSON_SPACE) && (t == "" || t[0] !in JSON_SPACE)
    ensures SkipWs(w + t) == t
    decreases |w|
  {
    if w == "" {
      assert w + t == t;
    } else {
      assert (w + t)[1..] == w[1..] + t;
      SkipWsOf(w[1..], t);
    }
  }

  // --- skipping a value from inside a container ---

  predicate Brackets(open: char, close: char) {
    (open == '{' && close == '}') || (open == '[' && close == ']')
  }

  /** Text without quotes and without the counted brackets is passed over. */
  lemma {:induction false} SkipInert(open: char, close: char, d: int, s: string, rest: string)
    requires forall i | 0 <= i < |s| :: s[i] != '"' && s[i] != open && s[i] != close
    ensures SkipTo(open, close, d, s + rest) == SkipTo(open, close, d, rest)
    decreases |s|
  {
    if s == "" {
      assert s + rest == rest;
    } else {
      assert (s + rest)[1..] == s[1..] + rest;
      SkipInert(open, close, d, s[1..], rest);
    }
  }

  lemma SkipString(open: char, close: char, d: int, ps: seq<Piece>, rest: string)
    requires PiecesOk(ps)
    ensures SkipTo(open, close, d, StringText(ps) + rest) == SkipTo(open, close, d, rest)
  {
    StrOfPieces(ps, rest);
    assert (StringText(ps) + rest)[0] == '"';
  }

  lemma SkipOne(open: char, close: char, d: int, c: char, rest: string)
    requires c != '"' && open != close && open != '"' && close != '"'
    ensures SkipTo(open, close, d, [c] + rest) ==
      if c == open then SkipTo(open, close, d + 1, rest)
      else if c == close then (if d == 1 then Some(rest) else SkipTo(open, close, d - 1, rest))
      else SkipTo(open, close, d, rest)
  {
    assert ([c] + rest)[1..] == rest;
  }

  /** Inside a container, counting one kind of bracket, a whole value of any kind leaves the depth as it
      was: strings hide their brackets, and brackets of either kind come in pairs. */
  lemma {:induction false} SkipInside(open: char, close: char, d: int, j: Json, rest: string)
    requires Brackets(open, close) && d >= 1 && Ok(j)
    ensures SkipTo(open, close, d, Render(j) + rest) == SkipTo(open, close, d, rest)
    decreases j, 1
  {
    match j {
      case Null => SkipInert(open, close, d, "null", rest);
      case True => SkipInert(open, close, d, "true", rest);
      case False => SkipInert(open, close, d, "false", rest);
      case Num(n) =>
        NumberTextChars(n);
        SkipInert(open, close, d, NumberText(n), rest);
      case Str(ps) => SkipString(open, close, d, ps, rest);
      case Arr(b, es) =>
        var inner := if es == [] then b else ElemsText(es);
        var d' := if open == '[' then d + 1 else d;
        assert Render(j) + rest == ['['] + (inner + ([']'] + rest));
        if es == [] { SkipInert(open, close, d', b, [']'] + rest); } else { SkipElems(open, close, d', es, [']'] + rest); }
        SkipPair(open, close, d, '[', ']', inner, rest);
      case Obj(b, ms) =>
        var inner := if ms == [] then b else MembersText(ms);
        var d' := if open == '{' then d + 1 else d;
        assert Render(j) + rest == ['{'] + (inner + (['}'] + rest));
        if ms == [] { SkipInert(open, close, d', b, ['}'] + rest); } else { SkipMembers(open, close, d', ms, ['}'] + rest); }
        SkipPair(open, close, d, '{', '}', inner, rest);
    }
  }

  /** A bracketed text whose inside keeps the depth: brackets of the other kind count for nothing. */
  lemma SkipPair(open: char, close: char, d: int, o: char, c: char, inner: string, rest: string)
    requires Brackets(open, close) && Brackets(o, c) && (d >= 1 || (d == 0 && o == open))
    requires var d' := if o == open then d + 1 else d;
      SkipTo(open, close, d', inner + ([c] + rest)) == SkipTo(open, close, d', [c] + rest)
    ensures SkipTo(open, close, d, [o] + (inner + ([c] + rest))) ==
      if d == 0 then Some(rest) else SkipTo(open, close, d, rest)
  {
    var d' := if o == open then d + 1 else d;
    SkipOne(open, close, d, o, inner + ([c] + rest));
    SkipOne(open, close, d', c, rest);
  }

  lemma {:induction false} SkipElem(open: char, close: char, d: int, e: Elem, rest: string)
    requires Brackets(open, close) && d >= 1 && ElemOk(e)
    ensures SkipTo(open, close, d, ElemText(e) + rest) == SkipTo(open, close, d, rest)
    decreases e, 0
  {
    assert ElemText(e) + rest == e.before + (Render(e.v) + (e.after + rest));
    SkipInert(open, close, d, e.before, Render(e.v) + (e.after + rest));
    SkipInside(open, close, d, e.v, e.after + rest);
    SkipInert(open, close, d, e.after, rest);
  }

  lemma {:induction false} SkipElems(open: char, close: char, d: int, es: seq<Elem>, rest: string)
    requires Brackets(open, close) && d >= 1 && es != [] && forall i | 0 <= i < |es| :: ElemOk(es[i])
    ensures SkipTo(open, close, d, ElemsText(es) + rest) == SkipTo(open, close, d, rest)
    decreases es, 0
  {
    if |es| == 1 {
      SkipElem(open, close, d, es[0], rest);
    } else {
      var tail := ElemsText(es[1..]) + rest;
      assert ElemsText(es) + rest == ElemText(es[0]) + ([','] + tail);
      SkipElem(open, close, d, es[0], [','] + tail);
      SkipOne(open, close, d, ',', tail);
      SkipElems(open, close, d, es[1..], rest);
    }
  }

  lemma {:induction false} SkipMember(open: char, close: char, d: int, m: Member, rest: string)
    requires Brackets(open, close) && d >= 1 && MemberOk(m)
    ensures SkipTo(open, close, d, MemberText(m) + rest) == SkipTo(open, close, d, rest)
    decreases m, 0
  {
    var tail := [':'] + (ElemText(m.e) + rest);
    assert MemberText(m) + rest == m.before + (StringText(m.key) + (m.mid + tail));
    SkipInert(open, close, d, m.before, StringText(m.key) + (m.mid + tail));
    SkipString(open, close, d, m.key, m.mid + tail);
    SkipInert(open, close, d, m.mid, tail);
    SkipOne(open, close, d, ':', ElemText(m.e) + rest);
    SkipElem(open, close, d, m.e, rest);
  }

  lemma {:induction false} SkipMembers(open: char, close: char, d: int, ms: seq<Member>, rest: string)
    requires Brackets(open, close) && d >= 1 && ms != [] && forall i | 0 <= i < |ms| :: MemberOk(ms[i])
    ensures SkipTo(open, close, d, MembersText(ms) + rest) == SkipTo(open, close, d, rest)
    decreases ms, 0
  {
    if |ms| == 1 {
      SkipMember(open, close, d, ms[0], rest);
    } else {
      var tail := MembersText(ms[1..]) + rest;
      assert MembersText(ms) + rest == MemberText(ms[0]) + ([','] + tail);
      SkipMember(open, close, d, ms[0], [','] + tail);
      SkipOne(open, close, d, ',', tail);
      SkipMembers(open, close, d, ms[1..], rest);
    }
  }

  // --- skipping a value from outside ---

  /** skipValue consumes exactly one value of any kind. A number ends where number chars end. */
  lemma SkipValueOf(j: Json, rest: string)
    requires Ok(j) && Ends(rest)
    ensures SkipValue(Render(j) + rest) == Some(rest)
  {
    var t := Render(j) + rest;
    FirstChar(j);
    assert t[0] == Render(j)[0];
    match j {
      case Null => assert t[|"null"|..] == rest;
      case True => assert t[|"true"|..] == rest;
      case False => assert t[|"false"|..] == rest;
      case Num(n) =>
        NumberTextChars(n);
        DropNumberOf(NumberText(n), rest);
      case Str(ps) => StrOfPieces(ps, rest);
      case Arr(_, _) => SkipArrayOf(j, rest);
      case Obj(_, _) => SkipObjectOf(j, rest);
    }
  }

  lemma SkipArrayOf(j: Json, rest: string)
    requires Ok(j) && j.Arr?
    ensures SkipContainer(Render(j) + rest) == Some(rest)
  {
    var inner := if j.elems == [] then j.blank else ElemsText(j.elems);
    assert Render(j) + rest == ['['] + (inner + ([']'] + rest));
    if j.elems == [] {
      SkipInert('[', ']', 1, j.blank, [']'] + rest);
    } else {
      SkipElems('[', ']', 1, j.elems, [']'] + rest);
    }
    SkipPair('[', ']', 0, '[', ']', inner, rest);
  }

  lemma SkipObjectOf(j: Json, rest: string)
    requires Ok(j) && j.Obj?
    ensures SkipContainer(Render(j) + rest) == Some(rest)
  {
    var inner := if j.members == [] then j.blank else MembersText(j.members);
    assert Render(j) + rest == ['{'] + (inner + (['}'] + rest));
    if j.members == [] {
      SkipInert('{', '}', 1, j.blank, ['}'] + rest);
    } else {
      SkipMembers('{', '}', 1, j.members, ['}'] + rest);
    }
    SkipPair('{', '}', 0, '{', '}', inner, rest);
  }

  /** The first char tells the kind of a value. */
  lemma FirstChar(j: Json)
    requires Ok(j)
    ensures Render(j) != "" && Render(j)[0] !in JSON_SPACE
    ensures Render(j)[0] == '"' <==> j.Str?
    ensures NumberChar(Render(j)[0]) <==> j.Num?
    ensures j.Num? ==> Render(j)[0] != 'e' && Render(j)[0] != 'E'
    ensures Render(j)[0] == '[' <==> j.Arr?
    ensures Render(j)[0] == '{' <==> j.Obj?
    ensures Render(j)[0] == 't' <==> j.True?
    ensures Render(j)[0] == 'f' <==> j.False?
    ensures Render(j)[0] == 'n' <==> j.Null?
  {
    if j.Num? { NumberTextChars(j.n); }
  }

  // --- the decoder on whole objects ---

  /** What the members of an object mean for a wallet: the last mnemonic and passphrase win, both must
      be strings, the version must be a number, and any other member is of no account. */
  ghost function Eval(ms: seq<Member>, f: Fields): Option<Fields>
    requires forall i | 0 <= i < |ms| :: MemberOk(ms[i])
  {
    if ms == [] then Some(f)
    else
      var g := EvalMember(ms[0], f);
      if g.None? then None else Eval(ms[1..], g.value)
  }

  ghost function EvalMember(m: Member, f: Fields): Option<Fields>
    requires MemberOk(m)
  {
    assert ElemOk(m.e) && Ok(m.e.v);
    var key := Bytes(m.key);
    if key == "mnemonic" then (if m.e.v.Str? then Some(f.(mnemonic := Some(Bytes(m.e.v.pieces)))) else None)
    else if key == "bip39_passphrase" then (if m.e.v.Str? then Some(f.(passphrase := Some(Bytes(m.e.v.pieces)))) else None)
    else if key == "v" then (if m.e.v.Num? then Some(f) else None)
    else Some(f)
  }

  lemma FieldValueOf(m: Member, f: Fields, rest: string)
    requires MemberOk(m) && Ends(rest)
    ensures EvalMember(m, f).None? ==> FieldValue(Bytes(m.key), Render(m.e.v) + rest, f).None?
    ensures EvalMember(m, f).Some? ==>
      FieldValue(Bytes(m.key), Render(m.e.v) + rest, f) == Some((EvalMember(m, f).value, rest))
  {
    var v := m.e.v;
    FirstChar(v);
    assert (Render(v) + rest)[0] == Render(v)[0];
    SkipValueOf(v, rest);
    if v.Str? { StrOfPieces(v.pieces, rest); }
    if v.Num? {
      NumberTextChars(v.n);
      DropNumberOf(NumberText(v.n), rest);
    }
  }

  lemma EndsAfterSpace(w: string, c: char, rest: string)
    requires Only(w, JSON_SPACE) && !NumberChar(c)
    ensures Ends(w + ([c] + rest))
  {
    if w != "" { assert w[0] in JSON_SPACE; }
  }

  /** What the loop does after a field's value. */
  function Continue(f: Fields, t: string): Option<Fields> {
    var n := SkipWs(t);
    if n != "" && n[0] == ',' then DecodeFields(n[1..], f)
    else if n != "" && n[0] == '}' then Some(f)
    else None
  }

  /** One turn of the loop, at a key. */
  lemma DecodeStep(space: string, key: seq<Piece>, mid: string, before: string, value: string, f: Fields)
    requires Only(space, JSON_SPACE) && Only(mid, JSON_SPACE) && Only(before, JSON_SPACE) && PiecesOk(key)
    requires value != "" && value[0] !in JSON_SPACE
    ensures var r := FieldValue(Bytes(key), value, f);
      DecodeFields(space + (StringText(key) + (mid + ([':'] + (before + value)))), f) ==
      if r.None? then None else Continue(r.value.0, r.value.1)
  {
    var colon := [':'] + (before + value);
    var t := StringText(key) + (mid + colon);
    SkipWsOf(space, t);
    StrOfPieces(key, mid + colon);
    SkipWsOf(mid, colon);
    assert colon[1..] == before + value;
    SkipWsOf(before, value);
  }

  /** One member, followed by a comma or the closing brace. */
  lemma DecodeMember(m: Member, f: Fields, c: char, rest: string)
    requires MemberOk(m) && (c == ',' || c == '}')
    ensures DecodeFields(MemberText(m) + ([c] + rest), f) ==
      if EvalMember(m, f).None? then None
      else if c == ',' then DecodeFields(rest, EvalMember(m, f).value)
      else EvalMember(m, f)
  {
    var end := m.e.after + ([c] + rest);
    var value := Render(m.e.v) + end;
    MemberTextSplit(m, [c] + rest);
    FirstChar(m.e.v);
    assert value[0] == Render(m.e.v)[0];
    DecodeStep(m.before, m.key, m.mid, m.e.before, value, f);
    EndsAfterSpace(m.e.after, c, rest);
    FieldValueOf(m, f, end);
    SkipWsOf(m.e.after, [c] + rest);
    assert ([c] + rest)[1..] == rest;
  }

  lemma MemberTextSplit(m: Member, rest: string)
    ensures MemberText(m) + rest
      == m.before + (StringText(m.key) + (m.mid + ([':'] + (m.e.before + (Render(m.e.v) + (m.e.after + rest))))))
  {
    var e := ElemText(m.e);
    assert e + rest == m.e.before + (Render(m.e.v) + (m.e.after + rest));
    assert MemberText(m) + rest == m.before + (StringText(m.key) + (m.mid + ([':'] + (e + rest))));
  }

  lemma {:induction false} DecodeMembers(ms: seq<Member>, f: Fields, rest: string)
    requires ms != [] && forall i | 0 <= i < |ms| :: MemberOk(ms[i])
    ensures DecodeFields(MembersText(ms) + (['}'] + rest), f) == Eval(ms, f)
    decreases |ms|
  {
    if |ms| == 1 {
      DecodeMember(ms[0], f, '}', rest);
      assert ms[1..] == [];
    } else {
      var tail := MembersText(ms[1..]) + (['}'] + rest);
      assert MembersText(ms) + (['}'] + rest) == MemberText(ms[0]) + ([','] + tail);
      DecodeMember(ms[0], f, ',', tail);
      if EvalMember(ms[0], f).Some? { DecodeMembers(ms[1..], EvalMember(ms[0], f).value, rest); }
    }
  }

  /** On every well-formed JSON object, however it is spaced and whatever else it holds, the decoder
      returns exactly what the members mean. */
  lemma DecodeIsEval(space: string, blank: string, ms: seq<Member>, rest: string)
    requires Only(space, JSON_SPACE) && Ok(Obj(blank, ms))
    ensures Decode(space + (Render(Obj(blank, ms)) + rest)) == Finish(Eval(ms, Fields(None, None)))
  {
    var inner := if ms == [] then blank else MembersText(ms);
    var t := ['{'] + (inner + (['}'] + rest));
    assert Render(Obj(blank, ms)) + rest == t;
    SkipWsOf(space, t);
    assert t[1..] == inner + (['}'] + rest);
    if ms == [] {
      SkipWsOf(blank, ['}'] + rest);
    } else {
      DecodeMembers(ms, Fields(None, None), rest);
    }
  }

  predicate Known(key: string) {
    key == "mnemonic" || key == "bip39_passphrase" || key == "v"
  }

  lemma {:induction false} EvalIgnoresUnknown(a: seq<Member>, m: Member, b: seq<Member>, f: Fields)
    requires forall i | 0 <= i < |a| :: MemberOk(a[i])
    requires forall i | 0 <= i < |b| :: MemberOk(b[i])
    requires MemberOk(m) && !Known(Bytes(m.key))
    ensures Eval(a + [m] + b, f) == Eval(a + b, f)
    decreases |a|
  {
    if a == [] {
      assert a + [m] + b == [m] + b && ([m] + b)[1..] == b && a + b == b;
    } else {
      assert (a + [m] + b)[1..] == a[1..] + [m] + b && (a + b)[1..] == a[1..] + b;
      var g := EvalMember(a[0], f);
      if g.Some? { EvalIgnoresUnknown(a[1..], m, b, g.value); }
    }
  }

  /** Forward compatibility: an unknown member with any JSON value, at any position of any object,
      changes nothing, not even which objects are refused. */
  lemma UnknownFieldIgnored(
    space: string, blank: string, a: seq<Member>, m: Member, b: seq<Member>, blank': string, rest: string)
    requires Only(space, JSON_SPACE) && Ok(Obj(blank, a + [m] + b)) && Ok(Obj(blank', a + b))
    requires MemberOk(m) && !Known(Bytes(m.key))
    ensures Decode(space + (Render(Obj(blank, a + [m] + b)) + rest)) == Decode(space + (Render(Obj(blank', a + b)) + rest))
  {
    DecodeIsEval(space, blank, a + [m] + b, rest);
    DecodeIsEval(space, blank', a + b, rest);
    assert forall i | 0 <= i < |a| :: (a + b)[i] == a[i];
    assert forall i | 0 <= i < |b| :: (a + b)[|a| + i] == b[i];
    assert (a + [m] + b)[|a|] == m;
    EvalIgnoresUnknown(a, m, b, Fields(None, None));
  }

  // --- what the encoder writes is such an object ---

  function PieceOf(c: char): (p: Piece)
  {
    if c == '"' || c == '\\' then Short(c)
    else if c == '\n' then Short('n')
    else if c == '\r' then Short('r')
    else if c == '\t' then Short('t')
    else if c < ' ' then Long("00" + [HEX_DIGITS[c as int / 16], HEX_DIGITS[c as int % 16]])
    else Plain(c)
  }

  function PiecesOf(s: string): (ps: seq<Piece>)
  {
    if s == "" then [] else [PieceOf(s[0])] + PiecesOf(s[1..])
  }

  lemma PieceOfByte(c: char)
    ensures PieceOk(PieceOf(c)) && PieceBytes(PieceOf(c)) == [c] && PieceText(PieceOf(c)) == Escaped(c)
  {
    if c < ' ' && c != '\n' && c != '\r' && c != '\t' {
      HexOfByte(c as int);
    }
  }

  lemma HexOfByte(x: nat)
    requires x < 32
    ensures Hex("00" + [HEX_DIGITS[x / 16], HEX_DIGITS[x % 16]]) == x
  {
    var s := "00" + [HEX_DIGITS[x / 16], HEX_DIGITS[x % 16]];
    assert s[..3][..2] == "00" && s[..3] == "00" + [HEX_DIGITS[x / 16]] && "00"[..1] == "0" && "0"[..0] == "";
    assert Hex("0") == 0 && Hex("00") == 0;
    assert HexValue(HEX_DIGITS[x / 16]) == x / 16 && HexValue(HEX_DIGITS[x % 16]) == x % 16;
    assert Hex(s[..3]) == x / 16;
  }

  /** The escapes chosen by the encoder are legal and denote the bytes they stand for. */
  lemma {:induction false} PiecesOfBytes(s: string)
    ensures PiecesOk(PiecesOf(s)) && Bytes(PiecesOf(s)) == s && PiecesText(PiecesOf(s)) == EscapedAll(s)
  {
    if s != "" {
      PieceOfByte(s[0]);
      PiecesOfBytes(s[1..]);
      var ps := PiecesOf(s);
      assert ps[1..] == PiecesOf(s[1..]);
      assert forall i | 0 < i < |ps| :: ps[i] == ps[1..][i - 1];
      assert s == [s[0]] + s[1..];
    }
  }

  function FieldOf(key: string, v: Json): Member {
    Member("", PiecesOf(key), "", Elem("", v, ""))
  }

  const ONE := Num(Number(false, "1", None, None))

  function EncodedMembers(mnemonic: string, passphrase: string): seq<Member> {
    [FieldOf("v", ONE), FieldOf("mnemonic", Str(PiecesOf(mnemonic))), FieldOf("bip39_passphrase", Str(PiecesOf(passphrase)))]
  }

  predicate NoEscapes(s: string) {
    forall i | 0 <= i < |s| :: s[i] >= ' ' && s[i] != '"' && s[i] != '\\'
  }

  lemma {:induction false} UnescapedText(s: string)
    requires NoEscapes(s)
    ensures EscapedAll(s) == s
  {
    if s != "" {
      UnescapedText(s[1..]);
      assert s == [s[0]] + s[1..];
    }
  }

  lemma BareField(key: string, v: Json)
    ensures MemberText(FieldOf(key, v)) == StringText(PiecesOf(key)) + (":" + Render(v))
  {
    var e := Elem("", v, "");
    assert ElemText(e) == e.before + (Render(e.v) + e.after);
  }

  lemma QuotedText(s: string)
    ensures StringText(PiecesOf(s)) == Quoted(s)
  {
    PiecesOfBytes(s);
  }

  lemma FieldText(key: string, v: Json)
    requires NoEscapes(key)
    ensures MemberText(FieldOf(key, v)) == ("\"" + key + "\":") + Render(v)
  {
    BareField(key, v);
    QuotedText(key);
    UnescapedText(key);
    assert Quoted(key) + (":" + Render(v)) == ("\"" + key + "\":") + Render(v);
  }

  lemma MembersTextOfThree(a: Member, b: Member, c: Member)
    ensures MembersText([a, b, c]) == MemberText(a) + ("," + (MemberText(b) + ("," + MemberText(c))))
  {
    assert [a, b, c][1..] == [b, c] && [b, c][1..] == [c];
    assert MembersText([c]) == MemberText(c);
    assert MembersText([b, c]) == MemberText(b) + ("," + MembersText([c]));
  }

  lemma EncodeIsObject(mnemonic: string, passphrase: string)
    ensures Encode(mnemonic, passphrase) == Render(Obj("", EncodedMembers(mnemonic, passphrase)))
  {
    var ms := EncodedMembers(mnemonic, passphrase);
    VersionText();
    MnemonicText("mnemonic", mnemonic);
    PassphraseText("bip39_passphrase", passphrase);
    RenderThree(ms[0], ms[1], ms[2]);
    ThreeFields(MemberText(ms[0]), MemberText(ms[1]), MemberText(ms[2]), Quoted(mnemonic), Quoted(passphrase));
  }

  lemma VersionText()
    ensures MemberText(FieldOf("v", ONE)) == "\"v\":1"
  {
    FieldText("v", ONE);
    assert NumberText(ONE.n) == "1";
  }

  lemma StringFieldText(key: string, s: string)
    requires NoEscapes(key)
    ensures MemberText(FieldOf(key, Str(PiecesOf(s)))) == ("\"" + key + "\":") + Quoted(s)
  {
    FieldText(key, Str(PiecesOf(s)));
    QuotedText(s);
  }

  lemma MnemonicText(key: string, s: string)
    requires key == "mnemonic"
    ensures MemberText(FieldOf(key, Str(PiecesOf(s)))) == "\"mnemonic\":" + Quoted(s)
  {
    assert "\"" + key + "\":" == "\"mnemonic\":";
    StringFieldText(key, s);
  }

  lemma PassphraseText(key: string, s: string)
    requires key == "bip39_passphrase"
    ensures MemberText(FieldOf(key, Str(PiecesOf(s)))) == "\"bip39_passphrase\":" + Quoted(s)
  {
    assert "\"" + key + "\":" == "\"bip39_passphrase\":";
    StringFieldText(key, s);
  }

  lemma RenderThree(a: Member, b: Member, c: Member)
    ensures Render(Obj("", [a, b, c])) == "{" + ((MemberText(a) + ("," + (MemberText(b) + ("," + MemberText(c))))) + "}")
  {
    MembersTextOfThree(a, b, c);
  }

  lemma ThreeFields(x: string, y: string, z: string, m: string, b: string)
    requires x == "\"v\":1" && y == "\"mnemonic\":" + m && z == "\"bip39_passphrase\":" + b
    ensures "{" + ((x + ("," + (y + ("," + z)))) + "}") == "{\"v\":1,\"mnemonic\":" + m + ",\"bip39_passphrase\":" + b + "}"
  {}

  lemma StringFieldOk(key: string, s: string)
    ensures MemberOk(FieldOf(key, Str(PiecesOf(s))))
  {
    PiecesOfBytes(key);
    PiecesOfBytes(s);
    assert Ok(Str(PiecesOf(s)));
  }

  lemma EncodedMembersOk(mnemonic: string, passphrase: string)
    ensures forall i | 0 <= i < 3 :: MemberOk(EncodedMembers(mnemonic, passphrase)[i])
    ensures Ok(Obj("", EncodedMembers(mnemonic, passphrase)))
  {
    StringFieldOk("mnemonic", mnemonic);
    StringFieldOk("bip39_passphrase", passphrase);
    VersionFieldOk();
    var ms := EncodedMembers(mnemonic, passphrase);
    ThreeOk(ms[0], ms[1], ms[2]);
  }

  lemma VersionFieldOk()
    ensures MemberOk(FieldOf("v", ONE)) && Bytes(FieldOf("v", ONE).key) == "v"
  {
    PiecesOfBytes("v");
    assert Ok(ONE);
  }

  lemma ThreeOk(a: Member, b: Member, c: Member)
    requires MemberOk(a) && MemberOk(b) && MemberOk(c)
    ensures Ok(Obj("", [a, b, c]))
    ensures forall i | 0 <= i < 3 :: MemberOk([a, b, c][i])
  {}

  lemma EvalStringField(key: string, s: string, f: Fields)
    requires key == "mnemonic" || key == "bip39_passphrase"
    ensures MemberOk(FieldOf(key, Str(PiecesOf(s))))
    ensures EvalMember(FieldOf(key, Str(PiecesOf(s))), f)
      == Some(if key == "mnemonic" then f.(mnemonic := Some(s)) else f.(passphrase := Some(s)))
  {
    StringFieldOk(key, s);
    PiecesOfBytes(key);
    PiecesOfBytes(s);
  }

  /** The round trip, for all bytes whatever; only the empty mnemonic is refused. */
  lemma DecodeInvertsEncode(mnemonic: string, passphrase: string)
    ensures Decode(Encode(mnemonic, passphrase)) == if mnemonic == "" then None else Some((mnemonic, passphrase))
  {
    var ms := EncodedMembers(mnemonic, passphrase);
    EncodedMembersOk(mnemonic, passphrase);
    assert "" + (Render(Obj("", ms)) + "") == Encode(mnemonic, passphrase) by { EncodeIsObject(mnemonic, passphrase); }
    DecodeIsEval("", "", ms, "");
    EvalEncoded(mnemonic, passphrase);
  }

  lemma EvalEncoded(mnemonic: string, passphrase: string)
    requires forall i | 0 <= i < 3 :: MemberOk(EncodedMembers(mnemonic, passphrase)[i])
    ensures Eval(EncodedMembers(mnemonic, passphrase), Fields(None, None)) == Some(Fields(Some(mnemonic), Some(passphrase)))
  {
    var ms := EncodedMembers(mnemonic, passphrase);
    VersionFieldOk();
    assert EvalMember(ms[0], Fields(None, None)) == Some(Fields(None, None));
    EvalStringField("mnemonic", mnemonic, Fields(None, None));
    EvalStringField("bip39_passphrase", passphrase, Fields(Some(mnemonic), None));
    EvalOfThree(ms[0], ms[1], ms[2], Fields(None, None));
  }

  lemma EvalOfThree(a: Member, b: Member, c: Member, f: Fields)
    requires MemberOk(a) && MemberOk(b) && MemberOk(c)
    requires EvalMember(a, f).Some? && EvalMember(b, EvalMember(a, f).value).Some?
    ensures Eval([a, b, c], f) == EvalMember(c, EvalMember(b, EvalMember(a, f).value).value)
  {
    assert [a, b, c][1..] == [b, c] && [b, c][1..] == [c] && [c][1..] == [];
    var g := EvalMember(b, EvalMember(a, f).value).value;
    assert Eval([c], g) == EvalMember(c, g);
    assert Eval([b, c], EvalMember(a, f).value) == Eval([c], g);
  }
}
