/** Which JSON strings the wallet plaintext decoder reads as the Unicode text they denote. */
module PlaintextUnicode {
  import opened Text
  import opened PlaintextCodec
  import opened PlaintextJson

  predicate HighSurrogate(u: int) {
    0xD800 <= u < 0xDC00
  }

  predicate LowSurrogate(u: int) {
    0xDC00 <= u < 0xE000
  }

  predicate Surrogate(u: int) {
    HighSurrogate(u) || LowSurrogate(u)
  }

  /** A byte that carries a payload below `size` after the bits of `mark`. */
  predicate Marked(c: char, mark: int, size: int) {
    mark <= c as int < mark + size
  }

  function Payload(c: char, mark: int): int {
    c as int - mark
  }

  function Width(u: int): nat {
    if u < 0x80 then 1 else if u < 0x800 then 2 else if u < 0x10000 then 3 else 4
  }

  /** `b` is the code point `u` in UTF-8, by the table in section 3 of RFC 3629; surrogates have no encoding. */
  predicate Utf8Of(b: string, u: int) {
    && |b| == Width(u) && 0 <= u < 0x110000 && !Surrogate(u)
    && (forall i | 1 <= i < |b| :: Marked(b[i], 0x80, 64))
    && if |b| == 1 then b[0] as int == u
       else if |b| == 2 then Marked(b[0], 0xC0, 32) && Payload(b[0], 0xC0) * 64 + Payload(b[1], 0x80) == u
       else if |b| == 3 then
         Marked(b[0], 0xE0, 16) && (Payload(b[0], 0xE0) * 64 + Payload(b[1], 0x80)) * 64 + Payload(b[2], 0x80) == u
       else
         && Marked(b[0], 0xF0, 8)
         && ((Payload(b[0], 0xF0) * 64 + Payload(b[1], 0x80)) * 64 + Payload(b[2], 0x80)) * 64 + Payload(b[3], 0x80) == u
  }

  /** The bytes of an escape are right exactly for code points that have an encoding. */
  lemma EscapeRightIff(u: nat)
    requires u < 0x10000
    ensures Utf8Of(Utf8(u), u) <==> !Surrogate(u)
    ensures |Utf8(u)| == Width(u)
  {
    if u < 0x80 {
    } else if u < 0x800 {
      TwoBytes(u);
    } else {
      ThreeBytes(u);
    }
  }

  lemma TwoBytes(u: nat)
    requires 0x80 <= u < 0x800
    ensures var b := Utf8(u);
      |b| == 2 && Marked(b[0], 0xC0, 32) && Marked(b[1], 0x80, 64) && Payload(b[0], 0xC0) * 64 + Payload(b[1], 0x80) == u
  {}

  lemma ThreeBytes(u: nat)
    requires 0x800 <= u < 0x10000
    ensures var b := Utf8(u);
      && |b| == 3 && Marked(b[0], 0xE0, 16) && Marked(b[1], 0x80, 64) && Marked(b[2], 0x80, 64)
      && (Payload(b[0], 0xE0) * 64 + Payload(b[1], 0x80)) * 64 + Payload(b[2], 0x80) == u
  {
    assert u / 64 == u / 4096 * 64 + u / 64 % 64;
  }

  /** The code point of a surrogate pair. */
  function Paired(high: int, low: int): int {
    0x10000 + (high - 0xD800) * 0x400 + (low - 0xDC00)
  }

  /** The two-character escapes of section 7 of RFC 8259. */
  predicate Escapes(e: char, c: char) {
    || (e == c && (e == '"' || e == '\\' || e == '/'))
    || (e == 'b' && c as int == 0x08) || (e == 'f' && c as int == 0x0C) || (e == 'n' && c as int == 0x0A)
    || (e == 'r' && c as int == 0x0D) || (e == 't' && c as int == 0x09)
  }

  /** `b` is the text of a JSON string in UTF-8, by section 7 of RFC 8259: unescaped bytes stand for themselves, an
      escaped surrogate pair for one code point, and a surrogate on its own for nothing. */
  predicate Denotes(ps: seq<Piece>, b: string)
    requires AllReadable(ps)
    decreases |ps|
  {
    if ps == [] then b == ""
    else
      match ps[0]
      case Plain(c) => b != "" && b[0] == c && Denotes(ps[1..], b[1..])
      case Short(e) => b != "" && Escapes(e, b[0]) && Denotes(ps[1..], b[1..])
      case Long(h) =>
        if HighSurrogate(Hex(h)) then
          && |ps| > 1 && ps[1].Long? && LowSurrogate(Hex(ps[1].hex))
          && 4 <= |b| && Utf8Of(b[..4], Paired(Hex(h), Hex(ps[1].hex))) && Denotes(ps[2..], b[4..])
        else
          var n := Width(Hex(h));
          n <= |b| && Utf8Of(b[..n], Hex(h)) && Denotes(ps[1..], b[n..])
  }


  predicate NoSurrogates(ps: seq<Piece>) {
    forall i | 0 <= i < |ps| :: ps[i].Long? ==> !Surrogate(Hex(ps[i].hex))
  }

  lemma EscapeBytes(h: string)
    requires |h| == 4 && Hex(h) >= 0
    ensures Hex(h) < 0x10000 && PieceBytes(Long(h)) == Utf8(Hex(h)) && |PieceBytes(Long(h))| == Width(Hex(h))
    ensures Utf8Of(PieceBytes(Long(h)), Hex(h)) <==> !Surrogate(Hex(h))
  {
    HexBound(h);
    EscapeRightIff(Hex(h));
  }

  /** The decoder gives the UTF-8 of a string's text exactly when the string has no surrogate escape. */
  lemma {:induction false} DecodedRightIff(ps: seq<Piece>)
    requires AllReadable(ps)
    ensures Denotes(ps, Bytes(ps)) <==> NoSurrogates(ps)
    decreases |ps|
  {
    if ps != [] {
      DecodedRightIff(ps[1..]);
      NoneInRest(ps);
      assert Bytes(ps)[|PieceBytes(ps[0])|..] == Bytes(ps[1..]);
      if ps[0].Long? {
        EscapeBytes(ps[0].hex);
        assert Bytes(ps)[..|PieceBytes(ps[0])|] == PieceBytes(ps[0]);
        if HighSurrogate(Hex(ps[0].hex)) {
          SurrogateIsWrong(ps);
        }
      }
    }
  }

  lemma NoneInRest(ps: seq<Piece>)
    requires ps != []
    ensures NoSurrogates(ps) <==> (ps[0].Long? ==> !Surrogate(Hex(ps[0].hex))) && NoSurrogates(ps[1..])
  {
    assert forall i | 1 <= i < |ps| :: ps[i] == ps[1..][i - 1];
  }

  /** A pair's four bytes do not begin like the three of a surrogate. */
  lemma SurrogateIsWrong(ps: seq<Piece>)
    requires AllReadable(ps) && ps != [] && ps[0].Long? && HighSurrogate(Hex(ps[0].hex))
    ensures !Denotes(ps, Bytes(ps))
  {
    EscapeBytes(ps[0].hex);
    assert Bytes(ps)[0] == Utf8(Hex(ps[0].hex))[0] == (0xE0 + Hex(ps[0].hex) / 4096) as char;
  }

  /** So every escaped pair, a legal string with a text of its own, is decoded to something else. */
  lemma PairDecodesWrong(high: string, low: string)
    requires |high| == 4 && |low| == 4 && HighSurrogate(Hex(high)) && LowSurrogate(Hex(low))
    ensures var ps := [Long(high), Long(low)]; PiecesOk(ps) && !Denotes(ps, Bytes(ps)) && exists b :: Denotes(ps, b)
  {
    var ps := [Long(high), Long(low)];
    SurrogateIsWrong(ps);
    var u := Paired(Hex(high), Hex(low));
    var b := [(0xF0 + u / 0x40000) as char, (0x80 + u / 0x1000 % 64) as char, (0x80 + u / 64 % 64) as char,
              (0x80 + u % 64) as char];
    FourBytes(u, b);
    assert b[..4] == b && ps[2..] == [] && b[4..] == "";
    assert Denotes(ps, b);
  }

  lemma FourBytes(u: int, b: string)
    requires 0x10000 <= u < 0x110000
    requires b == [(0xF0 + u / 0x40000) as char, (0x80 + u / 0x1000 % 64) as char, (0x80 + u / 64 % 64) as char,
                   (0x80 + u % 64) as char]
    ensures Utf8Of(b, u)
  {
    assert u / 0x1000 == u / 0x40000 * 64 + u / 0x1000 % 64;
    assert u / 64 == u / 0x1000 * 64 + u / 64 % 64;
  }
}
