/** internal/keys/codec.go: the encoder and the string-free decoder of the wallet plaintext. */
module PlaintextCodec {
  import opened Text

  // --- what each scanner method reads, as a function of the text still ahead ---

  function HexValue(c: char): (d: int)
    ensures -1 <= d < 16
  {
    if '0' <= c <= '9' then c as int - '0' as int
    else if 'a' <= c <= 'f' then c as int - 'a' as int + 10
    else if 'A' <= c <= 'F' then c as int - 'A' as int + 10
    else -1
  }

  /** parseHex4's loop: `r<<4 | d` over the digits. */
  function Hex(s: string): (r: int)
    ensures r >= -1
  {
    if s == "" then 0
    else
      var r, d := Hex(s[..|s| - 1]), HexValue(s[|s| - 1]);
      if r < 0 || d < 0 then -1 else r * 16 + d
  }

  lemma {:induction false} HexBound(s: string)
    requires |s| <= 4
    ensures Hex(s) < if |s| == 0 then 1 else if |s| == 1 then 16 else if |s| == 2 then 256 else if |s| == 3 then 4096 else 65536
  {
    if s != "" {
      HexBound(s[..|s| - 1]);
    }
  }

  /** appendRune's bytes for a code point of the basic plane. */
  function Utf8(u: nat): string
    requires u < 0x10000
  {
    if u < 0x80 then [u as char]
    else if u < 0x800 then [(0xC0 + u / 64) as char, (0x80 + u % 64) as char]
    else [(0xE0 + u / 4096) as char, (0x80 + u / 64 % 64) as char, (0x80 + u % 64) as char]
  }

  /** The byte a one-letter escape stands for. */
  function Unescape(e: char): Option<char> {
    if e == '"' || e == '\\' || e == '/' then Some(e)
    else if e == 'n' then Some('\n')
    else if e == 'r' then Some('\r')
    else if e == 't' then Some('\t')
    else if e == 'b' then Some('\U{8}')
    else if e == 'f' then Some('\U{C}')
    else None
  }

  datatype Token = Token(text: string, rest: string)

  /** One item of a string body (not the closing quote): its bytes and what follows. */
  function Item(t: string): (r: Option<Token>)
    requires t != "" && t[0] != '"'
    ensures r.Some? ==> |r.value.rest| < |t|
  {
    if t[0] != '\\' then Some(Token([t[0]], t[1..]))
    else if |t| < 2 then None
    else if t[1] == 'u' then
      if |t| < 6 || Hex(t[2..6]) < 0 then None
      else
        HexBound(t[2..6]);
        Some(Token(Utf8(Hex(t[2..6])), t[6..]))
    else if Unescape(t[1]).Some? then Some(Token([Unescape(t[1]).value], t[2..]))
    else None
  }

  /** The body of a string up to and including its closing quote. */
  function Body(t: string): (r: Option<Token>)
    ensures r.Some? ==> |r.value.rest| < |t|
    decreases |t|
  {
    if t == "" then None
    else if t[0] == '"' then Some(Token("", t[1..]))
    else
      var i := Item(t);
      if i.None? then None
      else
        var b := Body(i.value.rest);
        if b.None? then None else Some(Token(i.value.text + b.value.text, b.value.rest))
  }

  function Str(t: string): (r: Option<Token>)
    ensures r.Some? ==> |r.value.rest| < |t|
  {
    if t == "" || t[0] != '"' then None else Body(t[1..])
  }

  const JSON_SPACE: set<char> := {' ', '\t', '\n', '\r'}

  function SkipWs(t: string): (r: string)
    ensures |r| <= |t|
    ensures r == "" || r[0] !in JSON_SPACE
  {
    if t != "" && t[0] in JSON_SPACE then SkipWs(t[1..]) else t
  }

  predicate NumberChar(c: char) {
    ('0' <= c <= '9') || c == '-' || c == '+' || c == '.' || c == 'e' || c == 'E'
  }

  function DropNumber(t: string): (r: string)
    ensures |r| <= |t|
  {
    if t != "" && NumberChar(t[0]) then DropNumber(t[1..]) else t
  }

  function SkipNumber(t: string): (r: Option<string>)
    ensures r.Some? ==> |r.value| < |t|
  {
    if |DropNumber(t)| < |t| then Some(DropNumber(t)) else None
  }

  /** skipContainer's loop at a given depth; only one kind of bracket counts. */
  function SkipTo(open: char, close: char, depth: int, t: string): (r: Option<string>)
    ensures r.Some? ==> |r.value| < |t|
    decreases |t|
  {
    if t == "" then None
    else if t[0] == '"' then
      var s := Str(t);
      if s.None? then None else SkipTo(open, close, depth, s.value.rest)
    else if t[0] == open then SkipTo(open, close, depth + 1, t[1..])
    else if t[0] == close then
      if depth - 1 == 0 then Some(t[1..]) else SkipTo(open, close, depth - 1, t[1..])
    else SkipTo(open, close, depth, t[1..])
  }

  function SkipContainer(t: string): (r: Option<string>)
    requires t != ""
    ensures r.Some? ==> |r.value| < |t|
  {
    SkipTo(t[0], if t[0] == '[' then ']' else '}', 0, t)
  }

  function SkipLiteral(t: string, lit: string): (r: Option<string>)
    ensures r.Some? && lit != "" ==> |r.value| < |t|
  {
    if lit <= t then Some(t[|lit|..]) else None
  }

  function SkipValue(t0: string): (r: Option<string>)
    ensures r.Some? ==> |r.value| < |t0|
  {
    var t := SkipWs(t0);
    if t == "" then None
    else if t[0] == '"' then (if Str(t).Some? then Some(Str(t).value.rest) else None)
    else if t[0] == '{' || t[0] == '[' then SkipContainer(t)
    else if t[0] == 't' then SkipLiteral(t, "true")
    else if t[0] == 'f' then SkipLiteral(t, "false")
    else if t[0] == 'n' then SkipLiteral(t, "null")
    else SkipNumber(t)
  }

  /** What decodePlaintext has collected so far. */
  datatype Fields = Fields(mnemonic: Option<string>, passphrase: Option<string>)

  /** The value of one field. */
  function FieldValue(key: string, t: string, f: Fields): (r: Option<(Fields, string)>)
    ensures r.Some? ==> |r.value.1| < |t|
  {
    if key == "mnemonic" then
      (if Str(t).None? then None else Some((f.(mnemonic := Some(Str(t).value.text)), Str(t).value.rest)))
    else if key == "bip39_passphrase" then
      (if Str(t).None? then None else Some((f.(passphrase := Some(Str(t).value.text)), Str(t).value.rest)))
    else if key == "v" then (if SkipNumber(t).None? then None else Some((f, SkipNumber(t).value)))
    else (if SkipValue(t).None? then None else Some((f, SkipValue(t).value)))
  }

  /** decodePlaintext's loop, from the start of a field or the closing brace. */
  function DecodeFields(t0: string, f: Fields): Option<Fields>
    decreases |t0|
  {
    var t := SkipWs(t0);
    if t != "" && t[0] == '}' then Some(f)
    else
      var key := Str(t);
      if key.None? then None
      else
        var c := SkipWs(key.value.rest);
        if c == "" || c[0] != ':' then None
        else
          var v := FieldValue(key.value.text, SkipWs(c[1..]), f);
          if v.None? then None
          else
            var n := SkipWs(v.value.1);
            if n != "" && n[0] == ',' then DecodeFields(n[1..], v.value.0)
            else if n != "" && n[0] == '}' then Some(v.value.0)
            else None
  }

  function Finish(f: Option<Fields>): Option<(string, string)> {
    if f.None? || f.value.mnemonic.None? || f.value.mnemonic.value == "" then None
    else Some((f.value.mnemonic.value, if f.value.passphrase.Some? then f.value.passphrase.value else ""))
  }

  function Decode(p: string): Option<(string, string)> {
    var t := SkipWs(p);
    if t == "" || t[0] != '{' then None else Finish(DecodeFields(t[1..], Fields(None, None)))
  }

  // --- the scanner ---

  class Scanner {
    const src: string
    var i: nat

    ghost predicate Valid()
      reads this
    {
      i <= |src|
    }

    /** The text still to be read. */
    ghost function Ahead(): string
      reads this
      requires Valid()
    {
      src[i..]
    }

    constructor (src: string)
      ensures this.src == src && i == 0 && Valid()
    {
      this.src, i := src, 0;
    }

    method Ws()
      requires Valid()
      modifies this
      ensures Valid() && Ahead() == SkipWs(old(Ahead()))
    {
      while i < |src| && (src[i] == ' ' || src[i] == '\t' || src[i] == '\n' || src[i] == '\r')
        invariant Valid() && SkipWs(Ahead()) == SkipWs(old(Ahead()))
      {
        assert src[i + 1..] == src[i..][1..];
        i := i + 1;
      }
    }

    method ByteIs(c: char) returns (ok: bool)
      requires Valid()
      modifies this
      ensures Valid()
      ensures ok <==> old(Ahead()) != "" && old(Ahead())[0] == c
      ensures Ahead() == if ok then old(Ahead())[1..] else old(Ahead())
    {
      if i < |src| && src[i] == c {
        assert src[i + 1..] == src[i..][1..];
        i := i + 1;
        return true;
      }
      return false;
    }

    method StringBytes() returns (out: Option<string>)
      requires Valid()
      modifies this
      ensures Valid() && i >= old(i)
      ensures out.Some? <==> Str(old(Ahead())).Some?
      ensures out.Some? ==> Str(old(Ahead())).value == Token(out.value, Ahead())
    {
      ghost var start := Ahead();
      if i >= |src| || src[i] != '"' { return None; }
      i := i + 1;
      assert Ahead() == start[1..];
      var text := "";
      while i < |src|
        invariant Valid() && i > old(i)
        invariant Resumes(start[1..], text, Ahead())
      {
        ghost var t := Ahead();
        var c := src[i];
        i := i + 1;
        assert Ahead() == t[1..];
        if c == '"' {
          return Some(text);
        }
        ResumesUnlessItemFails(start[1..], text, t);
        if c == '\\' {
          var e := Escape();
          if e.None? { return None; }
          ResumesAfterItem(start[1..], text, t, Token(e.value, Ahead()));
          text := text + e.value;
        } else {
          ResumesAfterItem(start[1..], text, t, Token([c], Ahead()));
          text := text + [c];
        }
      }
      return None;
    }

    /** The part of stringBytes that follows a backslash. */
    method Escape() returns (out: Option<string>)
      requires Valid() && i > 0 && src[i - 1] == '\\'
      modifies this
      ensures Valid() && i >= old(i)
      ensures out.Some? <==> Item(old(src[i - 1..])).Some?
      ensures out.Some? ==> Item(old(src[i - 1..])).value == Token(out.value, Ahead())
    {
      ghost var t := src[i - 1..];
      if i >= |src| { return None; }
      var e := src[i];
      i := i + 1;
      assert Ahead() == t[2..];
      if e == 'u' {
        if i + 4 > |src| { return None; }
        assert src[i..i + 4] == t[2..6];
        var r := ParseHex4(src[i..i + 4]);
        if r.None? { return None; }
        i := i + 4;
        assert Ahead() == t[6..];
        HexBound(t[2..6]);
        return Some(Utf8(r.value));
      }
      return if Unescape(e).Some? then Some([Unescape(e).value]) else None;
    }

    method SkipNumberToken() returns (ok: bool)
      requires Valid()
      modifies this
      ensures Valid() && i >= old(i)
      ensures ok <==> SkipNumber(old(Ahead())).Some?
      ensures Ahead() == DropNumber(old(Ahead()))
    {
      var start := i;
      while i < |src|
        invariant Valid() && i >= start
        invariant DropNumber(Ahead()) == DropNumber(old(Ahead()))
      {
        if !NumberChar(src[i]) { break; }
        assert src[i + 1..] == src[i..][1..];
        i := i + 1;
      }
      return i > start;
    }

    method SkipAnyValue() returns (ok: bool)
      requires Valid()
      modifies this
      ensures Valid() && i >= old(i)
      ensures ok <==> SkipValue(old(Ahead())).Some?
      ensures ok ==> Ahead() == SkipValue(old(Ahead())).value
    {
      Ws();
      if i >= |src| { return false; }
      var c := src[i];
      if c == '"' {
        var s := StringBytes();
        return s.Some?;
      } else if c == '{' || c == '[' {
        ok := SkipBracketed();
      } else if c == 't' {
        ok := SkipWord("true");
      } else if c == 'f' {
        ok := SkipWord("false");
      } else if c == 'n' {
        ok := SkipWord("null");
      } else {
        ok := SkipNumberToken();
      }
    }

    method SkipBracketed() returns (ok: bool)
      requires Valid() && Ahead() != ""
      modifies this
      ensures Valid() && i >= old(i)
      ensures ok <==> SkipContainer(old(Ahead())).Some?
      ensures ok ==> Ahead() == SkipContainer(old(Ahead())).value
    {
      var open := src[i];
      var close := if open == '[' then ']' else '}';
      var depth := 0;
      ghost var whole := SkipTo(open, close, 0, Ahead());
      while i < |src|
        invariant Valid() && i >= old(i)
        invariant SkipTo(open, close, depth, Ahead()) == whole
        decreases |src| - i
      {
        var c := src[i];
        assert src[i + 1..] == src[i..][1..];
        if c == '"' {
          var s := StringBytes();
          if s.None? { return false; }
          continue;
        } else if c == open {
          depth := depth + 1;
        } else if c == close {
          depth := depth - 1;
          i := i + 1;
          if depth == 0 { return true; }
          continue;
        }
        i := i + 1;
      }
      return false;
    }

    method SkipWord(lit: string) returns (ok: bool)
      requires Valid()
      modifies this
      ensures Valid() && i >= old(i)
      ensures ok <==> SkipLiteral(old(Ahead()), lit).Some?
      ensures ok ==> Ahead() == SkipLiteral(old(Ahead()), lit).value
    {
      if i + |lit| > |src| { return false; }
      assert src[i..i + |lit|] == src[i..][..|lit|];
      if src[i..i + |lit|] != lit { return false; }
      i := i + |lit|;
      return true;
    }
  }

  /** Having read `text`, the string reader is in the middle of `t` with `rest` ahead. */
  ghost predicate Resumes(t: string, text: string, rest: string) {
    && (Body(t).Some? <==> Body(rest).Some?)
    && (Body(t).Some? ==> Body(t).value == Token(text + Body(rest).value.text, Body(rest).value.rest))
  }

  lemma ResumesUnlessItemFails(t: string, text: string, rest: string)
    requires Resumes(t, text, rest) && rest != "" && rest[0] != '"'
    ensures Item(rest).None? ==> Body(t).None?
  {}

  lemma ResumesAfterItem(t: string, text: string, rest: string, item: Token)
    requires Resumes(t, text, rest) && rest != "" && rest[0] != '"' && Item(rest) == Some(item)
    ensures Resumes(t, text + item.text, item.rest)
  {
    if Body(t).Some? {
      Associates(text, item.text, Body(item.rest).value.text);
    }
  }

  method ParseHex4(b: string) returns (r: Option<nat>)
    ensures r.Some? <==> Hex(b) >= 0
    ensures r.Some? ==> r.value == Hex(b)
  {
    var v: nat := 0;
    for k := 0 to |b|
      invariant Hex(b[..k]) == v
    {
      assert b[..k + 1][..k] == b[..k];
      var d := HexValue(b[k]);
      if d < 0 {
        HexStaysBad(b, k + 1);
        return None;
      }
      v := v * 16 + d;
    }
    assert b[..|b|] == b;
    return Some(v);
  }

  lemma {:induction false} HexStaysBad(b: string, k: nat)
    requires k <= |b| && Hex(b[..k]) < 0
    ensures Hex(b) < 0
    decreases |b|
  {
    if k == |b| {
      assert b[..k] == b;
    } else {
      assert b[..|b| - 1][..k] == b[..k];
      HexStaysBad(b[..|b| - 1], k);
    }
  }

  /** One round of decodePlaintext's loop, at a key: the fields so far, and whether a comma follows. */
  method DecodeMember(d: Scanner, f: Fields) returns (r: Option<(Fields, bool)>)
    requires d.Valid() && d.Ahead() == SkipWs(d.Ahead()) && !(d.Ahead() != "" && d.Ahead()[0] == '}')
    modifies d
    ensures d.Valid()
    ensures r.Some? ==> d.i > old(d.i)
    ensures DecodeFields(old(d.Ahead()), f) ==
      if r.None? then None else if r.value.1 then DecodeFields(d.Ahead(), r.value.0) else Some(r.value.0)
  {
    var key := d.StringBytes();
    if key.None? { return None; }
    d.Ws();
    var colon := d.ByteIs(':');
    if !colon { return None; }
    d.Ws();
    var value := Field(d, key.value, f);
    if value.None? { return None; }
    d.Ws();
    var comma := d.ByteIs(',');
    if comma { return Some((value.value, true)); }
    var closed := d.ByteIs('}');
    return if closed then Some((value.value, false)) else None;
  }

  /** decodePlaintext. None stands for errBadPlaintext. */
  method DecodePlaintext(p: string) returns (out: Option<(string, string)>)
    ensures out == Decode(p)
  {
    var d := new Scanner(p);
    assert d.Ahead() == p;
    d.Ws();
    var brace := d.ByteIs('{');
    if !brace { return None; }
    var fields := DecodeMembers(d);
    if fields.None? { return None; }
    var f := fields.value;
    if f.mnemonic.None? || f.mnemonic.value == "" { return None; }
    return Some((f.mnemonic.value, if f.passphrase.Some? then f.passphrase.value else ""));
  }

  /** The loop of decodePlaintext. */
  method DecodeMembers(d: Scanner) returns (out: Option<Fields>)
    requires d.Valid()
    modifies d
    ensures out == DecodeFields(old(d.Ahead()), Fields(None, None))
  {
    var f, more := Fields(None, None), true;
    ghost var whole := DecodeFields(d.Ahead(), f);
    while more
      invariant d.Valid()
      invariant more ==> whole == DecodeFields(d.Ahead(), f)
      invariant !more ==> whole == Some(f)
      decreases |d.src| - d.i, more
    {
      ghost var t := d.Ahead();
      d.Ws();
      assert DecodeFields(d.Ahead(), f) == DecodeFields(t, f);
      var closed := d.ByteIs('}');
      if closed { return Some(f); }
      var member := DecodeMember(d, f);
      if member.None? { return None; }
      f, more := member.value.0, member.value.1;
    }
    return Some(f);
  }

  /** The switch on the field name. */
  method Field(d: Scanner, key: string, f: Fields) returns (out: Option<Fields>)
    requires d.Valid()
    modifies d
    ensures d.Valid()
    ensures out.Some? <==> FieldValue(key, old(d.Ahead()), f).Some?
    ensures out.Some? ==> FieldValue(key, old(d.Ahead()), f) == Some((out.value, d.Ahead()))
  {
    if key == "mnemonic" {
      var val := d.StringBytes();
      return if val.None? then None else Some(f.(mnemonic := val));
    } else if key == "bip39_passphrase" {
      var val := d.StringBytes();
      return if val.None? then None else Some(f.(passphrase := val));
    } else if key == "v" {
      var ok := d.SkipNumberToken();
      return if ok then Some(f) else None;
    } else {
      var ok := d.SkipAnyValue();
      return if ok then Some(f) else None;
    }
  }

  // --- the encoder, and the round trip ---

  const HEX_DIGITS := "0123456789abcdef"

  /** How appendJSONString writes one byte. */
  function Escaped(c: char): string {
    if c == '"' then "\\\""
    else if c == '\\' then "\\\\"
    else if c == '\n' then "\\n"
    else if c == '\r' then "\\r"
    else if c == '\t' then "\\t"
    else if c < ' ' then "\\u00" + [HEX_DIGITS[c as int / 16], HEX_DIGITS[c as int % 16]]
    else [c]
  }

  function Quoted(b: string): string {
    "\"" + EscapedAll(b) + "\""
  }

  function EscapedAll(b: string): string {
    if b == "" then "" else Escaped(b[0]) + EscapedAll(b[1..])
  }

  function Encode(mnemonic: string, passphrase: string): string {
    "{\"v\":1,\"mnemonic\":" + Quoted(mnemonic) + ",\"bip39_passphrase\":" + Quoted(passphrase) + "}"
  }

  method AppendJsonString(dst: string, b: string) returns (out: string)
    ensures out == dst + Quoted(b)
  {
    out := AppendEscaped(dst + "\"", b);
    out := out + "\"";
  }

  /** The loop of appendJSONString. */
  method AppendEscaped(dst: string, b: string) returns (out: string)
    ensures out == dst + EscapedAll(b)
  {
    out := dst;
    for k := 0 to |b|
      invariant out + EscapedAll(b[k..]) == dst + EscapedAll(b)
    {
      var e := EscapeByte(b[k]);
      EscapedNext(out, b, k);
      out := out + e;
    }
  }

  lemma EscapedNext(out: string, b: string, k: nat)
    requires k < |b|
    ensures out + EscapedAll(b[k..]) == (out + Escaped(b[k])) + EscapedAll(b[k + 1..])
  {
    assert b[k..][1..] == b[k + 1..];
  }

  /** The switch of appendJSONString. */
  method EscapeByte(c: char) returns (e: string)
    ensures e == Escaped(c)
  {
    match c {
      case '"' => e := "\\\"";
      case '\\' => e := "\\\\";
      case '\n' => e := "\\n";
      case '\r' => e := "\\r";
      case '\t' => e := "\\t";
      case _ => e := if c < ' ' then "\\u00" + [HEX_DIGITS[c as int / 16], HEX_DIGITS[c as int % 16]] else [c];
    }
  }

  method EncodePlaintext(mnemonic: string, passphrase: string) returns (out: string)
    ensures out == Encode(mnemonic, passphrase)
  {
    out := "{\"v\":1,\"mnemonic\":";
    out := AppendJsonString(out, mnemonic);
    out := out + ",\"bip39_passphrase\":";
    out := AppendJsonString(out, passphrase);
    out := out + "}";
  }
}
