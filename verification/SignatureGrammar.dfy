/** The language of the signature parser: whatever it accepts is the written form of some tree. */
module SignatureGrammar {
  import opened Text
  import opened Signature
  import opened SignatureText

  // --- the pieces a reader has passed over ---

  lemma {:induction false} GapAhead(t: string) returns (gap: string)
    ensures Only(gap, BLANK) && t == gap + SkipSpace(t)
  {
    if t != "" && t[0] in BLANK {
      var more := GapAhead(t[1..]);
      gap := [t[0]] + more;
      assert t == [t[0]] + t[1..];
    } else {
      gap := "";
      assert t == "" + t;
    }
  }

  lemma {:induction false} RunAhead(t: string, p: char -> bool)
    ensures var run := Run(t, p);
      && t == run + t[|run|..] && (forall k | 0 <= k < |run| :: p(run[k]))
      && (t[|run|..] == "" || !p(t[|run|..][0]))
  {
    if t != "" && p(t[0]) {
      RunAhead(t[1..], p);
      var run := Run(t[1..], p);
      assert t[|[t[0]] + run|..] == t[1..][|run|..];
    }
  }

  lemma {:induction false} IdentAhead(t: string) returns (gap: string)
    requires Ident(t).Some?
    ensures var id := Ident(t).value;
      && Only(gap, BLANK) && IsName(id.text) && t == gap + (id.text + id.rest)
      && (id.rest == "" || !NameChar(id.rest[0]))
  {
    gap := GapAhead(t);
    WordAhead(SkipSpace(t), NameChar);
  }

  /** A first char and the run after it. */
  lemma WordAhead(t: string, p: char -> bool)
    requires t != ""
    ensures var word := [t[0]] + Run(t[1..], p);
      && word <= t && t == word + t[|word|..] && (forall k | 1 <= k < |word| :: p(word[k]))
      && (t[|word|..] == "" || !p(t[|word|..][0]))
  {
    var run := Run(t[1..], p);
    RunAhead(t[1..], p);
    assert t[|[t[0]] + run|..] == t[1..][|run|..];
    assert t == [t[0]] + (run + t[1..][|run|..]);
  }

  lemma {:induction false} DimsAhead(t: string) returns (dims: seq<string>)
    requires SuffixLen(t).Some?
    ensures (forall d | d in dims :: Digits(d)) && DimsText(dims) == t[..SuffixLen(t).value]
    decreases |t|
  {
    if t == "" || t[0] != '[' {
      dims := [];
    } else {
      var digits := Run(t[1..], IsDigit);
      RunAhead(t[1..], IsDigit);
      var more := DimsAhead(t[|digits| + 2..]);
      dims := [digits] + more;
      BracketText(t, digits, DimsText(more), SuffixLen(t).value);
      assert dims[1..] == more;
    }
  }

  lemma BracketText(t: string, digits: string, more: string, n: nat)
    requires t != "" && t[0] == '[' && |digits| + 2 <= n <= |t| && t[1..1 + |digits|] == digits
    requires t[1 + |digits|] == ']' && more == t[|digits| + 2..][..n - (|digits| + 2)]
    ensures ['['] + (digits + ([']'] + more)) == t[..n]
  {
    var k := |digits|;
    assert t[..n] == t[..1] + (t[1..1 + k] + (t[1 + k..k + 2] + t[k + 2..n]));
    assert t[k + 2..n] == more;
  }

  lemma SuffixAhead(t: string) returns (dims: seq<string>)
    requires Suffix(t).Some?
    ensures (forall d | d in dims :: Digits(d)) && Suffix(t).value.text == DimsText(dims)
    ensures t == DimsText(dims) + Suffix(t).value.rest && (dims == [] ==> Suffix(t).value.rest == t)
  {
    dims := DimsAhead(t);
  }

  // --- one argument ---

  /** What was read of a type, `rest` being left: it could not have gone on. */
  predicate TypeCut(kind: Kind, dims: seq<string>, rest: string) {
    && KindOk(kind) && (forall d | d in dims :: Digits(d))
    && (kind.Elementary? && dims == [] ==> rest == "" || !TypeChar(rest[0]))
  }

  lemma TokenAhead(t: string) returns (base: string, dims: seq<string>)
    requires t != "" && t[0] !in BLANK && TypeToken(t).Some?
    ensures var tok := TypeToken(t).value;
      && TypeCut(Elementary(base), dims, tok.rest) && tok.text == base + DimsText(dims)
      && t == base + (DimsText(dims) + tok.rest)
  {
    base := [t[0]] + Run(t[1..], TypeChar);
    WordAhead(t, TypeChar);
    TokenSplit(t, base, t[|base|..]);
    dims := SuffixAhead(t[|base|..]);
  }

  lemma TokenSplit(t: string, base: string, more: string)
    requires t != "" && t[0] !in BLANK && TypeToken(t).Some? && base == [t[0]] + Run(t[1..], TypeChar)
    requires base <= t && more == t[|base|..]
    ensures base[0] == t[0] && IsAlpha(base[0]) && Suffix(more).Some?
    ensures TypeToken(t) == Some(Piece(base + Suffix(more).value.text, Suffix(more).value.rest))
  {}

  lemma {:induction false} TypeAhead(t0: string) returns (before: string, kind: Kind, dims: seq<string>)
    requires ArgType(t0).Some?
    ensures var r := ArgType(t0).value;
      && Only(before, BLANK) && TypeCut(kind, dims, r.2) && r.0 == KindName(kind, dims) && r.1 == KindArgs(kind)
      && t0 == before + (KindText(kind) + (DimsText(dims) + r.2))
    decreases |t0|, 1
  {
    before := GapAhead(t0);
    var t := SkipSpace(t0);
    if t != "" && t[0] == '(' {
      kind, dims := TupleAhead(t0, t);
    } else {
      assert SkipSpace(t) == t;
      var base;
      base, dims := TokenAhead(t);
      kind := Elementary(base);
    }
  }

  lemma {:induction false} TupleAhead(t0: string, t: string) returns (kind: Kind, dims: seq<string>)
    requires t == SkipSpace(t0) && t != "" && t[0] == '(' && ArgType(t0).Some?
    ensures var r := ArgType(t0).value;
      && TypeCut(kind, dims, r.2) && r.0 == KindName(kind, dims) && r.1 == KindArgs(kind)
      && t == KindText(kind) + (DimsText(dims) + r.2)
    decreases |t0|, 0
  {
    var ps, gap := ListAhead(t[1..], false);
    var close := ArgList(t[1..], false).value.2;
    assert SkipSpace(close) == close;
    dims := SuffixAhead(close[1..]);
    kind := Tuple(ps, gap);
    Enclosed(t, ParamsText(ps, gap), close);
  }

  lemma Enclosed(t: string, list: string, close: string)
    requires t != "" && t[0] == '(' && t[1..] == list + close && close != "" && close[0] == ')'
    ensures t == ['('] + (list + [')']) + close[1..] == ['('] + (list + ([')'] + close[1..]))
  {
    assert t == ['('] + t[1..];
    assert close == [')'] + close[1..];
  }

  /** The keyword, the name and the blanks around them. */
  lemma TrailerAhead(t: string, kind: Kind, dims: seq<string>, allowIndexed: bool) returns (p: Param)
    requires Trailer(t, allowIndexed).Some? && TypeCut(kind, dims, t)
    ensures var r := Trailer(t, allowIndexed).value;
      && p.before == "" && p.kind == kind && p.dims == dims && p.indexed == r.0 && p.name == r.1
      && WellFormed(p, allowIndexed) && t == Tail(p) + SkipSpace(r.2)
  {
    var id := Ident(t);
    if id.None? {
      p := PlainAhead(t, kind, dims, "", "", t);
    } else {
      var gap := IdentAhead(t);
      if id.value.text != "indexed" {
        p := PlainAhead(t, kind, dims, gap, id.value.text, id.value.rest);
      } else {
        KeywordIsName(KEYWORD);
        p := IndexedAhead(t, kind, dims, gap, id.value.text, id.value.rest);
      }
    }
  }

  /** Without the keyword, and with a name or without. */
  lemma PlainAhead(t: string, kind: Kind, dims: seq<string>, gap: string, name: string, rest: string) returns (p: Param)
    requires TypeCut(kind, dims, t) && Only(gap, BLANK) && (name != "" ==> IsName(name) && name != "indexed")
    requires (name == "" ==> gap == "") && t == gap + (name + rest)
    ensures p.before == "" && p.kind == kind && p.dims == dims && !p.indexed && p.name == name
    ensures WellFormed(p, false) && t == Tail(p) + SkipSpace(rest)
  {
    var after := GapAhead(rest);
    p := Param("", kind, dims, false, "", name, gap, after);
    if name != "" {
      FirstOf(gap, name, rest);
    }
    var end := SkipSpace(rest);
    TailParts(p, end, NamePart(p) + (after + end), KEYWORD);
    assert gap + name + (after + end) == gap + (name + (after + end));
  }

  lemma IndexedAhead(t: string, kind: Kind, dims: seq<string>, gap: string, keyword: string, more: string)
      returns (p: Param)
    requires TypeCut(kind, dims, t) && Only(gap, BLANK) && keyword == KEYWORD && IsName(keyword) && TypeChar(keyword[0])
    requires t == gap + (keyword + more) && (more == "" || !NameChar(more[0]))
    ensures p.before == "" && p.kind == kind && p.dims == dims && p.indexed && WellFormed(p, true)
    ensures p.name == (if Ident(more).None? then "" else Ident(more).value.text)
    ensures t == Tail(p) + SkipSpace(if Ident(more).None? then more else Ident(more).value.rest)
  {
    var nameGap, name, rest := "", "", more;
    if Ident(more).Some? {
      nameGap := IdentAhead(more);
      name, rest := Ident(more).value.text, Ident(more).value.rest;
      FirstOf(nameGap, name, rest);
    }
    var after := GapAhead(rest);
    p := Param("", kind, dims, true, gap, name, nameGap, after);
    FirstOf(gap, keyword, more);
    IndexedText(p, t, keyword, more, rest, SkipSpace(rest));
  }

  lemma IndexedText(p: Param, t: string, keyword: string, more: string, rest: string, end: string)
    requires keyword == KEYWORD && p.indexed && t == p.keywordGap + (keyword + more)
    requires rest == p.after + end && more == (if p.name == "" then rest else p.nameGap + (p.name + rest))
    ensures t == Tail(p) + end
  {
    assert NamePart(p) + (p.after + end) == more by {
      if p.name == "" {
        assert "" + rest == rest;
      } else {
        assert p.nameGap + p.name + rest == p.nameGap + (p.name + rest);
      }
    }
    TailParts(p, end, more, keyword);
  }

  lemma {:induction false} ArgAhead(t: string, allowIndexed: bool) returns (p: Param)
    requires OneArg(t, allowIndexed).Some?
    ensures var r := OneArg(t, allowIndexed).value;
      && WellFormed(p, allowIndexed) && ToArg(p) == r.0 && p.indexed == r.1 && t == ParamText(p) + SkipSpace(r.2)
    decreases |t|, 2
  {
    var before, kind, dims := TypeAhead(t);
    var tail := ArgType(t).value.2;
    var q := TrailerAhead(tail, kind, dims, allowIndexed);
    p := q.(before := before);
    ParamSplit(before, KindText(kind), DimsText(dims), Tail(p), SkipSpace(Trailer(tail, allowIndexed).value.2));
  }

  // --- lists ---

  lemma {:induction false} ArgsAhead(t: string, allowIndexed: bool) returns (ps: seq<Param>)
    requires Args(t, allowIndexed).Some?
    ensures var r := Args(t, allowIndexed).value;
      && ps != [] && AllWellFormed(ps, allowIndexed) && ToArgs(ps) == r.0 && AnyIndexed(ps) == r.1
      && SkipSpace(r.2) == r.2 && forall gap :: t == ParamsText(ps, gap) + r.2
    decreases |t|, 3
  {
    var p := ArgAhead(t, allowIndexed);
    var u := SkipSpace(OneArg(t, allowIndexed).value.2);
    assert SkipSpace(u) == u;
    if u != "" && u[0] == ',' {
      var more := ArgsAhead(u[1..], allowIndexed);
      ps := [p] + more;
      assert ps[1..] == more;
      forall gap
        ensures t == ParamsText(ps, gap) + Args(t, allowIndexed).value.2
      {
        ListSplit(ps, gap, Args(t, allowIndexed).value.2);
        assert u == [','] + u[1..];
      }
    } else {
      ps := [p];
      assert ps[1..] == [];
    }
  }

  lemma {:induction false} ListAhead(t: string, allowIndexed: bool) returns (ps: seq<Param>, gap: string)
    requires ArgList(t, allowIndexed).Some?
    ensures var r := ArgList(t, allowIndexed).value;
      && Only(gap, BLANK) && AllWellFormed(ps, allowIndexed) && ToArgs(ps) == r.0 && AnyIndexed(ps) == r.1
      && t == ParamsText(ps, gap) + r.2 && SkipSpace(r.2) == r.2
    decreases |t|, 4
  {
    gap := GapAhead(t);
    var u := SkipSpace(t);
    if u != "" && u[0] == ')' {
      ps := [];
    } else {
      ArgsSkip(t, allowIndexed);
      ps := ArgsAhead(t, allowIndexed);
    }
  }

  lemma SectionAhead(t0: string, allowIndexed: bool) returns (l: Section)
    requires Parens(t0, allowIndexed).Some?
    ensures var r := Parens(t0, allowIndexed).value;
      && SectionOk(l, allowIndexed) && ToArgs(l.params) == r.0 && AnyIndexed(l.params) == r.1
      && t0 == SectionText(l) + r.2
  {
    var lead := GapAhead(t0);
    var t := SkipSpace(t0);
    var ps, gap := ListAhead(t[1..], allowIndexed);
    var close := ArgList(t[1..], allowIndexed).value.2;
    l := Section(lead, ps, gap);
    Enclosed(t, ParamsText(ps, gap), close);
    Parenthesized(lead, ParamsText(ps, gap), close[1..]);
  }

  // --- whole signatures ---

  /** Neither end is a blank. */
  predicate NoBlankEnds(s: string) {
    s != "" ==> s[0] !in BLANK && s[|s| - 1] !in BLANK
  }

  lemma {:induction false} TrimLeftFront(s: string)
    ensures SpaceAtFront(TrimLeft(s)) == 0
    decreases |s|
  {
    if SpaceAtFront(s) > 0 {
      TrimLeftFront(s[SpaceAtFront(s)..]);
    }
  }

  lemma {:induction false} TrimRightBack(s: string)
    ensures SpaceAtBack(TrimRight(s)) == 0
    decreases |s|
  {
    if SpaceAtBack(s) > 0 {
      TrimRightBack(s[..|s| - SpaceAtBack(s)]);
    }
  }

  lemma TrimmedEnds(sig: string)
    ensures NoBlankEnds(TrimSpace(sig))
  {
    TrimLeftFront(sig);
    TrimRightBack(TrimLeft(sig));
  }

  /** At the end of a trimmed text nothing is left to skip. */
  lemma NothingLeft(s: string, front: string, rest: string)
    requires NoBlankEnds(s) && s == front + rest && SkipSpace(rest) == ""
    ensures rest == ""
  {
    var gap := GapAhead(rest);
    assert gap + "" == gap;
    LastOf(front, rest);
  }

  lemma LastOf(front: string, rest: string)
    ensures rest != "" ==> (front + rest)[|front + rest| - 1] == rest[|rest| - 1]
  {}

  lemma NoGapInFront(s: string, gap: string, rest: string)
    requires NoBlankEnds(s) && s == gap + rest && Only(gap, BLANK)
    ensures gap == "" && s == rest
  {
    FirstOf("", gap, rest);
    assert "" + (gap + rest) == s && (gap == "" ==> s == rest);
  }

  lemma OutputsAhead(s: string, front: string, t: string) returns (outputs: Option<Section>)
    requires NoBlankEnds(s) && s == front + t && Outputs(t).Some?
    ensures (outputs.Some? ==> SectionOk(outputs.value, false)) && t == OutputsText(outputs)
    ensures Outputs(t).value == (if outputs.Some? then ToArgs(outputs.value.params) else [], outputs.Some?)
  {
    if Outputs(t).value.1 {
      ParensSkip(t, SkipSpace(t), false);
      var l := SectionAhead(t, false);
      var rest := Parens(t, false).value.2;
      Associates(front, SectionText(l), rest);
      NothingLeft(s, front + SectionText(l), rest);
      outputs := Some(l);
      assert SectionText(l) + "" == SectionText(l);
    } else {
      SkipTwice(t);
      NothingLeft(s, front, t);
      outputs := None;
    }
  }

  lemma SkipTwice(t: string)
    ensures SkipSpace(SkipSpace(t)) == SkipSpace(t)
  {}

  lemma TreeOf(s: string) returns (w: Written)
    requires NoBlankEnds(s) && ParseTrimmed(s).Some?
    ensures Printable(w) && WrittenText(w) == s
  {
    var gap := IdentAhead(s);
    var id := Ident(s).value;
    NoGapInFront(s, gap, id.text + id.rest);
    var inputs := SectionAhead(id.rest, true);
    var more := Parens(id.rest, true).value.2;
    Associates(id.text, SectionText(inputs), more);
    var outputs := OutputsAhead(s, id.text + SectionText(inputs), more);
    w := Written(id.text, inputs, outputs);
  }

  ghost predicate IsWritten(s: string) {
    exists w :: Printable(w) && WrittenText(w) == s
  }

  /** The parser accepts a text exactly when, trimmed, it is the written form of some tree, and then it returns what
      any such tree means. */
  lemma ParseIff(sig: string)
    ensures Parse(sig).Some? <==> IsWritten(TrimSpace(sig))
    ensures forall w | Printable(w) && WrittenText(w) == TrimSpace(sig) :: Parse(sig) == Some(Meaning(w))
  {
    var s := TrimSpace(sig);
    TrimmedEnds(sig);
    if ParseTrimmed(s).Some? {
      var w := TreeOf(s);
    }
    forall w | Printable(w) && WrittenText(w) == s
      ensures ParseTrimmed(s) == Some(Meaning(w))
    {
      TrimmedInvertsPrint(w);
    }
  }
}
