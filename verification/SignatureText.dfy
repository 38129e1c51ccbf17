/** Signature trees in their written form, and the proof that the parser of internal/abi/abi.go accepts exactly
    these and reads each back. */
module SignatureText {
  import opened Text
  import opened Signature

  /** A tuple without components shows only its `gap`. */
  datatype Kind = Elementary(base: string) | Tuple(components: seq<Param>, gap: string)

  /** A parameter as written, with the blanks in front of the type, the keyword and the name, and at the end. */
  datatype Param = Param(before: string, kind: Kind, dims: seq<string>, indexed: bool, keywordGap: string,
                         name: string, nameGap: string, after: string)

  /** A parenthesized list; an empty one shows only its `gap`. */
  datatype Section = Section(lead: string, params: seq<Param>, gap: string)

  datatype Written = Written(name: string, inputs: Section, outputs: Option<Section>)

  predicate IsName(s: string) {
    s != "" && NameStart(s[0]) && forall k | 0 <= k < |s| :: NameChar(s[k])
  }

  predicate IsBase(s: string) {
    s != "" && IsAlpha(s[0]) && forall k | 0 <= k < |s| :: TypeChar(s[k])
  }

  /** Blanks may be left out wherever the words stay apart. */
  predicate WordsApart(p: Param) {
    && (p.indexed && p.name != "" ==> p.nameGap != "")
    && (p.kind.Elementary? && p.dims == [] ==>
          if p.indexed then p.keywordGap != ""
          else p.name != "" ==> p.nameGap != "" || !TypeChar(p.name[0]))
  }

  /** `indexed` is for event inputs only, and is a name only after the keyword. */
  predicate WellFormed(p: Param, allowIndexed: bool)
    decreases p, 1
  {
    && Only(p.before, BLANK) && Only(p.keywordGap, BLANK) && Only(p.nameGap, BLANK) && Only(p.after, BLANK)
    && (forall d | d in p.dims :: Digits(d))
    && (p.indexed ==> allowIndexed)
    && (p.name != "" ==> IsName(p.name) && (p.name == "indexed" ==> p.indexed))
    && WordsApart(p) && KindOk(p.kind)
  }

  predicate KindOk(kind: Kind)
    decreases kind, 0
  {
    match kind
    case Elementary(base) => IsBase(base)
    case Tuple(components, gap) => Only(gap, BLANK) && AllWellFormed(components, false)
  }

  predicate AllWellFormed(ps: seq<Param>, allowIndexed: bool)
    decreases ps, 2
  {
    forall i | 0 <= i < |ps| :: WellFormed(ps[i], allowIndexed)
  }

  predicate SectionOk(l: Section, allowIndexed: bool) {
    Only(l.lead, BLANK) && Only(l.gap, BLANK) && AllWellFormed(l.params, allowIndexed)
  }

  predicate Printable(w: Written) {
    IsName(w.name) && SectionOk(w.inputs, true) && (w.outputs.Some? ==> SectionOk(w.outputs.value, false))
  }

  // --- printing ---

  function DimsText(dims: seq<string>): string {
    if dims == [] then "" else ['['] + (dims[0] + ([']'] + DimsText(dims[1..])))
  }

  const KEYWORD: string := "indexed"

  function NamePart(p: Param): string {
    if p.name != "" then p.nameGap + p.name else ""
  }

  /** A parameter's text after its type. */
  function Tail(p: Param): string {
    (if p.indexed then p.keywordGap + KEYWORD else "") + (NamePart(p) + p.after)
  }

  function KindText(kind: Kind): string
    decreases kind, 0
  {
    match kind
    case Elementary(base) => base
    case Tuple(components, gap) => ['('] + (ParamsText(components, gap) + [')'])
  }

  function ParamText(p: Param): string
    decreases p, 1
  {
    p.before + (KindText(p.kind) + (DimsText(p.dims) + Tail(p)))
  }

  function ParamsText(ps: seq<Param>, gap: string): string
    decreases ps, 2
  {
    if ps == [] then gap
    else if |ps| == 1 then ParamText(ps[0])
    else ParamText(ps[0]) + ([','] + ParamsText(ps[1..], gap))
  }

  function SectionText(l: Section): string {
    l.lead + (['('] + (ParamsText(l.params, l.gap) + [')']))
  }

  function OutputsText(outputs: Option<Section>): string {
    if outputs.Some? then SectionText(outputs.value) else ""
  }

  function WrittenText(w: Written): string {
    w.name + (SectionText(w.inputs) + OutputsText(w.outputs))
  }

  // --- the tree the text stands for ---

  function KindName(kind: Kind, dims: seq<string>): string {
    (match kind case Elementary(base) => base case Tuple(_, _) => "tuple") + DimsText(dims)
  }

  function KindArgs(kind: Kind): seq<Arg>
    decreases kind, 0
  {
    match kind case Elementary(_) => [] case Tuple(components, _) => ToArgs(components)
  }

  function ToArg(p: Param): Arg
    decreases p, 1
  {
    Arg(p.name, KindName(p.kind, p.dims), KindName(p.kind, p.dims), p.indexed, KindArgs(p.kind))
  }

  function ToArgs(ps: seq<Param>): (r: seq<Arg>)
    ensures |r| == |ps|
    decreases ps, 2
  {
    if ps == [] then [] else [ToArg(ps[0])] + ToArgs(ps[1..])
  }

  predicate AnyIndexed(ps: seq<Param>) {
    ps != [] && (ps[0].indexed || AnyIndexed(ps[1..]))
  }

  // --- reading the pieces back ---

  lemma {:induction false} SkipsBlank(gap: string, rest: string)
    requires Only(gap, BLANK) && (rest == "" || rest[0] !in BLANK)
    ensures SkipSpace(gap + rest) == rest
  {
    if gap == "" {
      assert gap + rest == rest;
    } else {
      SkipsBlank(gap[1..], rest);
      assert (gap + rest)[1..] == gap[1..] + rest;
    }
  }

  /** SkipSpace sees through a leading gap, whatever follows. */
  lemma {:induction false} SkipsMore(gap: string, rest: string)
    requires Only(gap, BLANK)
    ensures SkipSpace(gap + rest) == SkipSpace(rest)
  {
    if gap == "" {
      assert gap + rest == rest;
    } else {
      SkipsMore(gap[1..], rest);
      assert (gap + rest)[1..] == gap[1..] + rest;
    }
  }

  lemma RunOver(w: string, p: char -> bool, rest: string)
    requires (forall k | 0 <= k < |w| :: p(w[k])) && (rest == "" || !p(rest[0]))
    ensures Run(w + rest, p) == w
  {
    assert forall k | 0 <= k < |w| :: (w + rest)[k] == w[k];
    assert |w + rest| > |w| ==> (w + rest)[|w|] == rest[0];
    RunIs(w + rest, p, |w|);
  }

  lemma IdentOver(gap: string, id: string, rest: string)
    requires Only(gap, BLANK) && IsName(id) && (rest == "" || !NameChar(rest[0]))
    ensures Ident(gap + (id + rest)) == Some(Piece(id, rest))
  {
    SkipsBlank(gap, id + rest);
    assert (id + rest)[1..] == id[1..] + rest;
    RunOver(id[1..], NameChar, rest);
    assert [id[0]] + id[1..] == id;
    assert (id + rest)[|id|..] == rest;
  }

  lemma IdentOfNone(gap: string, rest: string)
    requires Only(gap, BLANK) && rest != "" && (rest[0] == ',' || rest[0] == ')')
    ensures Ident(gap + rest) == None && SkipSpace(gap + rest) == rest
  {
    SkipsBlank(gap, rest);
  }

  lemma BracketReads(digits: string, more: string)
    requires Digits(digits)
    ensures SuffixLen(['['] + (digits + ([']'] + more))) ==
      if SuffixLen(more).None? then None else Some(|digits| + 2 + SuffixLen(more).value)
  {
    var u := digits + ([']'] + more);
    RunOver(digits, IsDigit, [']'] + more);
    BracketAt(['['] + u, u, digits, more);
  }

  lemma BracketAt(t: string, u: string, digits: string, more: string)
    requires u == digits + ([']'] + more) && t == ['['] + u && Run(u, IsDigit) == digits
    ensures SuffixLen(t) == if SuffixLen(more).None? then None else Some(|digits| + 2 + SuffixLen(more).value)
  {
    BracketSlices(t, u, digits, more);
  }

  lemma BracketSlices(t: string, u: string, digits: string, more: string)
    requires u == digits + ([']'] + more) && t == ['['] + u
    ensures var k := |digits|;
      t[0] == '[' && t[1..] == u && |t| == k + 2 + |more| && t[1 + k] == ']' && t[k + 2..] == more
  {
    assert t[1 + |digits|] == u[|digits|] == ']';
  }

  lemma DimsSplit(digits: string, dims: string, rest: string)
    ensures ['['] + (digits + ([']'] + dims)) + rest == ['['] + (digits + ([']'] + (dims + rest)))
  {}

  lemma SuffixCons(digits: string, dims: string, rest: string)
    requires Digits(digits) && SuffixLen(dims + rest) == Some(|dims|)
    ensures var text := ['['] + (digits + ([']'] + dims)); SuffixLen(text + rest) == Some(|text|)
  {
    DimsSplit(digits, dims, rest);
    BracketReads(digits, dims + rest);
  }

  lemma {:induction false} SuffixOver(dims: seq<string>, rest: string)
    requires (forall d | d in dims :: Digits(d)) && (rest == "" || rest[0] != '[')
    ensures SuffixLen(DimsText(dims) + rest) == Some(|DimsText(dims)|)
  {
    if dims == [] {
      assert DimsText(dims) + rest == rest;
    } else {
      SuffixOver(dims[1..], rest);
      assert dims[0] in dims;
      SuffixCons(dims[0], DimsText(dims[1..]), rest);
    }
  }

  /** What follows a type: nothing the type could go on with. */
  predicate Stops(kind: Kind, dims: seq<string>, t: string) {
    t != "" && t[0] != '[' && (kind.Elementary? && dims == [] ==> !TypeChar(t[0]))
  }

  lemma SuffixReads(dims: seq<string>, rest: string)
    requires (forall d | d in dims :: Digits(d)) && rest != "" && rest[0] != '['
    ensures Suffix(DimsText(dims) + rest) == Some(Piece(DimsText(dims), rest))
  {
    SuffixOver(dims, rest);
    Cut(DimsText(dims), rest);
  }

  lemma Cut(a: string, b: string)
    ensures (a + b)[..|a|] == a && (a + b)[|a|..] == b
  {}

  lemma BaseReads(base: string, more: string)
    requires IsBase(base) && (more == "" || !TypeChar(more[0]))
    ensures TypeToken(base + more) ==
      if Suffix(more).None? then None else Some(Piece(base + Suffix(more).value.text, Suffix(more).value.rest))
  {
    var t := base + more;
    assert t[1..] == base[1..] + more;
    RunOver(base[1..], TypeChar, more);
    assert [base[0]] + base[1..] == base;
    Cut(base, more);
  }

  lemma TokenReads(base: string, dims: seq<string>, rest: string)
    requires IsBase(base) && (forall d | d in dims :: Digits(d)) && Stops(Elementary(base), dims, rest)
    ensures TypeToken(base + (DimsText(dims) + rest)) == Some(Piece(base + DimsText(dims), rest))
  {
    var more := DimsText(dims) + rest;
    assert more[0] == if dims == [] then rest[0] else '[';
    BaseReads(base, more);
    SuffixReads(dims, rest);
  }

  predicate EndsArg(t: string) {
    t != "" && (t[0] == ',' || t[0] == ')')
  }

  /** The name part: what remains once the keyword, if any, is read. */
  lemma NameReads(p: Param, rest: string)
    requires Only(p.nameGap, BLANK) && Only(p.after, BLANK) && EndsArg(rest)
    requires p.name != "" ==> IsName(p.name)
    ensures var t := NamePart(p) + (p.after + rest);
      if p.name == "" then Ident(t) == None && SkipSpace(t) == rest
      else Ident(t) == Some(Piece(p.name, p.after + rest))
  {
    if p.name == "" {
      IdentOfNone(p.after, rest);
      assert "" + (p.after + rest) == p.after + rest;
    } else {
      IdentOver(p.nameGap, p.name, p.after + rest);
      assert p.nameGap + p.name + (p.after + rest) == p.nameGap + (p.name + (p.after + rest));
    }
  }

  lemma KeywordIsName(keyword: string)
    requires keyword == KEYWORD
    ensures IsName(keyword) && keyword[0] == 'i' && keyword == "indexed"
  {}

  lemma IndexedTrailer(p: Param, rest: string, more: string, keyword: string)
    requires WellFormed(p, true) && EndsArg(rest) && p.indexed && more == NamePart(p) + (p.after + rest)
    requires keyword == KEYWORD
    ensures var r := Trailer(p.keywordGap + (keyword + more), true);
      r.Some? && r.value.0 && r.value.1 == p.name && SkipSpace(r.value.2) == rest
  {
    KeywordIsName(keyword);
    AfterKeyword(p, rest, more);
    IdentOver(p.keywordGap, keyword, more);
    NameReads(p, rest);
    SkipsMore(p.after, rest);
  }

  lemma AfterKeyword(p: Param, rest: string, more: string)
    requires WellFormed(p, true) && EndsArg(rest) && p.indexed && more == NamePart(p) + (p.after + rest)
    ensures !NameChar(more[0])
  {
    if p.name != "" {
      assert more[0] == p.nameGap[0];
    } else {
      assert more == p.after + rest;
    }
  }

  lemma PlainTrailer(p: Param, rest: string, more: string, allowIndexed: bool)
    requires WellFormed(p, allowIndexed) && EndsArg(rest) && !p.indexed && more == NamePart(p) + (p.after + rest)
    ensures var r := Trailer(more, allowIndexed);
      r.Some? && !r.value.0 && r.value.1 == p.name && SkipSpace(r.value.2) == rest
  {
    NameReads(p, rest);
    SkipsMore(p.after, rest);
  }

  lemma TailParts(p: Param, rest: string, more: string, keyword: string)
    requires more == NamePart(p) + (p.after + rest) && keyword == KEYWORD
    ensures Tail(p) + rest == if p.indexed then p.keywordGap + (keyword + more) else more
  {
    Regroup(if p.indexed then p.keywordGap + keyword else "", NamePart(p), p.after, rest);
    if p.indexed {
      assert p.keywordGap + keyword + more == p.keywordGap + (keyword + more);
    } else {
      assert "" + more == more;
    }
  }

  lemma Regroup(a: string, b: string, c: string, rest: string)
    ensures a + (b + c) + rest == a + (b + (c + rest))
  {}

  lemma TrailerReads(p: Param, rest: string, allowIndexed: bool)
    requires WellFormed(p, allowIndexed) && EndsArg(rest)
    ensures var r := Trailer(Tail(p) + rest, allowIndexed);
      r.Some? && r.value.0 == p.indexed && r.value.1 == p.name && SkipSpace(r.value.2) == rest
  {
    var more := NamePart(p) + (p.after + rest);
    TailParts(p, rest, more, KEYWORD);
    if p.indexed {
      IndexedTrailer(p, rest, more, KEYWORD);
    } else {
      PlainTrailer(p, rest, more, allowIndexed);
    }
  }

  lemma TailStops(p: Param, rest: string, allowIndexed: bool)
    requires WellFormed(p, allowIndexed) && EndsArg(rest)
    ensures Stops(p.kind, p.dims, Tail(p) + rest)
  {
    var more := NamePart(p) + (p.after + rest);
    TailParts(p, rest, more, KEYWORD);
    if p.indexed {
      KeywordStops(p, more, KEYWORD);
    } else {
      NameStops(p, rest, more);
    }
  }

  lemma KeywordStops(p: Param, more: string, keyword: string)
    requires WellFormed(p, true) && p.indexed && keyword == KEYWORD
    ensures Stops(p.kind, p.dims, p.keywordGap + (keyword + more))
  {
    KeywordIsName(keyword);
    WordStops(p, p.keywordGap, keyword, more);
  }

  lemma NameStops(p: Param, rest: string, more: string)
    requires WellFormed(p, p.indexed) && !p.indexed && EndsArg(rest) && more == NamePart(p) + (p.after + rest)
    ensures Stops(p.kind, p.dims, more)
  {
    if p.name != "" {
      assert more == p.nameGap + (p.name + (p.after + rest));
      WordStops(p, p.nameGap, p.name, p.after + rest);
    } else {
      assert more == p.after + rest;
    }
  }

  lemma WordStops(p: Param, gap: string, word: string, rest: string)
    requires Only(gap, BLANK) && IsName(word)
    requires p.kind.Elementary? && p.dims == [] ==> gap != "" || !TypeChar(word[0])
    ensures Stops(p.kind, p.dims, gap + (word + rest))
  {
    FirstOf(gap, word, rest);
  }

  lemma FirstOf(gap: string, word: string, rest: string)
    ensures word != "" ==> (gap + (word + rest))[0] == if gap == "" then word[0] else gap[0]
  {}

  lemma ParamSplit(a: string, b: string, c: string, d: string, rest: string)
    ensures a + (b + (c + d)) + rest == a + (b + (c + (d + rest)))
  {}

  lemma {:induction false} ArgReads(p: Param, rest: string, allowIndexed: bool)
    requires WellFormed(p, allowIndexed) && EndsArg(rest)
    ensures var r := OneArg(ParamText(p) + rest, allowIndexed);
      r.Some? && r.value.0 == ToArg(p) && r.value.1 == p.indexed && SkipSpace(r.value.2) == rest
    decreases p, 1
  {
    var tail := Tail(p) + rest;
    TailStops(p, rest, allowIndexed);
    TypeReads(p.before, p.kind, p.dims, tail);
    ParamSplit(p.before, KindText(p.kind), DimsText(p.dims), Tail(p), rest);
    TrailerReads(p, rest, allowIndexed);
  }

  lemma {:induction false} TypeReads(before: string, kind: Kind, dims: seq<string>, tail: string)
    requires Only(before, BLANK) && KindOk(kind) && (forall d | d in dims :: Digits(d)) && Stops(kind, dims, tail)
    ensures ArgType(before + (KindText(kind) + (DimsText(dims) + tail)))
         == Some((KindName(kind, dims), KindArgs(kind), tail))
    decreases kind, 0
  {
    var more := DimsText(dims) + tail;
    match kind
    case Elementary(base) =>
      TokenReads(base, dims, tail);
      ElementaryType(before, base + more);
    case Tuple(components, gap) =>
      var list := ParamsText(components, gap);
      ListReads(components, gap, [')'] + more, false);
      NoneIndexed(components);
      SuffixReads(dims, tail);
      TupleType(before, list, more, ToArgs(components));
  }

  lemma ElementaryType(before: string, t: string)
    requires Only(before, BLANK) && t != "" && IsAlpha(t[0]) && TypeToken(t).Some?
    ensures ArgType(before + t) == Some((TypeToken(t).value.text, [], TypeToken(t).value.rest))
  {
    SkipsBlank(before, t);
  }

  lemma TupleType(before: string, list: string, more: string, args: seq<Arg>)
    requires Only(before, BLANK) && Suffix(more).Some?
    requires ArgList(list + ([')'] + more), false) == Some((args, false, [')'] + more))
    ensures ArgType(before + (['('] + (list + [')']) + more))
         == Some(("tuple" + Suffix(more).value.text, args, Suffix(more).value.rest))
  {
    var t, u := ['('] + (list + [')']) + more, [')'] + more;
    SkipsBlank(before, t);
    TupleSlices(list, more, t, u);
    TupleAt(before + t, t, list + u, u, args);
  }

  lemma TupleSlices(list: string, more: string, t: string, u: string)
    requires t == ['('] + (list + [')']) + more && u == [')'] + more
    ensures t != "" && t[0] == '(' && t[1..] == list + u && u[1..] == more
  {}

  lemma TupleAt(text: string, t: string, list: string, u: string, args: seq<Arg>)
    requires SkipSpace(text) == t && t != "" && t[0] == '(' && t[1..] == list && u != "" && u[0] == ')'
    requires ArgList(list, false) == Some((args, false, u)) && Suffix(u[1..]).Some?
    ensures ArgType(text) == Some(("tuple" + Suffix(u[1..]).value.text, args, Suffix(u[1..]).value.rest))
  {}

  lemma {:induction false} ArgsRead(ps: seq<Param>, gap: string, rest: string, allowIndexed: bool)
    requires ps != [] && AllWellFormed(ps, allowIndexed) && rest != "" && rest[0] == ')'
    ensures Args(ParamsText(ps, gap) + rest, allowIndexed) == Some((ToArgs(ps), AnyIndexed(ps), rest))
    decreases ps, 2
  {
    if |ps| == 1 {
      ArgReads(ps[0], rest, allowIndexed);
      LastArg(ParamText(ps[0]) + rest, ToArg(ps[0]), ps[0].indexed, rest, allowIndexed);
      assert ps[1..] == [] && ToArgs(ps) == [ToArg(ps[0])];
    } else {
      var more := ParamsText(ps[1..], gap) + rest;
      ListSplit(ps, gap, rest);
      ArgReads(ps[0], [','] + more, allowIndexed);
      ArgsRead(ps[1..], gap, rest, allowIndexed);
      MoreArgs(ParamText(ps[0]) + ([','] + more), ToArg(ps[0]), ps[0].indexed, more, allowIndexed);
    }
  }

  lemma ListSplit(ps: seq<Param>, gap: string, rest: string)
    requires |ps| > 1
    ensures ParamsText(ps, gap) + rest == ParamText(ps[0]) + ([','] + (ParamsText(ps[1..], gap) + rest))
  {
    Commas(ParamText(ps[0]), ParamsText(ps[1..], gap), rest);
  }

  lemma Commas(a: string, b: string, rest: string)
    ensures a + ([','] + b) + rest == a + ([','] + (b + rest))
  {}

  lemma LastArg(t: string, a: Arg, indexed: bool, rest: string, allowIndexed: bool)
    requires var r := OneArg(t, allowIndexed);
      r.Some? && r.value.0 == a && r.value.1 == indexed && SkipSpace(r.value.2) == rest
    requires rest == "" || rest[0] != ','
    ensures Args(t, allowIndexed) == Some(([a], indexed, rest))
  {}

  lemma MoreArgs(t: string, a: Arg, indexed: bool, more: string, allowIndexed: bool)
    requires var r := OneArg(t, allowIndexed);
      r.Some? && r.value.0 == a && r.value.1 == indexed && SkipSpace(r.value.2) == [','] + more
    ensures Args(t, allowIndexed) == Joined([a], indexed, Args(more, allowIndexed))
  {
    assert ([','] + more)[1..] == more;
  }

  /** A nonempty list does not look like an empty one. */
  lemma ListStart(ps: seq<Param>, gap: string, rest: string, allowIndexed: bool)
    requires ps != [] && AllWellFormed(ps, allowIndexed)
    ensures var t := SkipSpace(ParamsText(ps, gap) + rest);
      t != "" && t[0] != ')' && Args(t, allowIndexed) == Args(ParamsText(ps, gap) + rest, allowIndexed)
  {
    var p := ps[0];
    var end := if |ps| == 1 then rest else [','] + (ParamsText(ps[1..], gap) + rest);
    if |ps| > 1 {
      ListSplit(ps, gap, rest);
    }
    ParamSplit(p.before, KindText(p.kind), DimsText(p.dims), Tail(p), end);
    KindStarts(p.kind);
    StartsWith(p.before, KindText(p.kind), DimsText(p.dims) + (Tail(p) + end));
    ArgsSkip(ParamsText(ps, gap) + rest, allowIndexed);
  }

  lemma KindStarts(kind: Kind)
    requires KindOk(kind)
    ensures KindText(kind) != "" && KindText(kind)[0] !in BLANK && KindText(kind)[0] != ')'
  {}

  lemma StartsWith(before: string, t: string, more: string)
    requires Only(before, BLANK) && t != "" && t[0] !in BLANK && t[0] != ')'
    ensures var u := SkipSpace(before + (t + more)); u != "" && u[0] != ')'
  {
    SkipsBlank(before, t + more);
  }

  lemma ArgsSkip(t: string, allowIndexed: bool)
    ensures Args(SkipSpace(t), allowIndexed) == Args(t, allowIndexed)
  {
    assert SkipSpace(SkipSpace(t)) == SkipSpace(t);
    assert ArgType(SkipSpace(t)) == ArgType(t);
    assert OneArg(SkipSpace(t), allowIndexed) == OneArg(t, allowIndexed);
  }

  lemma {:induction false} ListReads(ps: seq<Param>, gap: string, rest: string, allowIndexed: bool)
    requires Only(gap, BLANK) && AllWellFormed(ps, allowIndexed) && rest != "" && rest[0] == ')'
    ensures ArgList(ParamsText(ps, gap) + rest, allowIndexed) == Some((ToArgs(ps), AnyIndexed(ps), rest))
    ensures SkipSpace(rest) == rest
    decreases ps, 3
  {
    SkipsBlank(gap, rest);
    if ps != [] {
      ListStart(ps, gap, rest, allowIndexed);
      ArgsRead(ps, gap, rest, allowIndexed);
    }
  }

  lemma SectionRead(l: Section, rest: string, allowIndexed: bool)
    requires SectionOk(l, allowIndexed)
    ensures Parens(SectionText(l) + rest, allowIndexed) == Some((ToArgs(l.params), AnyIndexed(l.params), rest))
    ensures SkipSpace(SectionText(l) + rest) != "" && SkipSpace(SectionText(l) + rest)[0] == '('
    ensures Parens(SkipSpace(SectionText(l) + rest), allowIndexed) == Parens(SectionText(l) + rest, allowIndexed)
  {
    var list := ParamsText(l.params, l.gap);
    var t := ['('] + (list + ([')'] + rest));
    Parenthesized(l.lead, list, rest);
    SkipsBlank(l.lead, t);
    SkipsBlank("", t);
    assert "" + t == t;
    ListReads(l.params, l.gap, [')'] + rest, allowIndexed);
    ParensAt(t, list + ([')'] + rest), [')'] + rest, allowIndexed);
    ParensSkip(SectionText(l) + rest, t, allowIndexed);
    assert ([')'] + rest)[1..] == rest;
  }

  lemma Parenthesized(lead: string, list: string, rest: string)
    ensures lead + (['('] + (list + [')'])) + rest == lead + (['('] + (list + ([')'] + rest)))
  {}

  lemma ParensAt(t: string, inner: string, close: string, allowIndexed: bool)
    requires t == ['('] + inner && SkipSpace(t) == t && close != "" && close[0] == ')' && SkipSpace(close) == close
    requires ArgList(inner, allowIndexed).Some? && ArgList(inner, allowIndexed).value.2 == close
    ensures var l := ArgList(inner, allowIndexed).value; Parens(t, allowIndexed) == Some((l.0, l.1, close[1..]))
  {
    assert t[1..] == inner;
  }

  lemma ParensSkip(t0: string, t: string, allowIndexed: bool)
    requires SkipSpace(t0) == t && SkipSpace(t) == t
    ensures Parens(t0, allowIndexed) == Parens(t, allowIndexed)
  {}

  lemma {:induction false} NoneIndexed(ps: seq<Param>)
    requires AllWellFormed(ps, false)
    ensures !AnyIndexed(ps)
  {
    if ps != [] {
      NoneIndexed(ps[1..]);
    }
  }

  /** What the parser must make of a written signature. */
  function Meaning(w: Written): Signature {
    Signature(w.name, Named(ToArgs(w.inputs.params), "arg", 0),
              if w.outputs.Some? then Named(ToArgs(w.outputs.value.params), "ret", 0) else [],
              w.outputs.Some?, AnyIndexed(w.inputs.params))
  }

  /** Parsing inverts printing, for every tree and every layout of blanks. */
  lemma ParseInvertsPrint(w: Written)
    requires Printable(w)
    ensures Parse(WrittenText(w)) == Some(Meaning(w))
  {
    SignatureClean(w);
    TrimClean(WrittenText(w));
    TrimmedInvertsPrint(w);
  }

  lemma TrimmedInvertsPrint(w: Written)
    requires Printable(w)
    ensures ParseTrimmed(WrittenText(w)) == Some(Meaning(w))
  {
    var outs := OutputsText(w.outputs);
    var ins := SectionText(w.inputs) + outs;
    SectionStarts(w.inputs, outs);
    NameFirst(w.name, ins);
    SectionRead(w.inputs, outs, true);
    OutputsRead(w.outputs);
    Assembled(WrittenText(w), w.name, ins, ToArgs(w.inputs.params), AnyIndexed(w.inputs.params), outs,
              if w.outputs.Some? then ToArgs(w.outputs.value.params) else [], w.outputs.Some?);
  }

  lemma SectionStarts(l: Section, rest: string)
    requires Only(l.lead, BLANK)
    ensures !NameChar((SectionText(l) + rest)[0])
  {
    FirstOf(l.lead, ['('] + (ParamsText(l.params, l.gap) + [')']), rest);
    assert SectionText(l) + rest == l.lead + ((['('] + (ParamsText(l.params, l.gap) + [')'])) + rest);
  }

  lemma SectionEnds(l: Section)
    ensures SectionText(l) != "" && SectionText(l)[|SectionText(l)| - 1] == ')'
  {
    EndsParen(l.lead, ParamsText(l.params, l.gap));
  }

  lemma EndsParen(lead: string, list: string)
    ensures var t := lead + (['('] + (list + [')'])); t[|t| - 1] == ')'
  {}

  lemma SignatureClean(w: Written)
    requires Printable(w)
    ensures Clean(WrittenText(w))
  {
    var last := if w.outputs.Some? then w.outputs.value else w.inputs;
    SectionEnds(last);
    EndsWith(w.name, SectionText(w.inputs), OutputsText(w.outputs), SectionText(last));
  }

  lemma EndsWith(a: string, b: string, c: string, d: string)
    requires a != "" && d != "" && ((c == "" && d == b) || c == d)
    ensures var t := a + (b + c); t[0] == a[0] && t[|t| - 1] == d[|d| - 1]
  {}

  lemma NameFirst(name: string, ins: string)
    requires IsName(name) && (ins == "" || !NameChar(ins[0]))
    ensures Ident(name + ins) == Some(Piece(name, ins))
  {
    IdentOver("", name, ins);
    assert "" + (name + ins) == name + ins;
  }

  lemma Assembled(s: string, name: string, rest: string, ins: seq<Arg>, indexed: bool, more: string, outs: seq<Arg>, has: bool)
    requires Ident(s) == Some(Piece(name, rest)) && Parens(rest, true) == Some((ins, indexed, more))
    requires Outputs(more) == Some((outs, has))
    ensures ParseTrimmed(s) == Some(Signature(name, Named(ins, "arg", 0), Named(outs, "ret", 0), has, indexed))
  {}

  lemma OutputsRead(written: Option<Section>)
    requires written.Some? ==> SectionOk(written.value, false)
    ensures Outputs(OutputsText(written)) == Some((if written.Some? then ToArgs(written.value.params) else [], written.Some?))
  {
    if written.Some? {
      SectionRead(written.value, "", false);
      assert SectionText(written.value) + "" == SectionText(written.value);
    }
  }

}
