/** The cast-style signature parser of internal/abi/abi.go: parseSignature, sigParser and nameArgs. */
module Signature {
  import opened Text

  /** abiJSONArg. */
  datatype Arg = Arg(name: string, typ: string, internalType: string, indexed: bool, components: seq<Arg>)

  datatype Signature = Signature(name: string, inputs: seq<Arg>, outputs: seq<Arg>, hasOutputs: bool, anyIndexed: bool)

  predicate IsAlpha(c: char) {
    ('a' <= c <= 'z') || ('A' <= c <= 'Z')
  }

  predicate IsDigit(c: char) {
    '0' <= c <= '9'
  }

  predicate NameStart(c: char) {
    IsAlpha(c) || c == '_' || c == '$'
  }

  predicate NameChar(c: char) {
    NameStart(c) || IsDigit(c)
  }

  predicate TypeChar(c: char) {
    IsAlpha(c) || IsDigit(c)
  }

  const BLANK: set<char> := {' ', '\t'}

  // --- what each parser method reads, as a function of the text ahead ---

  function SkipSpace(t: string): (r: string)
    ensures |r| <= |t|
    ensures r == "" || r[0] !in BLANK
  {
    if t != "" && t[0] in BLANK then SkipSpace(t[1..]) else t
  }

  /** The first `|run|` chars of `t` that satisfy `p`, greedily. */
  function Run(t: string, p: char -> bool): (run: string)
    ensures run <= t
  {
    if t != "" && p(t[0]) then [t[0]] + Run(t[1..], p) else ""
  }

  /** A run is the longest prefix of its class. */
  lemma {:induction false} RunIs(t: string, p: char -> bool, n: nat)
    requires n <= |t| && (forall k | 0 <= k < n :: p(t[k])) && (n < |t| ==> !p(t[n]))
    ensures Run(t, p) == t[..n]
    decreases n
  {
    if n > 0 {
      RunIs(t[1..], p, n - 1);
      assert t[..n] == [t[0]] + t[1..][..n - 1];
    }
  }

  datatype Piece = Piece(text: string, rest: string)

  /** maybeIdentifier, and identifier where it must succeed. */
  function Ident(t0: string): (r: Option<Piece>)
    ensures r.Some? ==> |r.value.rest| < |SkipSpace(t0)| <= |t0| && r.value.text != ""
  {
    var t := SkipSpace(t0);
    if t == "" || !NameStart(t[0]) then None
    else
      var id := [t[0]] + Run(t[1..], NameChar);
      Some(Piece(id, t[|id|..]))
  }

  /** How many chars arraySuffix takes: any number of "[digits]", nothing if one is left open. */
  function SuffixLen(t: string): (r: Option<nat>)
    ensures r.Some? ==> r.value <= |t|
    decreases |t|
  {
    if t == "" || t[0] != '[' then Some(0)
    else
      var k := |Run(t[1..], IsDigit)|;
      if 1 + k == |t| || t[1 + k] != ']' then None
      else
        var more := SuffixLen(t[k + 2..]);
        if more.None? then None else Some(k + 2 + more.value)
  }

  function Suffix(t: string): (r: Option<Piece>)
    ensures r.Some? ==> |r.value.rest| <= |t|
  {
    var n := SuffixLen(t);
    if n.None? then None else Some(Piece(t[..n.value], t[n.value..]))
  }

  function TypeToken(t0: string): (r: Option<Piece>)
    ensures r.Some? ==> |r.value.rest| < |t0|
  {
    var t := SkipSpace(t0);
    if t == "" || !IsAlpha(t[0]) then None
    else
      var base := [t[0]] + Run(t[1..], TypeChar);
      var s := Suffix(t[|base|..]);
      if s.None? then None else Some(Piece(base + s.value.text, s.value.rest))
  }

  /** The optional `indexed` keyword and name after a type: flag, name and what follows. */
  function Trailer(t: string, allowIndexed: bool): (r: Option<(bool, string, string)>)
    ensures r.Some? ==> |r.value.2| <= |t|
    ensures r.Some? && !allowIndexed ==> !r.value.0
  {
    var id := Ident(t);
    if id.None? then Some((false, "", SkipSpace(t)))
    else if id.value.text != "indexed" then Some((false, id.value.text, id.value.rest))
    else if !allowIndexed then None
    else
      var name := Ident(id.value.rest);
      if name.None? then Some((true, "", SkipSpace(id.value.rest))) else Some((true, name.value.text, name.value.rest))
  }

  /** The type of one argument: elementary, or a tuple with its components. */
  function ArgType(t0: string): (r: Option<(string, seq<Arg>, string)>)
    ensures r.Some? ==> |r.value.2| < |t0|
    decreases |t0|, 0
  {
    var t := SkipSpace(t0);
    if t != "" && t[0] == '(' then
      var comps := ArgList(t[1..], false);
      if comps.None? then None
      else
        var u := SkipSpace(comps.value.2);
        if u == "" || u[0] != ')' then None
        else
          var s := Suffix(u[1..]);
          if s.None? then None else Some(("tuple" + s.value.text, comps.value.0, s.value.rest))
    else
      var tok := TypeToken(t);
      if tok.None? then None else Some((tok.value.text, [], tok.value.rest))
  }

  /** A list read so far, put in front of what the remaining text gives. */
  function Joined(list: seq<Arg>, indexed: bool, more: Option<(seq<Arg>, bool, string)>): Option<(seq<Arg>, bool, string)> {
    if more.None? then None else Some((list + more.value.0, indexed || more.value.1, more.value.2))
  }

  lemma JoinedTwice(l: seq<Arg>, b: bool, l': seq<Arg>, b': bool, more: Option<(seq<Arg>, bool, string)>)
    ensures Joined(l, b, Joined(l', b', more)) == Joined(l + l', b || b', more)
    ensures Joined([], false, more) == more
  {
    if more.Some? {
      assert l + (l' + more.value.0) == l + l' + more.value.0;
      assert [] + more.value.0 == more.value.0;
    }
  }

  function OneArg(t: string, allowIndexed: bool): (r: Option<(Arg, bool, string)>)
    ensures r.Some? ==> |r.value.2| < |t|
    ensures r.Some? && !allowIndexed ==> !r.value.1
    decreases |t|, 1
  {
    var ty := ArgType(t);
    if ty.None? then None
    else
      var tr := Trailer(ty.value.2, allowIndexed);
      if tr.None? then None
      else Some((Arg(tr.value.1, ty.value.0, ty.value.0, tr.value.0, ty.value.1), tr.value.0, tr.value.2))
  }

  /** The loop of argList, at an argument. */
  function Args(t: string, allowIndexed: bool): (r: Option<(seq<Arg>, bool, string)>)
    ensures r.Some? ==> |r.value.2| < |t|
    ensures r.Some? && !allowIndexed ==> !r.value.1
    decreases |t|, 2
  {
    var a := OneArg(t, allowIndexed);
    if a.None? then None
    else
      var u := SkipSpace(a.value.2);
      if u != "" && u[0] == ',' then
        Joined([a.value.0], a.value.1, Args(u[1..], allowIndexed))
      else Some(([a.value.0], a.value.1, u))
  }

  function ArgList(t0: string, allowIndexed: bool): (r: Option<(seq<Arg>, bool, string)>)
    ensures r.Some? ==> |r.value.2| <= |t0|
    ensures r.Some? && !allowIndexed ==> !r.value.1
    decreases |t0|, 3
  {
    var t := SkipSpace(t0);
    if t != "" && t[0] == ')' then Some(([], false, t)) else Args(t, allowIndexed)
  }

  /** "(" args ")" with the opening parenthesis already at hand. */
  function Parens(t0: string, allowIndexed: bool): (r: Option<(seq<Arg>, bool, string)>)
    ensures r.Some? && !allowIndexed ==> !r.value.1
  {
    var t := SkipSpace(t0);
    if t == "" || t[0] != '(' then None
    else
      var l := ArgList(t[1..], allowIndexed);
      if l.None? then None
      else
        var u := SkipSpace(l.value.2);
        if u == "" || u[0] != ')' then None else Some((l.value.0, l.value.1, u[1..]))
  }

  /** The optional outputs and the end of the text: the outputs, and whether there were any. */
  function Outputs(t0: string): Option<(seq<Arg>, bool)> {
    var t := SkipSpace(t0);
    var has := t != "" && t[0] == '(';
    var outs := if has then Parens(t, false) else Some(([], false, t));
    if outs.None? || SkipSpace(outs.value.2) != "" then None else Some((outs.value.0, has))
  }

  function ParseTrimmed(s: string): Option<Signature> {
    var id := Ident(s);
    if id.None? then None
    else
      var ins := Parens(id.value.rest, true);
      if ins.None? then None
      else
        var outs := Outputs(ins.value.2);
        if outs.None? then None
        else Some(Signature(id.value.text, Named(ins.value.0, "arg", 0), Named(outs.value.0, "ret", 0), outs.value.1, ins.value.1))
  }

  function Parse(sig: string): Option<Signature> {
    ParseTrimmed(TrimSpace(sig))
  }

  // --- nameArgs ---

  function NameOne(a: Arg, prefix: string, i: nat): Arg
    decreases a, 0
  {
    a.(name := if a.name == "" then prefix + Itoa(i) else a.name, components := Named(a.components, "field", 0))
  }

  /** nameArgs, for arguments standing at positions `from`, from + 1, ... */
  function Named(args: seq<Arg>, prefix: string, from: nat): (r: seq<Arg>)
    ensures |r| == |args|
    decreases args, 1
  {
    if args == [] then [] else [NameOne(args[0], prefix, from)] + Named(args[1..], prefix, from + 1)
  }

  lemma {:induction false} NamedAt(args: seq<Arg>, prefix: string, from: nat, k: nat)
    requires k < |args|
    ensures Named(args, prefix, from)[k] == NameOne(args[k], prefix, from + k)
    decreases k
  {
    if k > 0 {
      NamedAt(args[1..], prefix, from + 1, k - 1);
    }
  }

  /** nameArgs, filling the names in place. */
  method NameArgs(args: seq<Arg>, prefix: string) returns (out: seq<Arg>)
    ensures out == Named(args, prefix, 0)
    decreases args
  {
    out := args;
    for i := 0 to |args|
      invariant |out| == |args|
      invariant forall k | 0 <= k < i :: out[k] == Named(args, prefix, 0)[k]
      invariant forall k | i <= k < |args| :: out[k] == args[k]
    {
      NamedAt(args, prefix, 0, i);
      assert out[i] == args[i] && args[i] in args;
      if out[i].name == "" {
        out := out[i := out[i].(name := prefix + Itoa(i))];
      }
      if |args[i].components| > 0 {
        var comps := NameArgs(args[i].components, "field");
        out := out[i := out[i].(components := comps)];
      }
    }
  }

  /** No argument at any depth is without a name: what the ABI compiler needs. */
  ghost predicate AllNamed(args: seq<Arg>)
    decreases args
  {
    forall i | 0 <= i < |args| :: args[i].name != "" && AllNamed(args[i].components)
  }

  lemma {:induction false} NamedIsAllNamed(args: seq<Arg>, prefix: string, from: nat)
    ensures AllNamed(Named(args, prefix, from))
    decreases args
  {
    var r := Named(args, prefix, from);
    forall i | 0 <= i < |r|
      ensures r[i].name != "" && AllNamed(r[i].components)
    {
      NamedAt(args, prefix, from, i);
      assert args[i] in args;
      NamedIsAllNamed(args[i].components, "field", 0);
    }
  }

  /** Everything but the names, at every depth. */
  function Nameless(args: seq<Arg>): (r: seq<Arg>)
    ensures |r| == |args|
    decreases args
  {
    if args == [] then []
    else [args[0].(name := "", components := Nameless(args[0].components))] + Nameless(args[1..])
  }

  /** Naming changes names only: types, indexed flags and the shape of tuples stay. */
  lemma {:induction false} NamingKeepsRest(args: seq<Arg>, prefix: string, from: nat)
    ensures Nameless(Named(args, prefix, from)) == Nameless(args)
    decreases args
  {
    if args != [] {
      NamingKeepsRest(args[0].components, "field", 0);
      NamingKeepsRest(args[1..], prefix, from + 1);
      var r := Named(args, prefix, from);
      assert r[0] == NameOne(args[0], prefix, from) && r[1..] == Named(args[1..], prefix, from + 1);
    }
  }

  /** An explicit name stays; another argument is called after its position, with "field" inside a tuple. */
  lemma NamesAre(args: seq<Arg>, prefix: string, i: nat, j: nat)
    requires i < |args|
    ensures var a, b := args[i], Named(args, prefix, 0)[i];
      && b.name == (if a.name != "" then a.name else prefix + Itoa(i))
      && |b.components| == |a.components|
      && (j < |a.components| ==>
            b.components[j].name == if a.components[j].name != "" then a.components[j].name else "field" + Itoa(j))
  {
    NamedAt(args, prefix, 0, i);
    if j < |args[i].components| {
      NamedAt(args[i].components, "field", 0, j);
    }
  }

  lemma {:induction false} NamedKeepsNamed(args: seq<Arg>, prefix: string, from: nat)
    requires AllNamed(args)
    ensures Named(args, prefix, from) == args
    decreases args
  {
    var r := Named(args, prefix, from);
    forall i | 0 <= i < |r|
      ensures r[i] == args[i]
    {
      NamedAt(args, prefix, from, i);
      assert args[i] in args;
      NamedKeepsNamed(args[i].components, "field", 0);
    }
  }

  predicate NamesDistinct(args: seq<Arg>) {
    forall i, j | 0 <= i < j < |args| :: args[i].name != args[j].name
  }

  /** Two arguments whose final names differ: explicit ones do, or the explicit one is not the name generated
      for the other's position, or both are generated. */
  predicate NoClash(a: string, i: nat, b: string, j: nat, prefix: string) {
    if a != "" && b != "" then a != b
    else if a != "" then a != prefix + Itoa(j)
    else if b != "" then b != prefix + Itoa(i)
    else true
  }

  /** Generated names never clash among themselves, so the names come out distinct exactly when no explicit one
      clashes with another or with a generated one. */
  lemma NamesDistinctIff(args: seq<Arg>, prefix: string)
    ensures NamesDistinct(Named(args, prefix, 0)) <==>
      forall i, j | 0 <= i < j < |args| :: NoClash(args[i].name, i, args[j].name, j, prefix)
  {
    var r := Named(args, prefix, 0);
    forall i, j | 0 <= i < j < |args|
      ensures r[i].name != r[j].name <==> NoClash(args[i].name, i, args[j].name, j, prefix)
    {
      NamedAt(args, prefix, 0, i);
      NamedAt(args, prefix, 0, j);
      GeneratedDiffer(prefix, i, j);
    }
  }

  lemma GeneratedDiffer(prefix: string, i: nat, j: nat)
    requires i != j
    ensures prefix + Itoa(i) != prefix + Itoa(j)
  {
    assert (prefix + Itoa(i))[|prefix|..] == Itoa(i);
    assert (prefix + Itoa(j))[|prefix|..] == Itoa(j);
  }

  /** An explicit "arg1" in front of an unnamed second argument is such a clash. */
  lemma ExplicitNameCanClash(a: Arg, b: Arg)
    requires a.name == "arg1" && b.name == ""
    ensures !NamesDistinct(Named([a, b], "arg", 0))
  {
    NamesDistinctIff([a, b], "arg");
    assert Itoa(1) == "1";
    assert !NoClash([a, b][0].name, 0, [a, b][1].name, 1, "arg");
  }

  // --- the parser ---

  class SigParser {
    const s: string
    var i: nat

    ghost predicate Valid()
      reads this
    {
      i <= |s|
    }

    ghost function Ahead(): string
      reads this
      requires Valid()
    {
      s[i..]
    }

    constructor (s: string)
      ensures this.s == s && i == 0 && Valid()
    {
      this.s, i := s, 0;
    }

    /** peek()==c, where the end of the text peeks as the zero byte. */
    predicate PeekIs(c: char)
      reads this
      requires Valid()
    {
      i < |s| && s[i] == c
    }

    method Spaces()
      requires Valid()
      modifies this
      ensures Valid() && i >= old(i) && Ahead() == SkipSpace(old(Ahead()))
    {
      while i < |s| && (s[i] == ' ' || s[i] == '\t')
        invariant Valid() && i >= old(i) && SkipSpace(Ahead()) == SkipSpace(old(Ahead()))
      {
        assert s[i + 1..] == s[i..][1..];
        i := i + 1;
      }
    }

    method Consume(c: char) returns (ok: bool)
      requires Valid()
      modifies this
      ensures Valid() && i >= old(i)
      ensures var t := SkipSpace(old(Ahead()));
        && (ok <==> t != "" && t[0] == c)
        && Ahead() == if ok then t[1..] else t
      ensures ok ==> i > old(i)
    {
      Spaces();
      if i < |s| && s[i] == c {
        assert s[i + 1..] == s[i..][1..];
        i := i + 1;
        return true;
      }
      return false;
    }

    /** The scanning loops: advances over chars of one class. */
    method Advance(p: char -> bool)
      requires Valid()
      modifies this
      ensures Valid() && i >= old(i)
      ensures s[old(i)..i] == Run(s[old(i)..], p)
    {
      var start := i;
      while i < |s| && p(s[i])
        invariant Valid() && i >= start
        invariant forall k | start <= k < i :: p(s[k])
      {
        i := i + 1;
      }
      RunIs(s[start..], p, i - start);
    }

    /** maybeIdentifier. */
    method MaybeIdentifier() returns (id: Option<string>)
      requires Valid()
      modifies this
      ensures Valid() && i >= old(i)
      ensures id.Some? <==> Ident(old(Ahead())).Some?
      ensures id.Some? ==> Ident(old(Ahead())).value == Piece(id.value, Ahead()) && i > old(i)
      ensures id.None? ==> Ahead() == SkipSpace(old(Ahead()))
    {
      ghost var t0 := Ahead();
      Spaces();
      if i >= |s| || !NameStart(s[i]) { return None; }
      var start := i;
      i := i + 1;
      Advance(NameChar);
      IdentAt(t0, s, start, i);
      return Some(s[start..i]);
    }

    /** One round of arraySuffix: the brackets and the digits between them. */
    method Bracket() returns (ok: bool)
      requires Valid() && PeekIs('[')
      modifies this
      ensures Valid() && i > old(i)
      ensures if ok then OneBracket(s, old(i), i) else OpenBracket(s, old(i), i)
    {
      var at := i;
      i := i + 1;
      Advance(IsDigit);
      ok := PeekIs(']');
      if ok {
        i := i + 1;
      }
    }

    /** arraySuffix. */
    method ArraySuffix() returns (out: Option<string>)
      requires Valid()
      modifies this
      ensures Valid() && i >= old(i)
      ensures out.Some? <==> Suffix(old(Ahead())).Some?
      ensures out.Some? ==> Suffix(old(Ahead())).value == Piece(out.value, Ahead())
    {
      var start := i;
      var sb := "";
      while PeekIs('[')
        invariant Valid() && i >= start && sb == s[start..i]
        invariant Leads(s, start, i)
        decreases |s| - i
      {
        var at := i;
        var ok := Bracket();
        if !ok {
          SuffixFails(s, start, at, i);
          return None;
        }
        LeadsOn(s, start, at, i);
        SlicesJoin(s, start, at, i);
        sb := sb + s[at..i];
      }
      SuffixEnds(s, start, i);
      return Some(sb);
    }

    method ReadTypeToken() returns (out: Option<string>)
      requires Valid()
      modifies this
      ensures Valid() && i >= old(i)
      ensures out.Some? <==> TypeToken(old(Ahead())).Some?
      ensures out.Some? ==> TypeToken(old(Ahead())).value == Piece(out.value, Ahead()) && i > old(i)
    {
      ghost var t0 := Ahead();
      Spaces();
      if i >= |s| || !IsAlpha(s[i]) { return None; }
      var start := i;
      i := i + 1;
      Advance(TypeChar);
      var base := s[start..i];
      TypeTokenAt(t0, s, start, i);
      var suffix := ArraySuffix();
      return if suffix.None? then None else Some(base + suffix.value);
    }

    /** argList. The returned flag says whether any argument was indexed. */
    method ReadArgList(allowIndexed: bool) returns (out: Option<(seq<Arg>, bool)>)
      requires Valid()
      modifies this
      ensures Valid() && i >= old(i)
      ensures out.Some? <==> ArgList(old(Ahead()), allowIndexed).Some?
      ensures out.Some? ==> ArgList(old(Ahead()), allowIndexed).value == (out.value.0, out.value.1, Ahead())
      decreases |s| - i, 1
    {
      Spaces();
      if PeekIs(')') { return Some(([], false)); }
      out := ReadArgs(allowIndexed);
    }

    /** The loop of argList. */
    method ReadArgs(allowIndexed: bool) returns (out: Option<(seq<Arg>, bool)>)
      requires Valid()
      modifies this
      ensures Valid() && i >= old(i)
      ensures out.Some? <==> Args(old(Ahead()), allowIndexed).Some?
      ensures out.Some? ==> Args(old(Ahead()), allowIndexed).value == (out.value.0, out.value.1, Ahead())
      decreases |s| - i, 0, 3
    {
      ghost var whole := Args(Ahead(), allowIndexed);
      var list, anyIndexed, more := [], false, true;
      JoinedTwice([], false, [], false, whole);
      while more
        invariant Valid() && i >= old(i)
        invariant if more then StillToJoin(whole, list, anyIndexed, Ahead(), allowIndexed)
                  else whole == Some((list, anyIndexed, Ahead()))
        decreases |s| - i, more
      {
        ghost var t := Ahead();
        var a;
        a, more := NextArg(allowIndexed);
        if a.None? {
          ArgsFail(whole, list, anyIndexed, t, allowIndexed);
          return None;
        }
        ArgsStep(whole, list, anyIndexed, t, a.value, Ahead(), more, allowIndexed);
        list, anyIndexed := list + [a.value.0], anyIndexed || a.value.1;
      }
      return Some((list, anyIndexed));
    }

    /** One argument and what separates it from the next, if there is one. */
    method NextArg(allowIndexed: bool) returns (a: Option<(Arg, bool)>, more: bool)
      requires Valid()
      modifies this
      ensures Valid() && i >= old(i) && (a.Some? ==> i > old(i))
      ensures a.None? <==> OneArg(old(Ahead()), allowIndexed).None?
      ensures a.Some? ==> Separated(OneArg(old(Ahead()), allowIndexed).value, a.value, Ahead(), more)
      decreases |s| - i, 0, 2
    {
      more := false;
      a := ReadArg(allowIndexed);
      if a.None? { return; }
      ghost var rest := Ahead();
      Spaces();
      more := PeekIs(',');
      SeparatedAt((a.value.0, a.value.1, rest), s, i, more);
      if more {
        i := i + 1;
      }
    }

    /** arg. */
    method ReadArg(allowIndexed: bool) returns (out: Option<(Arg, bool)>)
      requires Valid()
      modifies this
      ensures Valid() && i >= old(i)
      ensures out.Some? <==> OneArg(old(Ahead()), allowIndexed).Some?
      ensures out.Some? ==> OneArg(old(Ahead()), allowIndexed).value == (out.value.0, out.value.1, Ahead()) && i > old(i)
      decreases |s| - i, 0, 1
    {
      var ty := ReadArgType();
      if ty.None? { return None; }
      var tr := ReadTrailer(allowIndexed);
      if tr.None? { return None; }
      return Some((Arg(tr.value.1, ty.value.0, ty.value.0, tr.value.0, ty.value.1), tr.value.0));
    }

    /** The first half of arg: an elementary type, or a tuple with its components. */
    method ReadArgType() returns (out: Option<(string, seq<Arg>)>)
      requires Valid()
      modifies this
      ensures Valid() && i >= old(i)
      ensures out.Some? <==> ArgType(old(Ahead())).Some?
      ensures out.Some? ==> ArgType(old(Ahead())).value == (out.value.0, out.value.1, Ahead()) && i > old(i)
      decreases |s| - i, 0, 0
    {
      Spaces();
      if PeekIs('(') {
        assert SkipSpace(Ahead()) == Ahead();
        var _ := Consume('(');
        var list := ReadArgList(false);
        if list.None? { return None; }
        var closed := Consume(')');
        if !closed { return None; }
        var suffix := ArraySuffix();
        return if suffix.None? then None else Some(("tuple" + suffix.value, list.value.0));
      }
      var tok := ReadTypeToken();
      return if tok.None? then None else Some((tok.value, []));
    }

    /** The opening parenthesis, the list and the closing parenthesis. */
    method ReadParens(allowIndexed: bool) returns (out: Option<(seq<Arg>, bool)>)
      requires Valid()
      modifies this
      ensures Valid() && i >= old(i)
      ensures out.Some? <==> Parens(old(Ahead()), allowIndexed).Some?
      ensures out.Some? ==> Parens(old(Ahead()), allowIndexed).value == (out.value.0, out.value.1, Ahead())
    {
      var ok := Consume('(');
      if !ok { return None; }
      var list := ReadArgList(allowIndexed);
      if list.None? { return None; }
      ok := Consume(')');
      return if ok then list else None;
    }

    /** The optional outputs, and the check that nothing follows. */
    method ReadOutputs() returns (out: Option<(seq<Arg>, bool)>)
      requires Valid()
      modifies this
      ensures Valid() && out == Outputs(old(Ahead()))
    {
      Spaces();
      var outputs, hasOutputs := [], false;
      if PeekIs('(') {
        assert SkipSpace(Ahead()) == Ahead();
        var outs := ReadParens(false);
        if outs.None? { return None; }
        if outs.value.1 { return None; }  // "outputs cannot be 'indexed'": argList(false) has refused it already
        outputs, hasOutputs := outs.value.0, true;
      }
      Spaces();
      return if i < |s| then None else Some((outputs, hasOutputs));
    }

    /** The end of arg: the optional keyword and the optional name. */
    method ReadTrailer(allowIndexed: bool) returns (out: Option<(bool, string)>)
      requires Valid()
      modifies this
      ensures Valid() && i >= old(i)
      ensures out.Some? <==> Trailer(old(Ahead()), allowIndexed).Some?
      ensures out.Some? ==> Trailer(old(Ahead()), allowIndexed).value == (out.value.0, out.value.1, Ahead())
    {
      var id := MaybeIdentifier();
      if id.None? { return Some((false, "")); }
      if id.value != "indexed" { return Some((false, id.value)); }
      if !allowIndexed { return None; }
      var name := MaybeIdentifier();
      return Some((true, if name.Some? then name.value else ""));
    }
  }

  /** From `at` to `i` there are whole brackets only: what is left of the suffix starts at `i`. */
  predicate Leads(s: string, at: nat, i: nat) {
    && at <= i <= |s|
    && var whole, more := SuffixLen(s[at..]), SuffixLen(s[i..]);
    if more.None? then whole.None? else whole == Some(i - at + more.value)
  }

  /** From `at` to `i` there is one bracket. */
  predicate OneBracket(s: string, at: nat, i: nat) {
    && at + 2 <= i <= |s| && s[at] == '[' && s[i - 1] == ']'
    && s[at + 1..i - 1] == Run(s[at + 1..], IsDigit)
  }

  /** The bracket at `at` is not closed behind its digits, which end at `i`. */
  predicate OpenBracket(s: string, at: nat, i: nat) {
    && at < i <= |s| && s[at] == '[' && s[at + 1..i] == Run(s[at + 1..], IsDigit)
    && (i == |s| || s[i] != ']')
  }

  lemma SuffixClosed(s: string, at: nat, i: nat, t: string)
    requires OneBracket(s, at, i) && t == s[at..]
    ensures Leads(s, at, i)
  {
    assert t[1..] == s[at + 1..];
    assert t[i - 1 - at] == s[i - 1] && t[i - at..] == s[i..];
  }

  lemma SuffixOpen(s: string, at: nat, i: nat, t: string)
    requires OpenBracket(s, at, i) && t == s[at..]
    ensures SuffixLen(t).None?
  {
    assert t[1..] == s[at + 1..];
    if i < |s| {
      assert t[i - at] == s[i];
    }
  }

  lemma LeadsOn(s: string, start: nat, at: nat, i: nat)
    requires Leads(s, start, at) && OneBracket(s, at, i)
    ensures Leads(s, start, i)
  {
    SuffixClosed(s, at, i, s[at..]);
  }

  lemma SlicesJoin(s: string, start: nat, at: nat, i: nat)
    requires start <= at <= i <= |s|
    ensures s[start..at] + s[at..i] == s[start..i]
  {}

  lemma SuffixFails(s: string, start: nat, at: nat, i: nat)
    requires Leads(s, start, at) && OpenBracket(s, at, i)
    ensures Suffix(s[start..]).None?
  {
    SuffixOpen(s, at, i, s[at..]);
  }

  lemma SuffixEnds(s: string, start: nat, i: nat)
    requires Leads(s, start, i) && (i == |s| || s[i] != '[')
    ensures Suffix(s[start..]) == Some(Piece(s[start..i], s[i..]))
  {
    assert s[start..][..i - start] == s[start..i];
    assert s[start..][i - start..] == s[i..];
  }

  /** The whole list is what was read of it and what the rest gives. */
  predicate StillToJoin(whole: Option<(seq<Arg>, bool, string)>, list: seq<Arg>, indexed: bool, rest: string,
                        allowIndexed: bool) {
    whole == Joined(list, indexed, Args(rest, allowIndexed))
  }

  lemma ArgsFail(whole: Option<(seq<Arg>, bool, string)>, list: seq<Arg>, indexed: bool, t: string, allowIndexed: bool)
    requires StillToJoin(whole, list, indexed, t, allowIndexed) && OneArg(t, allowIndexed).None?
    ensures whole.None?
  {}

  /** The argument `a` was read, up to `rest`: behind a comma if there is more. */
  predicate Separated(r: (Arg, bool, string), a: (Arg, bool), rest: string, more: bool) {
    && r.0 == a.0 && r.1 == a.1
    && if more then SkipSpace(r.2) == [','] + rest else SkipSpace(r.2) == rest && (rest == "" || rest[0] != ',')
  }

  lemma SeparatedAt(r: (Arg, bool, string), s: string, i: nat, more: bool)
    requires i <= |s| && s[i..] == SkipSpace(r.2) && (more <==> i < |s| && s[i] == ',')
    ensures Separated(r, (r.0, r.1), if more then s[i + 1..] else s[i..], more)
  {
    if more {
      assert s[i..] == [','] + s[i + 1..];
    }
  }

  lemma ArgsStep(whole: Option<(seq<Arg>, bool, string)>, list: seq<Arg>, indexed: bool, t: string,
                 a: (Arg, bool), rest: string, more: bool, allowIndexed: bool)
    requires StillToJoin(whole, list, indexed, t, allowIndexed) && OneArg(t, allowIndexed).Some?
    requires Separated(OneArg(t, allowIndexed).value, a, rest, more)
    ensures if more then StillToJoin(whole, list + [a.0], indexed || a.1, rest, allowIndexed)
            else whole == Some((list + [a.0], indexed || a.1, rest))
  {
    if more {
      assert ([','] + rest)[1..] == rest;
      JoinedTwice(list, indexed, [a.0], a.1, Args(rest, allowIndexed));
    }
  }

  lemma Slices(s: string, start: nat, i: nat)
    requires start < i <= |s|
    ensures s[start..][1..] == s[start + 1..] && s[start..][0] == s[start]
    ensures [s[start]] + s[start + 1..i] == s[start..i]
    ensures s[start..][i - start..] == s[i..]
  {}

  lemma TypeTokenAt(t0: string, s: string, start: nat, i: nat)
    requires start < i <= |s| && SkipSpace(t0) == s[start..] && IsAlpha(s[start])
    requires s[start + 1..i] == Run(s[start + 1..], TypeChar)
    ensures var x := Suffix(s[i..]);
      TypeToken(t0) == if x.None? then None else Some(Piece(s[start..i] + x.value.text, x.value.rest))
  {
    Slices(s, start, i);
  }

  lemma IdentAt(t0: string, s: string, start: nat, i: nat)
    requires start < i <= |s| && SkipSpace(t0) == s[start..] && NameStart(s[start])
    requires s[start + 1..i] == Run(s[start + 1..], NameChar)
    ensures Ident(t0) == Some(Piece(s[start..i], s[i..]))
  {
    Slices(s, start, i);
  }

  /** parseSignature. None stands for every error. */
  method ParseSignature(sig: string) returns (out: Option<Signature>)
    ensures out == Parse(sig)
  {
    var p := new SigParser(TrimSpace(sig));
    assert p.Ahead() == TrimSpace(sig);
    var name := p.MaybeIdentifier();
    if name.None? { return None; }
    var ins := p.ReadParens(true);
    if ins.None? { return None; }
    var outs := p.ReadOutputs();
    if outs.None? { return None; }
    var inputs := NameArgs(ins.value.0, "arg");
    var outputs := NameArgs(outs.value.0, "ret");
    return Some(Signature(name.value, inputs, outputs, outs.value.1, ins.value.1));
  }
}
