/** Whole histories of a keystore: any sequence of its mutations, from an empty one. */
module KeystoreHistory {
  import opened Text
  import opened AccountRef
  import opened Keystore

  datatype Op =
    | Create(name: string, id: string, derived: Option<string>)
    | Rename(name: string, newName: string)
    | DeleteWallet(name: string)
    | DeriveNext(name: string, derived: Option<string>)
    | DeriveIndex(name: string, index: nat, derived: Option<string>)
    | Alias(name: string, index: nat, alias: string)
    | Unalias(name: string, index: nat)
    | Import(name: string, id: string, derived: Option<string>)
    | Delete(ref: Ref)
    | SetDefault(ref: Ref)

  /** The metadata once an operation has saved it, whatever error came after that; one that is refused, or whose
      save leaves the old metadata, changes nothing. */
  ghost function Apply(m: Meta, op: Op): Meta {
    match op
    case Create(name, id, derived) => After(m, Created(m, name, id, derived))
    case Rename(name, newName) => After(m, Renamed(m, name, newName))
    case DeleteWallet(name) => After(m, WalletDeleted(m, name))
    case DeriveNext(name, derived) => After(m, NextDerived(m, name, derived))
    case DeriveIndex(name, index, derived) => After(m, IndexDerived(m, name, index, derived))
    case Alias(name, index, alias) => After(m, Aliased(m, name, index, alias))
    case Unalias(name, index) => After(m, Unaliased(m, name, index))
    case Import(name, id, derived) => After(m, Imported(m, name, id, derived))
    case Delete(ref) => After(m, Deleted(m, ref))
    case SetDefault(ref) => After(m, DefaultSet(m, ref))
  }

  /** The metadata, every UUID ever used and every (wallet, index) ever materialized, forgotten ones included. */
  datatype History = History(meta: Meta, ids: set<string>, handed: set<(string, nat)>)

  const EMPTY: History := History(Meta("", map[], map[]), {}, {})

  function MaterializedIn(m: Meta): set<(string, nat)> {
    set id, k | id in m.wallets && k in m.wallets[id].accounts :: (id, IndexOf(k))
  }

  ghost function Step(h: History, op: Op): History {
    var m := Apply(h.meta, op);
    History(m, h.ids + m.wallets.Keys + m.accounts.Keys, h.handed + MaterializedIn(m))
  }

  /** UUIDs are never repeated, and no wallet's watermark is about to wrap around. */
  ghost predicate Allowed(h: History, op: Op) {
    match op
    case Create(_, id, _) => id !in h.ids
    case Import(_, id, _) => id !in h.ids
    case DeriveNext(name, _) =>
      WalletNamed(h.meta, name).Some? ==> h.meta.wallets[WalletNamed(h.meta, name).value].next < MAX_UINT32
    case _ => true
  }

  /** The one operation that may leave a dangling default does not. */
  ghost predicate KeepsDefaultBound(m: Meta, op: Op) {
    op.Rename? && Renamed(m, op.name, op.newName).Done? ==>
      var w := m.wallets[WalletNamed(m, op.name).value];
      !PointsTo(m.chosen, w.name) || op.newName == w.name
  }

  ghost predicate Good(h: History) {
    && Valid(h.meta)
    && h.meta.wallets.Keys <= h.ids && h.meta.accounts.Keys <= h.ids && h.meta.wallets.Keys !! h.meta.accounts.Keys
    && (forall x | x in h.handed :: x.0 in h.ids && (x.0 in h.meta.wallets ==> x.1 < h.meta.wallets[x.0].next))
    && MaterializedIn(h.meta) <= h.handed
  }

  // --- one step ---

  lemma ApplyValid(h: History, op: Op)
    requires Good(h) && Allowed(h, op)
    ensures Valid(Apply(h.meta, op))
  {
    var m := h.meta;
    if Apply(m, op) != m {
      match op
      case Create(name, id, derived) => CreatedValid(m, name, id, derived);
      case Rename(name, newName) => RenamedValid(m, name, newName);
      case DeleteWallet(name) =>
      case DeriveNext(name, derived) => NextDerivedValidIff(m, name, derived);
      case DeriveIndex(name, index, derived) => IndexDerivedValid(m, name, index, derived);
      case Alias(name, index, alias) => AliasedValid(m, name, index, alias);
      case Unalias(name, index) => UnaliasedValid(m, name, index);
      case Import(name, id, derived) => ImportedValid(m, name, id, derived);
      case Delete(ref) => DeletedValid(m, ref);
      case SetDefault(ref) =>
    }
  }

  /** No watermark is lower in `m'`, and what is new in it is at `id` only. */
  ghost predicate Raises(m: Meta, m': Meta, id: Option<string>) {
    && (forall i | i in m'.wallets ::
          id == Some(i) || (i in m.wallets && m.wallets[i].next <= m'.wallets[i].next))
    && (forall i | i in m'.accounts :: id == Some(i) || i in m.accounts)
    && (id.Some? ==> id.value !in m'.wallets || id.value !in m'.accounts)
  }

  lemma CreateRaises(m: Meta, name: string, id: string, derived: Option<string>)
    requires id !in m.wallets && id !in m.accounts
    ensures Raises(m, After(m, Created(m, name, id, derived)), Some(id))
  {}

  lemma ImportRaises(m: Meta, name: string, id: string, derived: Option<string>)
    requires id !in m.wallets && id !in m.accounts
    ensures Raises(m, After(m, Imported(m, name, id, derived)), Some(id))
  {}

  lemma DeriveRaises(m: Meta, name: string, index: nat, derived: Option<string>)
    ensures Raises(m, After(m, IndexDerived(m, name, index, derived)), None)
    ensures WalletNamed(m, name).Some? && m.wallets[WalletNamed(m, name).value].next < MAX_UINT32 ==>
      Raises(m, After(m, NextDerived(m, name, derived)), None)
  {}

  lemma NamesRaise(m: Meta, name: string, newName: string)
    ensures Raises(m, After(m, Renamed(m, name, newName)), None)
    ensures Raises(m, After(m, WalletDeleted(m, name)), None)
  {}

  lemma AliasesRaise(m: Meta, name: string, index: nat, alias: string)
    ensures Raises(m, After(m, Aliased(m, name, index, alias)), None)
    ensures Raises(m, After(m, Unaliased(m, name, index)), None)
  {}

  lemma RefsRaise(m: Meta, ref: Ref)
    ensures Raises(m, After(m, Deleted(m, ref)), None)
    ensures Raises(m, After(m, DefaultSet(m, ref)), None)
  {}

  function NewID(op: Op): Option<string> {
    if op.Create? || op.Import? then Some(op.id) else None
  }

  lemma ApplyRaises(h: History, op: Op)
    requires Good(h) && Allowed(h, op)
    ensures Raises(h.meta, Apply(h.meta, op), NewID(op))
  {
    var m := h.meta;
    match op
    case Create(name, id, derived) => CreateRaises(m, name, id, derived);
    case Rename(name, newName) => NamesRaise(m, name, newName);
    case DeleteWallet(name) => NamesRaise(m, name, "");
    case DeriveNext(name, derived) => DeriveRaises(m, name, 0, derived);
    case DeriveIndex(name, index, derived) => DeriveRaises(m, name, index, derived);
    case Alias(name, index, alias) => AliasesRaise(m, name, index, alias);
    case Unalias(name, index) => AliasesRaise(m, name, index, "");
    case Import(name, id, derived) => ImportRaises(m, name, id, derived);
    case Delete(ref) => RefsRaise(m, ref);
    case SetDefault(ref) => RefsRaise(m, ref);
  }

  /** No operation lowers a watermark or makes an object under a UUID used before. */
  lemma ApplyGrows(h: History, op: Op)
    requires Good(h) && Allowed(h, op)
    ensures var m' := Apply(h.meta, op);
      && (forall id | id in m'.wallets ::
            id !in h.ids || (id in h.meta.wallets && h.meta.wallets[id].next <= m'.wallets[id].next))
      && (forall id | id in m'.accounts :: id in h.meta.accounts || id !in h.ids)
      && m'.wallets.Keys !! m'.accounts.Keys
  {
    var m' := Apply(h.meta, op);
    ApplyRaises(h, op);
    forall id | id in m'.wallets
      ensures id !in m'.accounts
    {
      if NewID(op) != Some(id) {
        assert id in h.meta.wallets.Keys;
      }
    }
  }

  lemma InMaterialized(m: Meta, x: (string, nat))
    requires Valid(m) && x in MaterializedIn(m)
    ensures x.0 in m.wallets && x.1 < m.wallets[x.0].next
  {
    var id, k :| id in m.wallets && k in m.wallets[id].accounts && x == (id, IndexOf(k));
    assert WalletOk(m.wallets[id]);
  }

  lemma StepKeepsGood(h: History, op: Op)
    requires Good(h) && Allowed(h, op)
    ensures Good(Step(h, op)) && h.handed <= Step(h, op).handed && h.ids <= Step(h, op).ids
  {
    var h' := Step(h, op);
    ApplyValid(h, op);
    ApplyGrows(h, op);
    forall x | x in h'.handed
      ensures x.0 in h'.ids && (x.0 in h'.meta.wallets ==> x.1 < h'.meta.wallets[x.0].next)
    {
      if x in MaterializedIn(h'.meta) {
        InMaterialized(h'.meta, x);
      }
    }
  }

  lemma StepKeepsDefault(h: History, op: Op)
    requires Good(h) && Allowed(h, op) && DefaultOk(h.meta) && KeepsDefaultBound(h.meta, op)
    ensures DefaultOk(Apply(h.meta, op))
  {
    var m := h.meta;
    if Apply(m, op) != m {
      match op
      case Rename(name, newName) => RenameKeepsDefaultIff(m, name, newName);
      case DeleteWallet(name) => WalletDeletedKeepsDefault(m, name);
      case Delete(ref) => DeletedKeepsDefault(m, ref);
      case SetDefault(ref) => SetDefaultNamesAccount(m, ref);
      case _ =>
        OthersGrow(h, op);
        GrowsKeepsDefault(m, Apply(m, op));
    }
  }

  lemma OthersGrow(h: History, op: Op)
    requires Good(h) && Allowed(h, op)
    requires !op.Rename? && !op.DeleteWallet? && !op.Delete? && !op.SetDefault?
    ensures Grows(h.meta, Apply(h.meta, op))
  {
    var m := h.meta;
    match op
    case Create(name, id, derived) => CreateGrows(m, name, id, derived);
    case DeriveNext(name, derived) => DeriveGrows(m, name, 0, derived);
    case DeriveIndex(name, index, derived) => DeriveGrows(m, name, index, derived);
    case Alias(name, index, alias) => AliasGrows(m, name, index, alias);
    case Unalias(name, index) => AliasGrows(m, name, index, "");
    case Import(name, id, derived) => CreateGrows(m, name, id, derived);
  }

  lemma CreateGrows(m: Meta, name: string, id: string, derived: Option<string>)
    requires id !in m.wallets && id !in m.accounts
    ensures Grows(m, After(m, Created(m, name, id, derived)))
    ensures Grows(m, After(m, Imported(m, name, id, derived)))
  {}

  lemma DeriveGrows(m: Meta, name: string, index: nat, derived: Option<string>)
    ensures Grows(m, After(m, NextDerived(m, name, derived)))
    ensures Grows(m, After(m, IndexDerived(m, name, index, derived)))
  {}

  lemma AliasGrows(m: Meta, name: string, index: nat, alias: string)
    ensures Grows(m, After(m, Aliased(m, name, index, alias)))
    ensures Grows(m, After(m, Unaliased(m, name, index)))
  {}

  // --- whole histories ---

  ghost function Run(h: History, ops: seq<Op>): History
    decreases |ops|
  {
    if ops == [] then h else Run(Step(h, ops[0]), ops[1..])
  }

  ghost predicate AllAllowed(h: History, ops: seq<Op>)
    decreases |ops|
  {
    ops == [] || (Allowed(h, ops[0]) && AllAllowed(Step(h, ops[0]), ops[1..]))
  }

  ghost predicate AllKeepDefault(h: History, ops: seq<Op>)
    decreases |ops|
  {
    ops == [] || (KeepsDefaultBound(h.meta, ops[0]) && AllKeepDefault(Step(h, ops[0]), ops[1..]))
  }

  lemma {:induction false} RunsStayGood(h: History, ops: seq<Op>)
    requires Good(h) && AllAllowed(h, ops)
    ensures Good(Run(h, ops)) && h.handed <= Run(h, ops).handed && h.ids <= Run(h, ops).ids
    decreases |ops|
  {
    if ops != [] {
      StepKeepsGood(h, ops[0]);
      RunsStayGood(Step(h, ops[0]), ops[1..]);
    }
  }

  /** A wallet's watermark never goes down while the wallet lives. */
  lemma {:induction false} WatermarkNeverFalls(h: History, ops: seq<Op>, id: string)
    requires Good(h) && AllAllowed(h, ops) && id in h.meta.wallets && id in Run(h, ops).meta.wallets
    ensures h.meta.wallets[id].next <= Run(h, ops).meta.wallets[id].next
    decreases |ops|
  {
    if ops != [] {
      var h' := Step(h, ops[0]);
      StepKeepsGood(h, ops[0]);
      ApplyGrows(h, ops[0]);
      RunsStayGood(h', ops[1..]);
      if id !in h'.meta.wallets {
        GoneForGood(h', ops[1..], id);
      }
      WatermarkNeverFalls(h', ops[1..], id);
    }
  }

  /** A deleted wallet's UUID never comes back. */
  lemma {:induction false} GoneForGood(h: History, ops: seq<Op>, id: string)
    requires Good(h) && AllAllowed(h, ops) && id in h.ids && id !in h.meta.wallets
    ensures id !in Run(h, ops).meta.wallets
    decreases |ops|
  {
    if ops != [] {
      StepKeepsGood(h, ops[0]);
      ApplyGrows(h, ops[0]);
      GoneForGood(Step(h, ops[0]), ops[1..], id);
    }
  }

  /** DeriveNext returns an index this wallet never materialized before, forgotten ones included. */
  lemma DeriveNextIsFresh(h: History, name: string, derived: Option<string>)
    requires Good(h) && NextDerived(h.meta, name, derived).Done?
    ensures (WalletNamed(h.meta, name).value, NextDerived(h.meta, name, derived).value.0) !in h.handed
  {}

  /** So no two DeriveNext calls of one history return the same index of the same wallet, whatever happens in
      between. */
  lemma NeverReused(h: History, name: string, derived: Option<string>, between: seq<Op>, name': string, derived': Option<string>)
    requires Good(h) && Allowed(h, DeriveNext(name, derived)) && NextDerived(h.meta, name, derived).Done?
    requires var h1 := Step(h, DeriveNext(name, derived));
      AllAllowed(h1, between) && NextDerived(Run(h1, between).meta, name', derived').Done?
    ensures var h2 := Run(Step(h, DeriveNext(name, derived)), between);
      WalletNamed(h2.meta, name') == WalletNamed(h.meta, name) ==>
        NextDerived(h2.meta, name', derived').value.0 != NextDerived(h.meta, name, derived).value.0
  {
    var h1 := Step(h, DeriveNext(name, derived));
    var h2 := Run(h1, between);
    var id, index := WalletNamed(h.meta, name).value, NextDerived(h.meta, name, derived).value.0;
    StepKeepsGood(h, DeriveNext(name, derived));
    RunsStayGood(h1, between);
    var w := h1.meta.wallets[id];
    IndexKeyIff(Itoa(index), index);
    assert id in h1.meta.wallets && Itoa(index) in w.accounts;
    assert (id, IndexOf(Itoa(index))) in MaterializedIn(h1.meta);
    assert (id, index) in h2.handed;
    DeriveNextIsFresh(h2, name', derived');
  }

  /** From an empty keystore every history keeps names unique, aliases unique and every watermark above every
      materialized index; and unless a rename moves the wallet the default points into, a set default always
      names an existing account. */
  lemma {:induction false} HistoriesStayConsistent(ops: seq<Op>)
    requires AllAllowed(EMPTY, ops)
    ensures Good(Run(EMPTY, ops))
    ensures AllKeepDefault(EMPTY, ops) ==> DefaultOk(Run(EMPTY, ops).meta)
  {
    RunsStayGood(EMPTY, ops);
    if AllKeepDefault(EMPTY, ops) {
      DefaultsStayGood(EMPTY, ops);
    }
  }

  lemma {:induction false} DefaultsStayGood(h: History, ops: seq<Op>)
    requires Good(h) && AllAllowed(h, ops) && AllKeepDefault(h, ops) && DefaultOk(h.meta)
    ensures DefaultOk(Run(h, ops).meta)
    decreases |ops|
  {
    if ops != [] {
      StepKeepsGood(h, ops[0]);
      StepKeepsDefault(h, ops[0]);
      DefaultsStayGood(Step(h, ops[0]), ops[1..]);
    }
  }

  /** The first wallet: index 0 is taken at creation, so its first DeriveNext returns 1. */
  lemma FirstWallet(name: string, id: string, address: string, address': string)
    requires ValidName(name)
    ensures var h := Step(EMPTY, Create(name, id, Some(address)));
      && Good(h) && id in h.meta.wallets && (id, 0) in h.handed
      && NextDerived(h.meta, name, Some(address')).Done?
      && NextDerived(h.meta, name, Some(address')).value.0 == 1
  {
    var op := Create(name, id, Some(address));
    var h := Step(EMPTY, op);
    StepKeepsGood(EMPTY, op);
    assert h.meta.wallets[id].name == name;
    NameFinds(h.meta, id);
    IndexKeyIff(Itoa(0), 0);
    assert Itoa(0) in h.meta.wallets[id].accounts && IndexOf(Itoa(0)) == 0;
    assert (id, IndexOf(Itoa(0))) in MaterializedIn(h.meta);
  }

  // --- hardened indexes ---

  /** DeriveNext returns an index DeriveIndex would accept exactly when the watermark is below 2^31: it has no
      guard of its own. */
  lemma NextAcceptableIff(m: Meta, name: string, derived: Option<string>, derived': Option<string>)
    requires NextDerived(m, name, derived).Done?
    ensures IndexDerived(m, name, NextDerived(m, name, derived).value.0, derived') != Refused(BadIndex)
      <==> m.wallets[WalletNamed(m, name).value].next < HARDENED
  {}

  /** No hardened index was ever handed out. */
  predicate NoneHardened(h: History) {
    forall x | x in h.handed :: x.1 < HARDENED
  }

  /** If this is a DeriveNext that succeeds, the watermark it uses is below 2^31. */
  ghost predicate BelowHardened(h: History, op: Op) {
    op.DeriveNext? && NextDerived(h.meta, op.name, op.derived).Done? ==>
      h.meta.wallets[WalletNamed(h.meta, op.name).value].next < HARDENED
  }

  ghost predicate AllBelowHardened(h: History, ops: seq<Op>)
    decreases |ops|
  {
    ops == [] || (BelowHardened(h, ops[0]) && AllBelowHardened(Step(h, ops[0]), ops[1..]))
  }

  /** A key that an operation adds: index 0 of a new wallet, or the index derived. */
  predicate AddedKey(m: Meta, op: Op, id: string, k: string) {
    match op
    case Create(_, newID, _) => id == newID && k == Itoa(0)
    case DeriveNext(_, _) => id in m.wallets && k == Itoa(m.wallets[id].next)
    case DeriveIndex(_, index, _) => k == Itoa(index) && index < HARDENED
    case _ => false
  }

  ghost predicate KeysFrom(m: Meta, op: Op, m': Meta) {
    forall id, k | id in m'.wallets && k in m'.wallets[id].accounts ::
      (id in m.wallets && k in m.wallets[id].accounts) || AddedKey(m, op, id, k)
  }

  lemma DeriveKeys(m: Meta, name: string, index: nat, derived: Option<string>)
    ensures KeysFrom(m, DeriveNext(name, derived), After(m, NextDerived(m, name, derived)))
    ensures KeysFrom(m, DeriveIndex(name, index, derived), After(m, IndexDerived(m, name, index, derived)))
  {}

  lemma OtherKeys(m: Meta, op: Op)
    requires !op.DeriveNext? && !op.DeriveIndex?
    ensures KeysFrom(m, op, Apply(m, op))
  {
    match op
    case Create(_, _, _) =>
    case Rename(_, _) =>
    case DeleteWallet(_) =>
    case Alias(_, _, _) =>
    case Unalias(_, _) =>
    case Import(_, _, _) =>
    case Delete(_) =>
    case SetDefault(_) =>
  }

  lemma ApplyKeys(m: Meta, op: Op)
    ensures KeysFrom(m, op, Apply(m, op))
  {
    match op
    case DeriveNext(name, derived) => DeriveKeys(m, name, 0, derived);
    case DeriveIndex(name, index, derived) => DeriveKeys(m, name, index, derived);
    case _ => OtherKeys(m, op);
  }

  lemma StepHardenedIff(h: History, op: Op)
    requires Good(h) && Allowed(h, op) && NoneHardened(h)
    ensures NoneHardened(Step(h, op)) <==> BelowHardened(h, op)
  {
    if BelowHardened(h, op) {
      NothingHardened(h, op);
    } else {
      var r := NextDerived(h.meta, op.name, op.derived);
      var id, index := WalletNamed(h.meta, op.name).value, r.value.0;
      IndexKeyIff(Itoa(index), index);
      assert id in r.meta.wallets && Itoa(index) in r.meta.wallets[id].accounts;
      assert (id, IndexOf(Itoa(index))) in MaterializedIn(r.meta);
      assert (id, index) in Step(h, op).handed;
    }
  }

  lemma NothingHardened(h: History, op: Op)
    requires Good(h) && Allowed(h, op) && NoneHardened(h) && BelowHardened(h, op)
    ensures NoneHardened(Step(h, op))
  {
    var m, m' := h.meta, Apply(h.meta, op);
    ApplyKeys(m, op);
    forall x | x in MaterializedIn(m')
      ensures x.1 < HARDENED
    {
      var id, k :| id in m'.wallets && k in m'.wallets[id].accounts && x == (id, IndexOf(k));
      if id in m.wallets && k in m.wallets[id].accounts {
        assert (id, IndexOf(k)) in MaterializedIn(m);
      } else {
        AddedBelow(h, op, id, k);
      }
    }
  }

  lemma AddedBelow(h: History, op: Op, id: string, k: string)
    requires BelowHardened(h, op) && AddedKey(h.meta, op, id, k)
    requires id in Apply(h.meta, op).wallets && k in Apply(h.meta, op).wallets[id].accounts
    requires !(id in h.meta.wallets && k in h.meta.wallets[id].accounts)
    ensures IndexOf(k) < HARDENED
  {
    match op
    case Create(_, _, _) => IndexKeyIff(Itoa(0), 0);
    case DeriveNext(_, _) => IndexKeyIff(k, h.meta.wallets[id].next);
    case DeriveIndex(_, index, _) => IndexKeyIff(Itoa(index), index);
  }

  /** Over any history, no hardened index is ever handed out exactly when every DeriveNext ran with its watermark
      below 2^31. */
  lemma {:induction false} HistoryHardenedIff(h: History, ops: seq<Op>)
    requires Good(h) && AllAllowed(h, ops) && NoneHardened(h)
    ensures NoneHardened(Run(h, ops)) <==> AllBelowHardened(h, ops)
    decreases |ops|
  {
    if ops != [] {
      var h' := Step(h, ops[0]);
      StepKeepsGood(h, ops[0]);
      StepHardenedIff(h, ops[0]);
      if NoneHardened(h') {
        HistoryHardenedIff(h', ops[1..]);
      } else {
        var x :| x in h'.handed && x.1 >= HARDENED;
        RunsStayGood(h', ops[1..]);
        assert x in Run(h', ops[1..]).handed;
      }
    }
  }

  // --- where the code falls short ---

  /** DeriveIndex refuses hardened indexes, but DeriveNext does not: deriving the last normal index makes the
      next DeriveNext hand out index 2^31. */
  lemma DeriveNextReachesHardened(m: Meta, name: string, address: string, address': string)
    requires Valid(m) && WalletNamed(m, name).Some?
    requires var w := m.wallets[WalletNamed(m, name).value]; w.next < HARDENED
    ensures var m1 := Apply(m, DeriveIndex(name, HARDENED - 1, Some(address)));
      var r := NextDerived(m1, name, Some(address'));
      r.Done? && r.value.0 == HARDENED && IndexDerived(m1, name, r.value.0, Some(address')) == Refused(BadIndex)
  {
    var id := WalletNamed(m, name).value;
    var w := m.wallets[id];
    IndexKeyIff(Itoa(HARDENED - 1), HARDENED - 1);
    assert WalletOk(w);
    assert Itoa(HARDENED - 1) !in w.accounts;
    var m1 := Apply(m, DeriveIndex(name, HARDENED - 1, Some(address)));
    IndexDerivedValid(m, name, HARDENED - 1, Some(address));
    assert IsWallet(m1, id, name);
    OneWallet(m1, name, id, WalletNamed(m1, name).value);
  }

  /** A default that dangles after a rename can come back to life as someone else: a new wallet under the old
      name takes it over, and it then resolves to that wallet's own first account. */
  lemma RenamedDefaultRebinds(h: History, id: string, newName: string, newID: string, address: string)
    requires Good(h) && id in h.meta.wallets && newID !in h.ids && ValidName(newName)
    requires Itoa(0) in h.meta.wallets[id].accounts
    requires !NameExists(h.meta, newName, Some(id)) && newName != h.meta.wallets[id].name
    ensures var name := h.meta.wallets[id].name;
      var ops := [SetDefault(HDIndex(name, 0)), Rename(name, newName), Create(name, newID, Some(address))];
      var m := Run(h, ops).meta;
      && ParseAccountRef(m.chosen) == Parsed.Ref(HDIndex(name, 0))
      && Resolve(m, HDIndex(name, 0)) == Ok(InWallet(newID, 0))
      && AddressOf(m, HDIndex(name, 0)) == Ok(address)
  {
    var name := h.meta.wallets[id].name;
    var o1, o2, o3 := SetDefault(HDIndex(name, 0)), Rename(name, newName), Create(name, newID, Some(address));
    RunThree(h, o1, o2, o3);
    ThreeSteps(h, id, newName, newID, address);
    IndexRefReadsBack(name, 0);
  }

  lemma ThreeSteps(h: History, id: string, newName: string, newID: string, address: string)
    requires Good(h) && id in h.meta.wallets && newID !in h.ids && ValidName(newName)
    requires Itoa(0) in h.meta.wallets[id].accounts
    requires !NameExists(h.meta, newName, Some(id)) && newName != h.meta.wallets[id].name
    ensures var name := h.meta.wallets[id].name;
      var h2 := Step(Step(h, SetDefault(HDIndex(name, 0))), Rename(name, newName));
      var m := Step(h2, Create(name, newID, Some(address))).meta;
      && ValidName(name)
      && m.chosen == PathRef(name, Itoa(0))
      && Resolve(m, HDIndex(name, 0)) == Ok(InWallet(newID, 0))
      && AddressOf(m, HDIndex(name, 0)) == Ok(address)
  {
    var name := h.meta.wallets[id].name;
    var h1 := Step(h, SetDefault(HDIndex(name, 0)));
    var h2 := Step(h1, Rename(name, newName));
    StepKeepsGood(h, SetDefault(HDIndex(name, 0)));
    AfterSetDefault(h.meta, id);
    SameNames(h.meta, h1.meta, newName, id);
    StepKeepsGood(h1, Rename(name, newName));
    AfterRename(h1.meta, id, newName);
    AfterCreate(h2.meta, name, newID, address);
  }

  lemma SameNames(m: Meta, m': Meta, name: string, id: string)
    requires m'.wallets == m.wallets && m'.accounts == m.accounts
    ensures NameExists(m', name, Some(id)) <==> NameExists(m, name, Some(id))
  {
    assert forall i :: IsWallet(m', i, name) <==> IsWallet(m, i, name);
    assert forall i :: IsStandalone(m', i, name) <==> IsStandalone(m, i, name);
  }

  lemma RunThree(h: History, o1: Op, o2: Op, o3: Op)
    ensures Run(h, [o1, o2, o3]) == Step(Step(Step(h, o1), o2), o3)
  {
    assert [o1, o2, o3][1..] == [o2, o3] && [o2, o3][1..] == [o3];
    var h1 := Step(h, o1);
    var h2 := Step(h1, o2);
    assert Run(h, [o1, o2, o3]) == Run(h1, [o2, o3]);
    assert Run(h1, [o2, o3]) == Run(h2, [o3]);
    assert [o3][1..] == [];
    assert Run(h2, [o3]) == Step(h2, o3);
  }

  lemma AfterSetDefault(m: Meta, id: string)
    requires Valid(m) && id in m.wallets && Itoa(0) in m.wallets[id].accounts
    ensures Apply(m, SetDefault(HDIndex(m.wallets[id].name, 0))) == m.(chosen := PathRef(m.wallets[id].name, Itoa(0)))
  {
    NameFinds(m, id);
  }

  lemma AfterRename(m: Meta, id: string, newName: string)
    requires Valid(m) && id in m.wallets && ValidName(newName) && !NameExists(m, newName, Some(id))
    requires newName != m.wallets[id].name
    ensures var m' := Apply(m, Rename(m.wallets[id].name, newName));
      && m' == WithWallet(m, id, m.wallets[id].(name := newName))
      && !NameExists(m', m.wallets[id].name, None)
  {
    var name := m.wallets[id].name;
    NameFinds(m, id);
    var m' := Apply(m, Rename(name, newName));
    NameIsPlain(name);
    NameIsPlain(newName);
    forall j
      ensures !IsWallet(m', j, name)
    {
      if IsWallet(m', j, name) && j != id { OneWallet(m, name, id, j); }
    }
    forall j
      ensures !IsStandalone(m', j, name)
    {
      OneNamespace(m, name, id, j);
    }
  }

  lemma AfterCreate(m: Meta, name: string, newID: string, address: string)
    requires Valid(m) && ValidName(name) && newID !in m.wallets && !NameExists(m, name, None)
    ensures var m' := Apply(m, Create(name, newID, Some(address)));
      && m'.chosen == m.chosen
      && Resolve(m', HDIndex(name, 0)) == Ok(InWallet(newID, 0))
      && AddressOf(m', HDIndex(name, 0)) == Ok(address)
  {
    var m' := Apply(m, Create(name, newID, Some(address)));
    CreatedValid(m, name, newID, Some(address));
    assert m'.wallets[newID].name == name;
    NameFinds(m', newID);
  }
}
