/** The keystore's operations step by step: internal/keys account.go, wallet.go, meta.go and lookup.go. */
module KeystoreStore {
  import opened Text
  import opened AccountRef
  import opened Keystore

  // --- the loops over meta.json's maps, which visit keys in any order ---

  /** findWalletByName. */
  method FindWallet(m: Meta, name: string) returns (id: Option<string>)
    requires NamesOk(m)
    ensures id == WalletNamed(m, name)
  {
    var keys := m.wallets.Keys;
    while keys != {}
      invariant keys <= m.wallets.Keys && forall k | k in m.wallets.Keys - keys :: !IsWallet(m, k, name)
      decreases keys
    {
      var k :| k in keys;
      if ToLower(m.wallets[k].name) == ToLower(name) {
        assert IsWallet(m, k, name);
        OneWallet(m, name, k, WalletNamed(m, name).value);
        return Some(k);
      }
      keys := keys - {k};
    }
    return None;
  }

  /** findStandaloneByName. */
  method FindStandalone(m: Meta, name: string) returns (id: Option<string>)
    requires NamesOk(m)
    ensures id == StandaloneNamed(m, name)
  {
    var keys := m.accounts.Keys;
    while keys != {}
      invariant keys <= m.accounts.Keys && forall k | k in m.accounts.Keys - keys :: !IsStandalone(m, k, name)
      decreases keys
    {
      var k :| k in keys;
      if ToLower(m.accounts[k].name) == ToLower(name) {
        assert IsStandalone(m, k, name);
        OneStandalone(m, name, k, StandaloneNamed(m, name).value);
        return Some(k);
      }
      keys := keys - {k};
    }
    return None;
  }

  /** nameExists. */
  method NameTaken(m: Meta, name: string, exclude: Option<string>) returns (taken: bool)
    ensures taken <==> NameExists(m, name, exclude)
  {
    var keys := m.wallets.Keys;
    while keys != {}
      invariant keys <= m.wallets.Keys
      invariant forall k | k in m.wallets.Keys - keys :: !(IsWallet(m, k, name) && exclude != Some(k))
      decreases keys
    {
      var k :| k in keys;
      if exclude != Some(k) && ToLower(m.wallets[k].name) == ToLower(name) {
        assert IsWallet(m, k, name);
        return true;
      }
      keys := keys - {k};
    }
    keys := m.accounts.Keys;
    while keys != {}
      invariant keys <= m.accounts.Keys
      invariant forall k | k in m.accounts.Keys - keys :: !(IsStandalone(m, k, name) && exclude != Some(k))
      decreases keys
    {
      var k :| k in keys;
      if exclude != Some(k) && ToLower(m.accounts[k].name) == ToLower(name) {
        assert IsStandalone(m, k, name);
        return true;
      }
      keys := keys - {k};
    }
    return false;
  }

  /** indexForRef. */
  method IndexForRef(w: Wallet, ref: Ref) returns (index: Option<nat>)
    requires WalletOk(w)
    ensures index == IndexFor(w, ref)
  {
    if ref.HDIndex? {
      return if Itoa(ref.index) in w.accounts then Some(ref.index) else None;
    }
    if !ref.HDAlias? { return None; }
    var keys := w.accounts.Keys;
    while keys != {}
      invariant keys <= w.accounts.Keys && forall k | k in w.accounts.Keys - keys :: !HasAlias(w, k, ref.alias)
      decreases keys
    {
      var k :| k in keys;
      if w.accounts[k].alias != "" && w.accounts[k].alias == ref.alias {
        var parsed := ParseDecimalIndex(k);
        if parsed.Some? {
          AliasIndex(w, ref, k);
          return parsed;
        }
      }
      keys := keys - {k};
    }
    return None;
  }

  /** aliasInUse. */
  method AliasUsed(w: Wallet, alias: string, self: nat) returns (used: bool)
    ensures used <==> AliasInUse(w, alias, self)
  {
    var keys := w.accounts.Keys;
    while keys != {}
      invariant keys <= w.accounts.Keys
      invariant forall k | k in w.accounts.Keys - keys :: !(IndexOf(k) != self && w.accounts[k].alias == alias)
      decreases keys
    {
      var k :| k in keys;
      var parsed := ParseDecimalIndex(k);
      var index := if parsed.Some? then parsed.value else 0;
      if index != self && w.accounts[k].alias == alias { return true; }
      keys := keys - {k};
    }
    return false;
  }

  predicate HoldsAddress(w: Wallet, address: string) {
    exists k | k in w.accounts :: w.accounts[k].address == address
  }

  method WalletHolds(w: Wallet, address: string) returns (found: bool)
    ensures found <==> HoldsAddress(w, address)
  {
    var keys := w.accounts.Keys;
    while keys != {}
      invariant keys <= w.accounts.Keys && forall k | k in w.accounts.Keys - keys :: w.accounts[k].address != address
      decreases keys
    {
      var k :| k in keys;
      if w.accounts[k].address == address { return true; }
      keys := keys - {k};
    }
    return false;
  }

  /** findByAddress. */
  method AddressTaken(m: Meta, address: string) returns (taken: bool)
    ensures taken <==> AddressExists(m, address)
  {
    var keys := m.wallets.Keys;
    while keys != {}
      invariant keys <= m.wallets.Keys && forall k | k in m.wallets.Keys - keys :: !HoldsAddress(m.wallets[k], address)
      decreases keys
    {
      var k :| k in keys;
      var found := WalletHolds(m.wallets[k], address);
      if found { return true; }
      keys := keys - {k};
    }
    keys := m.accounts.Keys;
    while keys != {}
      invariant keys <= m.accounts.Keys && forall k | k in m.accounts.Keys - keys :: m.accounts[k].address != address
      decreases keys
    {
      var k :| k in keys;
      if m.accounts[k].address == address { return true; }
      keys := keys - {k};
    }
    return false;
  }

  datatype Tripwire = Consistent | NoIndex(id: string, key: string) | Behind(id: string, key: string)

  /** What the tripwire found: nothing, a key that is no index, or an index at or above the watermark. */
  predicate Found(m: Meta, t: Tripwire) {
    match t
    case Consistent => forall id | id in m.wallets :: AheadOfAll(m.wallets[id])
    case NoIndex(id, k) => id in m.wallets && k in m.wallets[id].accounts && ParseIndex(k).None?
    case Behind(id, k) =>
      && id in m.wallets && k in m.wallets[id].accounts
      && ParseIndex(k).Some? && ParseIndex(k).value >= m.wallets[id].next
  }

  /** Every key is an index, and every index below the watermark. */
  predicate AheadOfAll(w: Wallet) {
    forall k | k in w.accounts :: ParseIndex(k).Some? && ParseIndex(k).value < w.next
  }

  /** checkWatermark, which visits wallets and keys in any order. */
  method CheckWatermark(m: Meta) returns (t: Tripwire)
    ensures Found(m, t)
    ensures t.Consistent? <==> forall id | id in m.wallets :: AheadOfAll(m.wallets[id])
  {
    var ids := m.wallets.Keys;
    while ids != {}
      invariant ids <= m.wallets.Keys && forall id | id in m.wallets.Keys - ids :: AheadOfAll(m.wallets[id])
      decreases ids
    {
      var id :| id in ids;
      t := CheckKeys(m, id);
      if !t.Consistent? { return; }
      ids := ids - {id};
    }
    return Consistent;
  }

  /** The inner loop of checkWatermark. */
  method CheckKeys(m: Meta, id: string) returns (t: Tripwire)
    requires id in m.wallets
    ensures t.Consistent? <==> AheadOfAll(m.wallets[id])
    ensures !t.Consistent? ==> Found(m, t)
  {
    var w := m.wallets[id];
    var keys := w.accounts.Keys;
    while keys != {}
      invariant keys <= w.accounts.Keys
      invariant forall k | k in w.accounts.Keys - keys :: ParseIndex(k).Some? && ParseIndex(k).value < w.next
      decreases keys
    {
      var k :| k in keys;
      var parsed := ParseDecimalIndex(k);
      if parsed.None? { return NoIndex(id, k); }
      if parsed.value >= w.next { return Behind(id, k); }
      keys := keys - {k};
    }
    return Consistent;
  }

  /** The tripwire accepts whatever the operations leave, and a watermark set back is accepted exactly if it is still
      above every materialized index. */
  lemma TripwireIff(m: Meta, id: string, next: uint32)
    requires Valid(m) && id in m.wallets
    ensures Found(m, Consistent)
    ensures Found(WithWallet(m, id, m.wallets[id].(next := next)), Consistent)
      <==> forall k | k in m.wallets[id].accounts :: IndexOf(k) < next
  {
    var m' := WithWallet(m, id, m.wallets[id].(next := next));
    if forall k | k in m.wallets[id].accounts :: IndexOf(k) < next {
      assert AheadOfAll(m'.wallets[id]);
    }
    if Found(m', Consistent) {
      assert AheadOfAll(m'.wallets[id]);
    }
  }

  /** resolveInfo. */
  method ResolveInfo(m: Meta, ref: Ref) returns (r: Result<Place>)
    requires Valid(m)
    ensures r == Resolve(m, ref)
  {
    if ref.HDIndex? || ref.HDAlias? {
      var id := FindWallet(m, ref.wallet);
      if id.None? { return Err(NotFound); }
      var index := IndexForRef(m.wallets[id.value], ref);
      if index.None? { return Err(NotFound); }
      return Ok(InWallet(id.value, index.value));
    }
    if ref.Named? {
      var id := FindStandalone(m, ref.name);
      return if id.None? then Err(NotFound) else Ok(Alone(id.value));
    }
    return Err(ReadOnlyContext);
  }

  /** How fsx.WriteAtomic ends: in success, in an error before the rename, or in one after it, when the directory
      cannot be synced and the new content is in place all the same. */
  datatype Save = Written | NotWritten | LateError

  /** What a method may do with an outcome: report a refusal, or save the new metadata, or report that it could
      not, whether or not the new metadata is in place. */
  ghost predicate Carried<T>(before: Meta, after: Meta, r: Result<T>, out: Outcome<T>, save: Save) {
    match out
    case Refused(e) => after == before && r == Err(e)
    case Unchanged(v) => after == before && r == Ok(v)
    case Done(m, v) =>
      && after == (if save.NotWritten? then before else m)
      && r == if save.Written? then Ok(v) else Err(SaveFailed)
  }

  /** A secret goes to disk before the metadata that names it; when it does not get there, neither is saved. */
  function AfterSecret(secret: Save, save: Save): Save {
    if secret.Written? then save else NotWritten
  }

  /** The secret files after an object `id` is added: its file is written first, and removed again (best effort:
      `removed` says whether it works) when the metadata reports an error. */
  function WithSecret(files: set<string>, id: string, secret: Save, save: Save, removed: bool): set<string> {
    match secret
    case NotWritten => files
    case LateError => files + {id}
    case Written => if !save.Written? && removed then files - {id} else files + {id}
  }

  /** The one way an added object ends up without its secret: the metadata was renamed into place, the error came
      after that, and the clean-up went through. */
  predicate Orphans(secret: Save, save: Save, removed: bool) {
    secret.Written? && save.LateError? && removed
  }

  /** Every object of the metadata has its secret file. */
  predicate HasFiles(m: Meta, blobs: set<string>, keyFiles: set<string>) {
    m.wallets.Keys <= blobs && m.accounts.Keys <= keyFiles
  }

  lemma CreatedFilesIff(m: Meta, name: string, id: string, address0: Option<string>, blobs: set<string>,
                        keyFiles: set<string>, secret: Save, save: Save, removed: bool)
    requires HasFiles(m, blobs, keyFiles) && id !in m.wallets && Created(m, name, id, address0).Done?
    ensures var m' := if AfterSecret(secret, save).NotWritten? then m else Created(m, name, id, address0).meta;
      HasFiles(m', WithSecret(blobs, id, secret, save, removed), keyFiles) <==> !Orphans(secret, save, removed)
  {
    assert id in Created(m, name, id, address0).meta.wallets;
  }

  lemma ImportedFilesIff(m: Meta, name: string, id: string, address: Option<string>, blobs: set<string>,
                         keyFiles: set<string>, secret: Save, save: Save, removed: bool)
    requires HasFiles(m, blobs, keyFiles) && id !in m.accounts && Imported(m, name, id, address).Done?
    ensures var m' := if AfterSecret(secret, save).NotWritten? then m else Imported(m, name, id, address).meta;
      HasFiles(m', blobs, WithSecret(keyFiles, id, secret, save, removed)) <==> !Orphans(secret, save, removed)
  {
    assert id in Imported(m, name, id, address).meta.accounts;
  }

  lemma IndexDerivedKeepsFiles(m: Meta, name: string, index: nat, derived: Option<string>, blobs: set<string>,
                               keyFiles: set<string>)
    requires HasFiles(m, blobs, keyFiles)
    ensures HasFiles(After(m, IndexDerived(m, name, index, derived)), blobs, keyFiles)
  {}

  /** What a deletion leaves does not need the file of what it deletes. */
  lemma DeletedKeepsFiles(m: Meta, ref: Ref, blobs: set<string>, keyFiles: set<string>)
    requires HasFiles(m, blobs, keyFiles) && Deleted(m, ref).Done?
    ensures var m', p := Deleted(m, ref).meta, Deleted(m, ref).value;
      HasFiles(m', blobs, keyFiles) && (p.Alone? ==> HasFiles(m', blobs, keyFiles - {p.id}))
  {}

  /** A keystore directory under its exclusive lock. `meta` is what meta.json holds, `blobs` and `keyFiles` the
      wallets and standalone accounts whose secret files are there. `save` and `secret` say how a write ends,
      `removed` whether a best-effort removal works. */
  class Store {
    var meta: Meta
    var blobs: set<string>
    var keyFiles: set<string>

    constructor ()
      ensures meta == Meta("", map[], map[]) && blobs == {} && keyFiles == {} && Backed()
    {
      meta := Meta("", map[], map[]);
      blobs, keyFiles := {}, {};
    }

    predicate Backed()
      reads this
    {
      HasFiles(meta, blobs, keyFiles)
    }

    /** saveMeta. */
    method SaveMeta(m: Meta, save: Save) returns (ok: bool)
      modifies `meta
      ensures ok == save.Written? && meta == if save.NotWritten? then old(meta) else m
    {
      if !save.NotWritten? {
        meta := m;
      }
      return save.Written?;
    }

    /** writeWalletBlob. */
    method WriteBlob(id: string, secret: Save) returns (ok: bool)
      modifies `blobs
      ensures ok == secret.Written? && blobs == if secret.NotWritten? then old(blobs) else old(blobs) + {id}
    {
      if !secret.NotWritten? {
        blobs := blobs + {id};
      }
      return secret.Written?;
    }

    /** The write at the end of writeStandaloneFile. */
    method WriteKeyFile(id: string, secret: Save) returns (ok: bool)
      modifies `keyFiles
      ensures ok == secret.Written? && keyFiles == if secret.NotWritten? then old(keyFiles) else old(keyFiles) + {id}
    {
      if !secret.NotWritten? {
        keyFiles := keyFiles + {id};
      }
      return secret.Written?;
    }

    /** CreateWallet and ImportWallet, once the mnemonic is made or checked: `id` is the fresh UUID, `address0`
        the derivation of index 0. */
    method CreateWallet(name: string, id: string, address0: Option<string>, secret: Save, save: Save, removed: bool)
        returns (r: Result<string>)
      requires Valid(meta) && id !in meta.wallets
      modifies `meta, `blobs
      ensures Carried(old(meta), meta, r, Created(old(meta), name, id, address0), AfterSecret(secret, save))
      ensures Valid(meta)
      ensures blobs == if Created(old(meta), name, id, address0).Done?
                       then WithSecret(old(blobs), id, secret, save, removed) else old(blobs)
      ensures old(Backed()) ==>
        (Backed() <==> !(Created(old(meta), name, id, address0).Done? && Orphans(secret, save, removed)))
    {
      if !ValidName(name) { return Err(InvalidName); }
      var m := meta;
      var taken := NameTaken(m, name, None);
      if taken { return Err(Collision); }
      if address0.None? { return Err(Derivation); }
      CreatedValid(m, name, id, address0);
      if Backed() {
        CreatedFilesIff(m, name, id, address0, blobs, keyFiles, secret, save, removed);
      }
      var ok := WriteBlob(id, secret);
      if !ok { return Err(SaveFailed); }
      m := m.(wallets := m.wallets[id := Wallet(name, 1, map[Itoa(0) := HDAccount(address0.value, "")])]);
      ok := SaveMeta(m, save);
      if !ok {
        if removed {
          blobs := blobs - {id};
        }
        return Err(SaveFailed);
      }
      return Ok(id);
    }

    method RenameWallet(oldName: string, newName: string, save: Save) returns (r: Result<string>)
      requires Valid(meta) && meta.wallets.Keys !! meta.accounts.Keys
      modifies `meta
      ensures Carried(old(meta), meta, r, Renamed(old(meta), oldName, newName), save)
      ensures Valid(meta)
      ensures old(Backed()) ==> Backed()
    {
      if !ValidName(newName) { return Err(InvalidName); }
      var m := meta;
      var id := FindWallet(m, oldName);
      if id.None? { return Err(NotFound); }
      var taken := NameTaken(m, newName, id);
      if taken { return Err(Collision); }
      RenamedValid(m, oldName, newName);
      m := m.(wallets := m.wallets[id.value := m.wallets[id.value].(name := newName)]);
      var ok := SaveMeta(m, save);
      return if ok then Ok(id.value) else Err(SaveFailed);
    }

    /** The blob goes last, so an interrupted deletion leaves a blob without metadata and never the reverse. */
    method DeleteWallet(name: string, save: Save, removed: bool) returns (r: Result<string>)
      requires Valid(meta)
      modifies `meta, `blobs
      ensures Carried(old(meta), meta, r, WalletDeleted(old(meta), name), save)
      ensures Valid(meta)
      ensures blobs == if r.Ok? && removed then old(blobs) - {r.value} else old(blobs)
      ensures old(Backed()) ==> Backed()
    {
      var m := meta;
      var id := FindWallet(m, name);
      if id.None? { return Err(NotFound); }
      if PointsTo(m.chosen, m.wallets[id.value].name) {
        m := m.(chosen := "");
      }
      m := m.(wallets := m.wallets - {id.value});
      var ok := SaveMeta(m, save);
      if !ok { return Err(SaveFailed); }
      if removed {
        blobs := blobs - {id.value};
      }
      return Ok(id.value);
    }

    /** `derived` is the address the wallet's seed gives at next_index, None if the blob cannot be opened. */
    method DeriveNext(name: string, derived: Option<string>, save: Save) returns (r: Result<(nat, string)>)
      requires Valid(meta)
      modifies `meta
      ensures Carried(old(meta), meta, r, NextDerived(old(meta), name, derived), save)
      ensures Valid(meta) <==> !(NextDerived(old(meta), name, derived).Done? && !save.NotWritten?
                                 && old(meta).wallets[WalletNamed(old(meta), name).value].next == MAX_UINT32)
      ensures old(Backed()) ==> Backed()
    {
      var m := meta;
      var id := FindWallet(m, name);
      if id.None? { return Err(NotFound); }
      if derived.None? { return Err(Derivation); }
      NextDerivedValidIff(m, name, derived);
      var w := m.wallets[id.value];
      var index := w.next;
      w := w.(accounts := w.accounts[Itoa(index) := HDAccount(derived.value, "")]);
      w := w.(next := Successor(index));
      m := m.(wallets := m.wallets[id.value := w]);
      var ok := SaveMeta(m, save);
      return if ok then Ok((index, derived.value)) else Err(SaveFailed);
    }

    method DeriveIndex(name: string, index: nat, derived: Option<string>, save: Save) returns (r: Result<string>)
      requires Valid(meta)
      modifies `meta
      ensures Carried(old(meta), meta, r, IndexDerived(old(meta), name, index, derived), save)
      ensures Valid(meta)
      ensures old(Backed()) ==> Backed()
    {
      if index >= HARDENED { return Err(BadIndex); }
      var m := meta;
      var id := FindWallet(m, name);
      if id.None? { return Err(NotFound); }
      var w := m.wallets[id.value];
      if Itoa(index) in w.accounts { return Ok(w.accounts[Itoa(index)].address); }
      if derived.None? { return Err(Derivation); }
      IndexDerivedValid(m, name, index, derived);
      if Backed() {
        IndexDerivedKeepsFiles(m, name, index, derived, blobs, keyFiles);
      }
      w := w.(accounts := w.accounts[Itoa(index) := HDAccount(derived.value, "")]);
      if index >= w.next {
        w := w.(next := index + 1);
      }
      assert w == Materialized(m.wallets[id.value], index, derived.value, w.next);
      m := m.(wallets := m.wallets[id.value := w]);
      var ok := SaveMeta(m, save);
      return if ok then Ok(derived.value) else Err(SaveFailed);
    }

    method Alias(name: string, index: nat, alias: string, save: Save) returns (r: Result<()>)
      requires Valid(meta)
      modifies `meta
      ensures Carried(old(meta), meta, r, Aliased(old(meta), name, index, alias), save)
      ensures Valid(meta)
      ensures old(Backed()) ==> Backed()
    {
      if !ValidAlias(alias) { return Err(InvalidName); }
      var m := meta;
      var id := FindWallet(m, name);
      if id.None? { return Err(NotFound); }
      var w := m.wallets[id.value];
      if Itoa(index) !in w.accounts { return Err(NotFound); }
      var used := AliasUsed(w, alias, index);
      if used { return Err(Collision); }
      AliasedValid(m, name, index, alias);
      w := w.(accounts := w.accounts[Itoa(index) := w.accounts[Itoa(index)].(alias := alias)]);
      m := m.(wallets := m.wallets[id.value := w]);
      var ok := SaveMeta(m, save);
      return if ok then Ok(()) else Err(SaveFailed);
    }

    method Unalias(name: string, index: nat, save: Save) returns (r: Result<string>)
      requires Valid(meta)
      modifies `meta
      ensures Carried(old(meta), meta, r, Unaliased(old(meta), name, index), save)
      ensures Valid(meta)
      ensures old(Backed()) ==> Backed()
    {
      var m := meta;
      var id := FindWallet(m, name);
      if id.None? { return Err(NotFound); }
      var w := m.wallets[id.value];
      if Itoa(index) !in w.accounts || w.accounts[Itoa(index)].alias == "" { return Err(NotFound); }
      UnaliasedValid(m, name, index);
      var removed := w.accounts[Itoa(index)].alias;
      w := w.(accounts := w.accounts[Itoa(index) := w.accounts[Itoa(index)].(alias := "")]);
      m := m.(wallets := m.wallets[id.value := w]);
      var ok := SaveMeta(m, save);
      return if ok then Ok(removed) else Err(SaveFailed);
    }

    /** `address` is that of the raw key, None if the key is not in [1, n-1]; `id` is the fresh UUID. */
    method ImportStandalone(name: string, id: string, address: Option<string>, secret: Save, save: Save, removed: bool)
        returns (r: Result<string>)
      requires Valid(meta) && id !in meta.accounts
      modifies `meta, `keyFiles
      ensures Carried(old(meta), meta, r, Imported(old(meta), name, id, address), AfterSecret(secret, save))
      ensures Valid(meta)
      ensures keyFiles == if Imported(old(meta), name, id, address).Done?
                          then WithSecret(old(keyFiles), id, secret, save, removed) else old(keyFiles)
      ensures old(Backed()) ==>
        (Backed() <==> !(Imported(old(meta), name, id, address).Done? && Orphans(secret, save, removed)))
    {
      if !ValidName(name) { return Err(InvalidName); }
      var m := meta;
      var taken := NameTaken(m, name, None);
      if taken { return Err(Collision); }
      if address.None? { return Err(BadKey); }
      taken := AddressTaken(m, address.value);
      if taken { return Err(Collision); }
      ImportedValid(m, name, id, address);
      if Backed() {
        ImportedFilesIff(m, name, id, address, blobs, keyFiles, secret, save, removed);
      }
      var ok := WriteKeyFile(id, secret);
      if !ok { return Err(SaveFailed); }
      m := m.(accounts := m.accounts[id := Standalone(name, address.value)]);
      ok := SaveMeta(m, save);
      if !ok {
        if removed {
          keyFiles := keyFiles - {id};
        }
        return Err(SaveFailed);
      }
      return Ok(id);
    }

    method DeleteAccount(ref: Ref, save: Save, removed: bool) returns (r: Result<Place>)
      requires Valid(meta)
      modifies `meta, `keyFiles
      ensures Carried(old(meta), meta, r, Deleted(old(meta), ref), save)
      ensures Valid(meta)
      ensures keyFiles == if r.Ok? && r.value.Alone? && removed then old(keyFiles) - {r.value.id} else old(keyFiles)
      ensures old(Backed()) ==> Backed()
    {
      var p := ResolveInfo(meta, ref);
      if p.Err? { return Err(p.error); }
      match p.value {
        case InWallet(id, index) => r := ForgetIndex(ref, id, index, save);
        case Alone(id) => r := RemoveStandalone(ref, id, save, removed);
      }
    }

    /** DeleteAccount's case of an HD account. */
    method ForgetIndex(ghost ref: Ref, id: string, index: nat, save: Save) returns (r: Result<Place>)
      requires Valid(meta) && Resolve(meta, ref) == Ok(InWallet(id, index))
      modifies `meta
      ensures Carried(old(meta), meta, r, Deleted(old(meta), ref), save)
      ensures r.Ok? ==> r.value == InWallet(id, index)
      ensures Valid(meta) && (old(Backed()) ==> Backed())
    {
      DeletedValid(meta, ref);
      if Backed() {
        DeletedKeepsFiles(meta, ref, blobs, keyFiles);
      }
      var m := meta;
      var w := m.wallets[id];
      if IsDefault(m, w, Itoa(index)) {
        m := m.(chosen := "");
      }
      w := w.(accounts := w.accounts - {Itoa(index)});
      m := m.(wallets := m.wallets[id := w]);
      var ok := SaveMeta(m, save);
      return if ok then Ok(InWallet(id, index)) else Err(SaveFailed);
    }

    /** DeleteAccount's case of a standalone account; the key file goes last. */
    method RemoveStandalone(ghost ref: Ref, id: string, save: Save, removed: bool) returns (r: Result<Place>)
      requires Valid(meta) && Resolve(meta, ref) == Ok(Alone(id))
      modifies `meta, `keyFiles
      ensures Carried(old(meta), meta, r, Deleted(old(meta), ref), save)
      ensures r.Ok? ==> r.value == Alone(id)
      ensures keyFiles == if r.Ok? && removed then old(keyFiles) - {id} else old(keyFiles)
      ensures Valid(meta) && (old(Backed()) ==> Backed())
    {
      DeletedValid(meta, ref);
      if Backed() {
        DeletedKeepsFiles(meta, ref, blobs, keyFiles);
      }
      var m := meta;
      if m.chosen == m.accounts[id].name {
        m := m.(chosen := "");
      }
      m := m.(accounts := m.accounts - {id});
      var ok := SaveMeta(m, save);
      if !ok { return Err(SaveFailed); }
      if removed {
        keyFiles := keyFiles - {id};
      }
      return Ok(Alone(id));
    }

    method SetDefault(ref: Ref, save: Save) returns (r: Result<()>)
      requires Valid(meta)
      modifies `meta
      ensures Carried(old(meta), meta, r, DefaultSet(old(meta), ref), save)
      ensures Valid(meta)
      ensures old(Backed()) ==> Backed()
    {
      var m := meta;
      var p := ResolveInfo(m, ref);
      if p.Err? { return Err(p.error); }
      m := m.(chosen := Canonical(m, p.value));
      var ok := SaveMeta(m, save);
      return if ok then Ok(()) else Err(SaveFailed);
    }
  }
}
