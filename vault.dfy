/** The vault engine of `MainWindow`: the section tree, the block map, the
    trash, the id index, the search index and the set of section locks
    unlocked in this session, with the methods that change them. Dialog
    answers (confirmations, chosen items, typed passwords) are parameters;
    saving, rendering and audit logging are not modelled. */
module VaultEngine {
  import opened Wrappers
  import opened Text
  import opened Crypto
  import opened ValueCodec
  import opened SearchIndex
  import opened SectionTree
  import opened BlockStore

  /** `_rename_blocks_prefix`'s first two loops: collect every key under
      `from` with its renamed key into `updates`, then move each list onto its
      renamed key (a key renamed to itself is left alone). */
  method MoveKeys(m: BlockMap, from: string, to: string) returns (bd: BlockMap)
    requires RenamePre(m, from, to)
    ensures bd == Renamed(m, from, to)
  {
    var updates := map k | k in m && Under(k, from) :: RenameKey(k, from, to);
    var todo := updates.Keys;
    ghost var all := todo;
    assert all == Sources(m, from);
    ghost var done: set<string> := {};
    bd := m;
    PartialStart(m, from, to);
    while todo != {}
      invariant todo + done == all && todo !! done
      invariant todo <= updates.Keys
      invariant RenameProgress(bd, m, from, to, done)
      decreases |todo|
    {
      var k :| k in todo;
      var nk := updates[k];
      RenameProgressStep(bd, m, from, to, done, k);
      bd := ApplyUpdate(bd, k, nk);
      ShiftOne(todo, done, all, k);
      todo := todo - {k};
      done := done + {k};
    }
    RenameProgressDone(bd, m, from, to);
  }

  /** `_move_section`'s new key prefix: the new parent's key, then the section's own name. */
  function NewPrefix(newParent: string, path: seq<string>): (r: string)
    requires path != []
    ensures newParent == "" ==> r == path[|path| - 1]
    ensures newParent != "" ==>
      |r| == |newParent| + 1 + |path[|path| - 1]| && Under(r, newParent) && r[|newParent| + 1..] == path[|path| - 1]
  {
    (if newParent != "" then newParent + "/" else "") + path[|path| - 1]
  }

  /** U+FEFF, the byte order mark. */
  const Bom: char := '\U{FEFF}'

  /** `rename_item`'s cleaning of a typed name: the byte order marks go, then the
      surrounding whitespace. */
  function CleanName(name: string): (r: string)
    ensures Bom !in r && |r| <= |name|
    ensures r != [] ==> !IsSpace(r[0]) && !IsSpace(r[|r| - 1])
  {
    StripKeeps(Erase(name, Bom));
    Strip(Erase(name, Bom))
  }

  /** `_verify_section_password`'s test: the typed password hashed under the
      lock's salt, with Argon2id exactly when the lock says so, matches the
      stored verifier. */
  function PasswordMatches(p: Primitives, lock: Lock, pwd: string): bool {
    HashForAuth(p, pwd, lock.salt, lock.kdf == "argon2id", KdfDefaults) == lock.verifier
  }

  class Vault {
    var tree: seq<Node>
    var blocksData: BlockMap
    var trash: seq<TrashEntry>
    var idToRef: Refs
    var unlockedSections: set<string>
    var showData: bool
    const index: IndexDB
    const fernet: Fernet
    /** The theme's `tag_bg`, the colour of sections created on the way. */
    const tagColor: string

    /** The search index is well formed, and the block map, the id index and
        the index texts agree (`BlockStore.Good`). */
    ghost predicate Valid()
      reads this, index
    {
      index.Valid() && Good(fernet, State(blocksData, idToRef, index.data))
    }

    ghost function Snapshot(): State
      reads this, index
    {
      State(blocksData, idToRef, index.data)
    }

    /** An empty vault. */
    constructor (f: Fernet, color: string)
      ensures Valid() && fresh(index)
      ensures tree == [] && blocksData == map[] && trash == [] && idToRef == map[]
      ensures unlockedSections == {} && !showData && fernet == f && tagColor == color
    {
      tree := [];
      blocksData := map[];
      trash := [];
      idToRef := map[];
      unlockedSections := {};
      showData := false;
      index := new IndexDB();
      fernet := f;
      tagColor := color;
    }

    /** `update_index_for_block`. */
    method UpdateIndexForBlock(b: Block)
      requires index.Valid()
      modifies index
      ensures index.Valid()
      ensures index.data == old(index.data)[b.id := IndexText(fernet, b)]
    {
      index.Upsert(b.id, Some(IndexText(fernet, b)));
    }

    /** The body shared by `move_block` and `on_blocks_dropped_to_section` once
        the block is known to move to another key. */
    method Relocate(block: Block, fromKey: string, target: string)
      requires Valid() && fromKey in blocksData && block in blocksData[fromKey] && target != fromKey
      modifies this, index
      ensures Valid()
      ensures Snapshot() == MoveStep(fernet, old(Snapshot()), block, fromKey, target)
      ensures tree == old(tree) && trash == old(trash) && unlockedSections == old(unlockedSections) && showData == old(showData)
    {
      ghost var after := MoveStep(fernet, Snapshot(), block, fromKey, target);
      MoveStepGood(fernet, Snapshot(), block, fromKey, target);
      var moved := block.(category := NewCategory(target, block));
      blocksData := blocksData[target := Get(blocksData, target) + [moved]];
      var rest := Without(blocksData[fromKey], block.id);
      blocksData := blocksData[fromKey := rest];
      if rest == [] {
        blocksData := blocksData - {fromKey};
      }
      assert blocksData == after.blocks;
      idToRef := idToRef[block.id := target];
      UpdateIndexForBlock(moved);
      assert Snapshot() == after;
    }

    /** `move_block(block, target)`: a block without a ref, or at the root key,
        stays; a move to the key it is already under changes nothing. */
    method MoveBlock(block: Block, target: string)
      requires Valid()
      requires block.id in idToRef && idToRef[block.id] != "" ==>
        idToRef[block.id] in blocksData && block in blocksData[idToRef[block.id]]
      modifies this, index
      ensures Valid()
      ensures old(block.id in idToRef && idToRef[block.id] != "") ==>
        Snapshot() == MoveStep(fernet, old(Snapshot()), block, old(idToRef[block.id]), target)
      ensures old(block.id !in idToRef || idToRef[block.id] == "") ==>
        Snapshot() == old(Snapshot())
      ensures tree == old(tree) && trash == old(trash) && unlockedSections == old(unlockedSections) && showData == old(showData)
    {
      if block.id !in idToRef {
        return;
      }
      var oldKey := idToRef[block.id];
      if oldKey == "" {
        return;
      }
      if target == oldKey {
        return;
      }
      Relocate(block, oldKey, target);
    }

    /** One iteration of `on_blocks_dropped_to_section`: an id without a ref,
        or already under the target, is skipped. */
    method DropOneBlock(bid: string, targetPath: string)
      requires Valid()
      modifies this, index
      ensures Valid()
      ensures Snapshot() == DropOne(fernet, old(Snapshot()), bid, targetPath)
      ensures tree == old(tree) && trash == old(trash) && unlockedSections == old(unlockedSections) && showData == old(showData)
    {
      if bid !in idToRef {
        return;
      }
      var fromKey := idToRef[bid];
      if fromKey == targetPath {
        return;
      }
      match FindById(Get(blocksData, fromKey), bid)
      case None =>
      case Some(b) =>
        assert fromKey in blocksData;
        Relocate(b, fromKey, targetPath);
    }

    /** `on_blocks_dropped_to_section(target_path, block_ids)`: every dropped id
        that was a live block ends up with its ref, hence its block, at the target. */
    method DropBlocks(targetPath: string, blockIds: seq<string>)
      requires Valid()
      requires forall i :: 0 <= i < |blockIds| && blockIds[i] in idToRef ==> blockIds[i] in LiveIds(blocksData)
      modifies this, index
      ensures Valid()
      ensures Snapshot() == DropAll(fernet, old(Snapshot()), blockIds, targetPath)
      ensures forall i :: 0 <= i < |blockIds| && blockIds[i] in old(LiveIds(blocksData)) ==>
        blockIds[i] in idToRef && idToRef[blockIds[i]] == targetPath
      ensures LiveIds(blocksData) == old(LiveIds(blocksData))
      ensures tree == old(tree) && trash == old(trash) && unlockedSections == old(unlockedSections) && showData == old(showData)
    {
      ghost var st0 := Snapshot();
      var i := 0;
      while i < |blockIds|
        invariant 0 <= i <= |blockIds|
        invariant Valid()
        invariant Snapshot() == DropAll(fernet, st0, blockIds[..i], targetPath)
        invariant tree == old(tree) && trash == old(trash) && unlockedSections == old(unlockedSections) && showData == old(showData)
      {
        assert blockIds[..i + 1][..i] == blockIds[..i];
        DropOneBlock(blockIds[i], targetPath);
        i := i + 1;
      }
      assert blockIds[..i] == blockIds;
      DropAllLands(fernet, st0, blockIds, targetPath);
    }

    /** `delete_item`'s inner loop for one swept key: every block of the list
        becomes a trash record, in list order, and leaves the search index;
        then the key goes. */
    method SweepKey(k: string)
      requires index.Valid() && k in blocksData
      modifies this, index
      ensures index.Valid()
      ensures trash == old(trash) + EntriesOf(k, old(blocksData[k]))
      ensures index.data == old(index.data) - IdsOf(old(blocksData[k]))
      ensures blocksData == old(blocksData) - {k}
      ensures tree == old(tree) && idToRef == old(idToRef) && unlockedSections == old(unlockedSections) && showData == old(showData)
    {
      var bs := blocksData[k];
      var j := 0;
      while j < |bs|
        invariant 0 <= j <= |bs|
        invariant index.Valid()
        invariant trash == old(trash) + EntriesOf(k, bs[..j])
        invariant index.data == old(index.data) - IdsOf(bs[..j])
        invariant blocksData == old(blocksData)
        invariant tree == old(tree) && idToRef == old(idToRef) && unlockedSections == old(unlockedSections) && showData == old(showData)
      {
        var b := bs[j];
        ghost var t1 := trash;
        ghost var x1 := index.data;
        EntriesOfSnoc(k, bs, j);
        IdsOfSnoc(bs, j);
        AppendAssoc(old(trash), EntriesOf(k, bs[..j]), [TrashEntry(b.id, k, b)]);
        MinusMinus(old(index.data), IdsOf(bs[..j]), {b.id});
        trash := trash + [TrashEntry(b.id, k, b)];
        index.Delete(b.id);
        assert trash == t1 + [TrashEntry(b.id, k, b)] && index.data == x1 - {b.id};
        j := j + 1;
      }
      assert bs[..j] == bs;
      blocksData := blocksData - {k};
    }

    /** `delete_item`'s loop over the affected keys. */
    method SweepUnder(keyPrefix: string)
      requires index.Valid()
      modifies this, index
      ensures index.Valid()
      ensures blocksData == old(blocksData) - Affected(old(blocksData), keyPrefix)
      ensures |trash| >= |old(trash)| && trash[..|old(trash)|] == old(trash)
      ensures multiset(trash[|old(trash)|..]) == Trashed(old(blocksData), Affected(old(blocksData), keyPrefix))
      ensures index.data == old(index.data) - IdsAt(old(blocksData), Affected(old(blocksData), keyPrefix))
      ensures tree == old(tree) && idToRef == old(idToRef) && unlockedSections == old(unlockedSections) && showData == old(showData)
    {
      ghost var m0 := blocksData;
      ghost var t0 := trash;
      ghost var x0 := index.data;
      var affected := set k | k in blocksData && Under(k, keyPrefix);
      ghost var all := affected;
      assert all == Affected(m0, keyPrefix);
      ghost var done: set<string> := {};
      ghost var added: seq<TrashEntry> := [];
      while affected != {}
        invariant affected + done == all && affected !! done
        invariant blocksData == m0 - done
        invariant trash == t0 + added && multiset(added) == Trashed(m0, done)
        invariant index.Valid() && index.data == x0 - IdsAt(m0, done)
        invariant tree == old(tree) && idToRef == old(idToRef) && unlockedSections == old(unlockedSections) && showData == old(showData)
        decreases |affected|
      {
        var k :| k in affected;
        ShiftOne(affected, done, all, k);
        ghost var es := EntriesOf(k, m0[k]);
        assert blocksData[k] == m0[k];
        SweepKey(k);
        SweepAdvance(m0, done, k, x0);
        assert trash == (t0 + added) + es;
        AppendAssoc(t0, added, es);
        added := added + es;
        affected := affected - {k};
        done := done + {k};
      }
      assert trash[..|t0|] == t0 && trash[|t0|..] == added;
    }

    /** `delete_item(path)` with the confirmation as `confirmed`: every key equal
        to the section's key or below it is swept into the trash (in an order
        that is not modelled, hence a bag), and the section node is removed. */
    method DeleteSection(path: seq<string>, confirmed: bool)
      requires Valid()
      modifies this, index
      ensures Valid()
      ensures path != [] && confirmed ==>
        var p := Join(path, "/");
        && blocksData == Pruned(old(blocksData), p)
        && |trash| >= |old(trash)| && trash[..|old(trash)|] == old(trash)
        && multiset(trash[|old(trash)|..]) == Trashed(old(blocksData), Affected(old(blocksData), p))
        && index.data == old(index.data) - IdsAt(old(blocksData), Affected(old(blocksData), p))
        && tree == RemoveNode(old(tree), path)
      ensures !(path != [] && confirmed) ==>
        blocksData == old(blocksData) && trash == old(trash) && index.data == old(index.data) && tree == old(tree)
      ensures idToRef == old(idToRef) && unlockedSections == old(unlockedSections) && showData == old(showData)
    {
      if path == [] {
        return;
      }
      var keyPrefix := Join(path, "/");
      if !confirmed {
        return;
      }
      PrunedConsistent(fernet, blocksData, idToRef, index.data, keyPrefix);
      SweptIds(blocksData, idToRef, keyPrefix);
      ghost var st := State(Pruned(blocksData, keyPrefix), idToRef, index.data - IdsAt(blocksData, Affected(blocksData, keyPrefix)));
      assert blocksData - Affected(blocksData, keyPrefix) == Pruned(blocksData, keyPrefix);
      assert Good(fernet, st);
      SweepUnder(keyPrefix);
      assert Snapshot() == st;
      tree := RemoveNode(tree, path);
    }

    /** `delete_block_soft(block)` with the confirmation as `confirmed`: the block
        leaves its list and the search index and is appended to the trash; its
        ref is left as it was. */
    method DeleteBlockSoft(block: Block, confirmed: bool)
      requires Valid()
      requires block.id in idToRef && idToRef[block.id] != "" ==>
        idToRef[block.id] in blocksData && block in blocksData[idToRef[block.id]]
      modifies this, index
      ensures Valid()
      ensures old(block.id in idToRef && idToRef[block.id] != "") && confirmed ==>
        && blocksData == RemoveFromKey(old(blocksData), old(idToRef[block.id]), block.id)
        && trash == old(trash) + [TrashEntry(block.id, old(idToRef[block.id]), block)]
        && index.data == old(index.data) - {block.id}
        && block.id !in LiveIds(blocksData)
      ensures !(old(block.id in idToRef && idToRef[block.id] != "") && confirmed) ==>
        blocksData == old(blocksData) && trash == old(trash) && index.data == old(index.data)
      ensures idToRef == old(idToRef)
      ensures tree == old(tree) && unlockedSections == old(unlockedSections) && showData == old(showData)
    {
      if block.id !in idToRef {
        return;
      }
      var key := idToRef[block.id];
      if key == "" || !confirmed {
        return;
      }
      ghost var after := RemoveFromKey(blocksData, key, block.id);
      ghost var st := State(after, idToRef, index.data - {block.id});
      DeleteSoftConsistent(fernet, blocksData, idToRef, index.data, block, key);
      DeleteSoftGone(blocksData, idToRef, block, key);
      assert Good(fernet, st);
      blocksData := RemoveFromKey(blocksData, key, block.id);
      trash := trash + [TrashEntry(block.id, key, block)];
      index.Delete(block.id);
      assert Snapshot() == st;
    }
    /** `_ensure_tree_path(section_path)`: every segment of a non-empty key is
        created, in the theme's tag colour, where missing. */
    method EnsureTreePath(sectionPath: string)
      modifies this
      ensures sectionPath == "" ==> tree == old(tree)
      ensures sectionPath != "" ==>
        && tree == EnsurePath(old(tree), Split(sectionPath), tagColor)
        && FindNode(tree, Split(sectionPath)).Some?
      ensures blocksData == old(blocksData) && trash == old(trash) && idToRef == old(idToRef)
      ensures unlockedSections == old(unlockedSections) && showData == old(showData)
    {
      if sectionPath == "" {
        return;
      }
      tree := EnsurePath(tree, Split(sectionPath), tagColor);
    }

    /** What both restore actions do with the chosen block once its section
        exists again: append it under its old key, point its ref there and
        index it. The trash is left to the caller. */
    method PutBack(e: TrashEntry)
      requires Valid()
      modifies this, index
      ensures index.Valid()
      ensures blocksData == RestoreMap(old(blocksData), e)
      ensures idToRef == old(idToRef)[e.block.id := e.fromKey]
      ensures index.data == old(index.data)[e.block.id := IndexText(fernet, e.block)]
      ensures e.block.id !in old(LiveIds(blocksData)) ==> Valid()
      ensures tree == old(tree) && trash == old(trash) && unlockedSections == old(unlockedSections) && showData == old(showData)
    {
      ghost var st := State(RestoreMap(blocksData, e), idToRef[e.block.id := e.fromKey],
                            index.data[e.block.id := IndexText(fernet, e.block)]);
      if e.block.id !in LiveIds(blocksData) {
        RestoreConsistent(fernet, blocksData, idToRef, index.data, e);
      }
      var key := e.fromKey;
      var b := e.block;
      blocksData := blocksData[key := Get(blocksData, key) + [b]];
      idToRef := idToRef[b.id := key];
      UpdateIndexForBlock(b);
      assert Snapshot() == st;
    }

    /** `restore_from_trash`, with `selection` the position `items.index(sel)`
        gives for the label the user chose (`None` when the dialog is
        cancelled); the record is then dropped with `list.remove`. */
    method RestoreFromTrash(selection: Option<nat>)
      requires Valid()
      requires trash != [] && selection.Some? ==> selection.value < |trash|
      modifies this, index
      ensures index.Valid()
      ensures old(trash) != [] && selection.Some? ==>
        var e := old(trash)[selection.value];
        && blocksData == RestoreMap(old(blocksData), e)
        && idToRef == old(idToRef)[e.block.id := e.fromKey]
        && index.data == old(index.data)[e.block.id := IndexText(fernet, e.block)]
        && trash == RemoveFirst(old(trash), e)
        && multiset(trash) == multiset(old(trash)) - multiset{e}
        && tree == (if e.fromKey == "" then old(tree) else EnsurePath(old(tree), Split(e.fromKey), tagColor))
        && (e.fromKey != "" ==> FindNode(tree, Split(e.fromKey)).Some?)
        && (e.block.id !in old(LiveIds(blocksData)) ==> Valid())
      ensures !(old(trash) != [] && selection.Some?) ==>
        && blocksData == old(blocksData) && idToRef == old(idToRef) && index.data == old(index.data)
        && trash == old(trash) && tree == old(tree)
      ensures unlockedSections == old(unlockedSections) && showData == old(showData)
    {
      if trash == [] || selection.None? {
        return;
      }
      var it := trash[selection.value];
      EnsureTreePath(it.fromKey);
      PutBack(it);
      assert it in trash;
      trash := RemoveFirst(trash, it);
    }

    /** `RecycleBinDialog.restore_selected` for table row `r` (negative when
        nothing is selected): the same restore, and the record at that
        position is deleted. */
    method RestoreSelected(r: int)
      requires Valid()
      requires r < |trash|
      modifies this, index
      ensures index.Valid()
      ensures 0 <= r ==>
        var e := old(trash)[r];
        && blocksData == RestoreMap(old(blocksData), e)
        && idToRef == old(idToRef)[e.block.id := e.fromKey]
        && index.data == old(index.data)[e.block.id := IndexText(fernet, e.block)]
        && trash == old(trash)[..r] + old(trash)[r + 1..]
        && tree == (if e.fromKey == "" then old(tree) else EnsurePath(old(tree), Split(e.fromKey), tagColor))
        && (e.fromKey != "" ==> FindNode(tree, Split(e.fromKey)).Some?)
        && (e.block.id !in old(LiveIds(blocksData)) ==> Valid())
      ensures r < 0 ==>
        && blocksData == old(blocksData) && idToRef == old(idToRef) && index.data == old(index.data)
        && trash == old(trash) && tree == old(tree)
      ensures unlockedSections == old(unlockedSections) && showData == old(showData)
    {
      if r < 0 {
        return;
      }
      var it := trash[r];
      EnsureTreePath(it.fromKey);
      PutBack(it);
      trash := trash[..r] + trash[r + 1..];
    }
    /** `_rename_blocks_prefix`'s first two loops, on the field. */
    method RenameKeys(from: string, to: string)
      requires RenamePre(blocksData, from, to)
      modifies this
      ensures blocksData == Renamed(old(blocksData), from, to)
      ensures tree == old(tree) && trash == old(trash) && idToRef == old(idToRef)
      ensures unlockedSections == old(unlockedSections) && showData == old(showData)
    {
      blocksData := MoveKeys(blocksData, from, to);
    }

    /** The final pass of `_rename_blocks_prefix` for one key: each block gets
        the key's last segment as category, its ref set to the key and its
        index text rebuilt. */
    method ReindexKey(k: string)
      requires index.Valid() && k in blocksData && IdsDistinct(blocksData[k])
      modifies this, index
      ensures index.Valid()
      ensures blocksData == old(blocksData)[k := Recat(k, old(blocksData)[k])]
      ensures forall i :: 0 <= i < |old(blocksData)[k]| ==>
        Indexed(fernet, idToRef, index.data, k, Recat(k, old(blocksData)[k])[i])
      ensures forall id :: id !in IdsOf(old(blocksData)[k]) ==>
        Agree(idToRef, old(idToRef), id) && Agree(index.data, old(index.data), id)
      ensures tree == old(tree) && trash == old(trash) && unlockedSections == old(unlockedSections) && showData == old(showData)
    {
      var arr := blocksData[k];
      var out: seq<Block> := [];
      var j := 0;
      while j < |arr|
        invariant 0 <= j <= |arr|
        invariant out == Recat(k, arr)[..j]
        invariant index.Valid()
        invariant forall i :: 0 <= i < j ==> Indexed(fernet, idToRef, index.data, k, Recat(k, arr)[i])
        invariant forall id :: id !in IdsOf(arr[..j]) ==>
          Agree(idToRef, old(idToRef), id) && Agree(index.data, old(index.data), id)
        invariant blocksData == old(blocksData)
        invariant tree == old(tree) && trash == old(trash) && unlockedSections == old(unlockedSections) && showData == old(showData)
      {
        var b := arr[j].(category := NewCategory(k, arr[j]));
        ghost var r0 := idToRef;
        ghost var t0 := index.data;
        RecatSnoc(k, arr, j);
        out := out + [b];
        idToRef := idToRef[b.id := k];
        UpdateIndexForBlock(b);
        assert idToRef == r0[b.id := k] && index.data == t0[b.id := IndexText(fernet, b)];
        ReindexKeyStep(fernet, k, arr, j, r0, t0, old(idToRef), old(index.data), idToRef, index.data);
        j := j + 1;
      }
      assert out == Recat(k, arr);
      blocksData := blocksData[k := out];
    }

    /** The final pass over every key. */
    method ReindexAll()
      requires index.Valid() && UniqueIds(blocksData)
      modifies this, index
      ensures index.Valid()
      ensures blocksData == Recategorize(old(blocksData))
      ensures RefsCurrent(blocksData, idToRef) && IndexCurrent(fernet, blocksData, index.data)
      ensures forall id :: id !in LiveIds(old(blocksData)) ==>
        Agree(idToRef, old(idToRef), id) && Agree(index.data, old(index.data), id)
      ensures tree == old(tree) && trash == old(trash) && unlockedSections == old(unlockedSections) && showData == old(showData)
    {
      ghost var R := blocksData;
      ghost var refs0 := idToRef;
      ghost var x0 := index.data;
      var keys := blocksData.Keys;
      ghost var all := keys;
      ghost var done: set<string> := {};
      ReindexStart(fernet, R, refs0, x0);
      while keys != {}
        invariant keys + done == all == R.Keys && keys !! done
        invariant index.Valid()
        invariant ReindexInv(fernet, R, done, blocksData, idToRef, index.data, refs0, x0)
        invariant tree == old(tree) && trash == old(trash) && unlockedSections == old(unlockedSections) && showData == old(showData)
        decreases |keys|
      {
        var k :| k in keys;
        ghost var bd1 := blocksData;
        ghost var refs1 := idToRef;
        ghost var x1 := index.data;
        assert blocksData[k] == R[k];
        UniqueDistinct(R);
        ReindexKey(k);
        ReindexAdvance(fernet, R, done, k, bd1, refs1, x1, refs0, x0, idToRef, index.data);
        ShiftOne(keys, done, all, k);
        keys := keys - {k};
        done := done + {k};
      }
      ReindexFinish(fernet, R, blocksData, idToRef, index.data, refs0, x0);
    }

    /** `_rename_blocks_prefix(from, to)`: every key equal to `from` or below it
        is replaced by `to` with the same suffix, lists landing on an existing
        key are appended there, and then every block's category, ref and index
        text are brought up to date. */
    method RenameBlocksPrefix(from: string, to: string)
      requires Valid() && RenamePre(blocksData, from, to)
      modifies this, index
      ensures Valid()
      ensures blocksData == Recategorize(Renamed(old(blocksData), from, to))
      ensures LiveIds(blocksData) == old(LiveIds(blocksData))
      ensures forall id :: id !in LiveIds(blocksData) ==>
        Agree(idToRef, old(idToRef), id) && Agree(index.data, old(index.data), id)
      ensures tree == old(tree) && trash == old(trash) && unlockedSections == old(unlockedSections) && showData == old(showData)
    {
      ghost var m0 := blocksData;
      ConsistentUnique(m0, idToRef);
      RenamedUnique(m0, from, to);
      RenamedLive(m0, from, to);
      RenameKeys(from, to);
      RecategorizeUnique(blocksData);
      ReindexAll();
      UniqueDistinct(blocksData);
    }

    /** `_move_section(path, newParent)`: the section leaves its sibling list
        and is appended under the new parent (at the top level when that is
        empty or names no section); then its keys are renamed onto the new
        prefix. A path that does not resolve changes nothing. */
    method MoveSection(path: seq<string>, newParent: string)
      requires Valid()
      requires FindNode(tree, path).Some? ==> RenamePre(blocksData, Join(path, "/"), NewPrefix(newParent, path))
      modifies this, index
      ensures Valid()
      ensures old(FindNode(tree, path)).Some? ==>
        && tree == MoveSectionTree(old(tree), path, newParent)
        && blocksData == Recategorize(Renamed(old(blocksData), Join(path, "/"), NewPrefix(newParent, path)))
        && LiveIds(blocksData) == old(LiveIds(blocksData))
        && (forall id :: id !in LiveIds(blocksData) ==>
              Agree(idToRef, old(idToRef), id) && Agree(index.data, old(index.data), id))
      ensures old(FindNode(tree, path)).None? ==> tree == old(tree) && Snapshot() == old(Snapshot())
      ensures trash == old(trash) && unlockedSections == old(unlockedSections) && showData == old(showData)
    {
      if path == [] {
        return;
      }
      var loc := FindParentAndIndex(tree, path);
      if loc.None? {
        return;
      }
      tree := MoveSectionTree(tree, path, newParent);
      RenameBlocksPrefix(Join(path, "/"), NewPrefix(newParent, path));
    }

    /** `rename_item` once the dialog has answered `name` (`None` when it was
        cancelled): an answer that is empty once cleaned, or a path that does
        not resolve, changes nothing; otherwise the node takes the cleaned name
        and its keys are renamed onto the new prefix. */
    method RenameSection(path: seq<string>, name: Option<string>)
      requires Valid()
      requires name.Some? && CleanName(name.value) != "" && FindNode(tree, path).Some? ==>
        RenamePre(blocksData, Join(path, "/"), Join(path[..|path| - 1] + [CleanName(name.value)], "/"))
      modifies this, index
      ensures Valid()
      ensures old(name.Some? && CleanName(name.value) != "" && FindNode(tree, path).Some?) ==>
        var clean := CleanName(name.value);
        var loc := old(FindParentAndIndex(tree, path)).value;
        && tree == RenameNode(old(tree), path, clean)
        && ChildrenAt(tree, path[..|path| - 1]) == Some(loc.siblings[loc.index := loc.node.(name := clean)])
        && blocksData == Recategorize(Renamed(old(blocksData), Join(path, "/"), Join(path[..|path| - 1] + [clean], "/")))
        && LiveIds(blocksData) == old(LiveIds(blocksData))
        && (forall id :: id !in LiveIds(blocksData) ==>
              Agree(idToRef, old(idToRef), id) && Agree(index.data, old(index.data), id))
      ensures !old(name.Some? && CleanName(name.value) != "" && FindNode(tree, path).Some?) ==>
        tree == old(tree) && Snapshot() == old(Snapshot())
      ensures trash == old(trash) && unlockedSections == old(unlockedSections) && showData == old(showData)
    {
      if name.None? || name.value == "" {
        return;
      }
      var clean := CleanName(name.value);
      if clean == "" {
        return;
      }
      var loc := FindParentAndIndex(tree, path);
      if loc.None? {
        return;
      }
      RenameNodeAt(tree, path, clean);
      tree := RenameNode(tree, path, clean);
      var oldPrefix := Join(path, "/");
      var newPrefix := Join(path[..|path| - 1] + [clean], "/");
      RenameBlocksPrefix(oldPrefix, newPrefix);
    }

    /** `_reorder_section(path, direction)`: the node moves `direction` places
        among its siblings; a step past either end, or a path that does not
        resolve, changes nothing. */
    method ReorderSection(path: seq<string>, direction: int)
      modifies this
      ensures tree == SectionTree.ReorderSection(old(tree), path, direction)
      ensures old(FindNode(tree, path)).Some? ==>
        var loc := old(FindParentAndIndex(tree, path)).value;
        0 <= loc.index + direction < |loc.siblings| ==>
          ChildrenAt(tree, path[..|path| - 1]) == Some(Reorder(loc.siblings, loc.index, loc.index + direction))
      ensures blocksData == old(blocksData) && trash == old(trash) && idToRef == old(idToRef)
      ensures unlockedSections == old(unlockedSections) && showData == old(showData)
    {
      var t0 := tree;
      var t1 := SectionTree.ReorderSection(t0, path, direction);
      if FindNode(t0, path).Some? {
        var loc := FindParentAndIndex(t0, path).value;
        if 0 <= loc.index + direction < |loc.siblings| {
          ReorderSectionAt(t0, path, direction);
        }
      }
      tree := t1;
    }

    /** `_verify_section_password(path)` with the typed password `pwd`
        (`None` when the dialog was cancelled): a path without a lock passes;
        otherwise the password must match the lock's verifier, and a match
        unlocks the section for this session. */
    method VerifySectionPassword(path: seq<string>, pwd: Option<string>) returns (ok: bool)
      modifies this
      ensures ok <==> (!IsLockedAt(tree, path) ||
        (pwd.Some? && PasswordMatches(fernet.prims, FindNode(tree, path).value.lock.value, pwd.value)))
      ensures unlockedSections ==
        if IsLockedAt(tree, path) && ok then old(unlockedSections) + {Join(path, "/")} else old(unlockedSections)
      ensures tree == old(tree) && blocksData == old(blocksData) && trash == old(trash)
      ensures idToRef == old(idToRef) && showData == old(showData)
    {
      var n := FindNode(tree, path);
      if n.None? || n.value.lock.None? {
        return true;
      }
      if pwd.None? {
        return false;
      }
      var lock := n.value.lock.value;
      var hashed := HashForAuth(fernet.prims, pwd.value, lock.salt, lock.kdf == "argon2id", KdfDefaults);
      if hashed == lock.verifier {
        unlockedSections := unlockedSections + {Join(path, "/")};
        return true;
      }
      return false;
    }

    /** `clear_section_password(path)` with the typed password `pwd`: only a
        locked section whose password matches loses its lock, and it leaves
        the set of sections unlocked in this session. */
    method ClearSectionPassword(path: seq<string>, pwd: Option<string>)
      modifies this
      ensures var ok := IsLockedAt(old(tree), path) && pwd.Some? &&
          PasswordMatches(fernet.prims, FindNode(old(tree), path).value.lock.value, pwd.value);
        && (ok ==>
              && tree == SetLock(old(tree), path, None)
              && FindNode(tree, path) == Some(FindNode(old(tree), path).value.(lock := None))
              && !IsLockedAt(tree, path)
              && unlockedSections == old(unlockedSections) - {Join(path, "/")})
        && (!ok ==> tree == old(tree) && unlockedSections == old(unlockedSections))
      ensures blocksData == old(blocksData) && trash == old(trash) && idToRef == old(idToRef) && showData == old(showData)
    {
      if path == [] {
        return;
      }
      var n := FindNode(tree, path);
      if n.None? || n.value.lock.None? {
        return;
      }
      var ok := VerifySectionPassword(path, pwd);
      if !ok {
        return;
      }
      SetLockAt(tree, path, None);
      tree := SetLock(tree, path, None);
      unlockedSections := unlockedSections - {Join(path, "/")};
    }

    /** `can_show_block_data(block)`: data is shown when the global switch is
        on and every locked section on the way to the block's key has been
        unlocked in this session. */
    function CanShowBlockData(block: Block): (r: bool)
      reads this
      ensures var parts := NonEmptyParts(if block.id in idToRef then idToRef[block.id] else "");
        r <==> showData && forall k :: 1 <= k <= |parts| && IsLockedAt(tree, parts[..k]) ==>
          Join(parts[..k], "/") in unlockedSections
    {
      if !showData then false
      else
        var key := if block.id in idToRef then idToRef[block.id] else "";
        var parts := NonEmptyParts(key);
        var locked := LockedPrefixes(tree, parts);
        AllLockedIn(tree, parts, unlockedSections);
        if locked == [] then true
        else forall p :: p in locked ==> p in unlockedSections
    }
  }
}
