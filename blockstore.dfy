/** The block map (`MainWindow.blocks_data`: section key -> list of blocks), the
    id index (`id_to_ref`: block id -> section key) and the trash list, with the
    transitions the vault methods perform on them, stated as functions, and
    the invariants those transitions keep. */
module BlockStore {
  import opened Wrappers
  import opened Text
  import opened Crypto
  import opened ValueCodec

  /** A password block; `fields` keeps the dict's order, and field values and
      notes are stored encrypted. */
  datatype Block = Block(id: string, title: string, category: string, fields: seq<(string, string)>, notes: string)

  /** A trash record `{id, from_key, block}` (the time stamp is not modelled). */
  datatype TrashEntry = TrashEntry(id: string, fromKey: string, block: Block)

  type BlockMap = map<string, seq<Block>>
  type Refs = map<string, string>

  /** `m.get(k, [])`. */
  function Get(m: BlockMap, k: string): seq<Block> {
    if k in m then m[k] else []
  }

  // ---------------------------------------------------------------- index text

  function FieldParts(f: Fernet, fields: seq<(string, string)>): (r: seq<string>)
    ensures |r| == 2 * |fields|
    ensures forall i :: 0 <= i < |fields| ==>
      r[2 * i] == fields[i].0 && r[2 * i + 1] == DecryptValue(f, Some(fields[i].1))
  {
    if fields == [] then []
    else [fields[0].0, DecryptValue(f, Some(fields[0].1))] + FieldParts(f, fields[1..])
  }

  /** The pieces `update_index_for_block` joins: title, category, each field's
      name and decrypted value, then the decrypted notes if they are not empty. */
  function IndexParts(f: Fernet, b: Block): (r: seq<string>)
    ensures |r| == 2 + 2 * |b.fields| + (if DecryptValue(f, Some(b.notes)) == "" then 0 else 1)
    ensures r[0] == b.title && r[1] == b.category
    ensures forall i :: 0 <= i < |b.fields| ==>
      r[2 + 2 * i] == b.fields[i].0 && r[3 + 2 * i] == DecryptValue(f, Some(b.fields[i].1))
    ensures DecryptValue(f, Some(b.notes)) != "" ==> r[|r| - 1] == DecryptValue(f, Some(b.notes))
  {
    var notes := DecryptValue(f, Some(b.notes));
    [b.title, b.category] + FieldParts(f, b.fields) + (if notes == "" then [] else [notes])
  }

  /** The searchable text of a block, the parts joined by newlines. */
  function IndexText(f: Fernet, b: Block): string {
    Join(IndexParts(f, b), "\n")
  }

  /** A search for any indexed piece (lower-cased, as `search` normalises the
      query) matches the block's text: title, category, field names, decrypted
      field values and decrypted notes are all findable. */
  lemma IndexFindsParts(f: Fernet, b: Block, i: nat)
    requires i < |IndexParts(f, b)|
    ensures Contains(Lower(IndexText(f, b)), Lower(IndexParts(f, b)[i]))
  {
    JoinContainsPart(IndexParts(f, b), "\n", i);
  }

  // ---------------------------------------------------------------- invariants

  /** No id appears twice in one section list. */
  ghost predicate DistinctIds(m: BlockMap) {
    forall k :: k in m ==> IdsDistinct(m[k])
  }

  /** `id_to_ref` points every live block at the key that holds it (entries of
      blocks that went to the trash may be stale). */
  ghost predicate RefsCurrent(m: BlockMap, refs: Refs) {
    forall k, i :: k in m && 0 <= i < |m[k]| ==> m[k][i].id in refs && refs[m[k][i].id] == k
  }

  ghost predicate Consistent(m: BlockMap, refs: Refs) {
    DistinctIds(m) && RefsCurrent(m, refs)
  }

  /** Every live block is indexed under its id with its current text. */
  ghost predicate IndexCurrent(f: Fernet, m: BlockMap, text: map<string, string>) {
    forall k, i :: k in m && 0 <= i < |m[k]| ==> m[k][i].id in text && text[m[k][i].id] == IndexText(f, m[k][i])
  }

  /** The ids of all live blocks. */
  ghost function LiveIds(m: BlockMap): set<string> {
    set k, i | k in m && 0 <= i < |m[k]| :: m[k][i].id
  }

  /** Under `Consistent`, a live id is held once, at the key its ref names. */
  lemma LiveAtRef(m: BlockMap, refs: Refs, k: string, i: nat)
    requires Consistent(m, refs) && k in m && i < |m[k]|
    ensures refs[m[k][i].id] == k
    ensures forall k', j :: k' in m && 0 <= j < |m[k']| && m[k'][j].id == m[k][i].id ==> k' == k && j == i
  {
  }

  // ---------------------------------------------------------------- filtering

  /** `[b for b in bs if b is not block]`, with a block's identity being its id. */
  function Without(bs: seq<Block>, id: string): (r: seq<Block>)
    ensures forall b :: b in r <==> b in bs && b.id != id
    ensures |r| <= |bs|
  {
    if bs == [] then []
    else if bs[0].id == id then Without(bs[1..], id)
    else [bs[0]] + Without(bs[1..], id)
  }

  /** No id appears twice in the list. */
  ghost predicate IdsDistinct(bs: seq<Block>) {
    forall i, j :: 0 <= i < j < |bs| ==> bs[i].id != bs[j].id
  }

  /** Filtering keeps the distinctness of the remaining ids. */
  lemma {:induction false} WithoutDistinct(bs: seq<Block>, id: string)
    requires IdsDistinct(bs)
    ensures IdsDistinct(Without(bs, id))
  {
    if bs != [] {
      assert IdsDistinct(bs[1..]);
      WithoutDistinct(bs[1..], id);
      if bs[0].id != id {
        var rest := Without(bs[1..], id);
        var r := [bs[0]] + rest;
        forall a, b | 0 <= a < b < |r| ensures r[a].id != r[b].id {
          if a == 0 {
            assert r[b] == rest[b - 1];
            assert r[b] in bs[1..];
            var j :| 0 <= j < |bs[1..]| && bs[1..][j] == r[b];
            assert bs[j + 1] == r[b];
          } else {
            assert r[a] == rest[a - 1] && r[b] == rest[b - 1];
          }
        }
      }
    }
  }

  /** An id that is not in the list filters nothing away. */
  lemma {:induction false} WithoutAbsent(bs: seq<Block>, id: string)
    requires forall i :: 0 <= i < |bs| ==> bs[i].id != id
    ensures Without(bs, id) == bs
  {
    if bs != [] {
      WithoutAbsent(bs[1..], id);
    }
  }

  /** The list at `key` without the block, and the key dropped once its list is
      empty (`if not self.blocks_data[key]: del self.blocks_data[key]`). */
  function RemoveFromKey(m: BlockMap, key: string, id: string): (r: BlockMap)
    requires key in m
    ensures key in r <==> Without(m[key], id) != []
    ensures key in r ==> r[key] == Without(m[key], id)
    ensures forall k :: k != key ==> (k in r <==> k in m) && (k in m ==> r[k] == m[k])
  {
    var rest := Without(m[key], id);
    if rest == [] then m - {key} else m[key := rest]
  }

  // ---------------------------------------------------------------- moving a block

  /** `block["category"] = target.split("/")[-1] if target else block.get("category", "")`. */
  function NewCategory(target: string, b: Block): string {
    if target != "" then LastSegment(target) else b.category
  }

  /** `move_block` as written: append the block under `target`, then filter it out
      of the list at the old key, so that for `target == old_key` it goes from both. */
  function MoveAsWritten(m: BlockMap, block: Block, oldKey: string, target: string): BlockMap
    requires oldKey in m
  {
    var moved := block.(category := NewCategory(target, block));
    RemoveFromKey(m[target := Get(m, target) + [moved]], oldKey, block.id)
  }

  /** Moving a block to the key it is already under deletes it. */
  lemma MoveToOwnKeyLoses(m: BlockMap, block: Block, key: string)
    requires key in m
    ensures forall b :: b in Get(MoveAsWritten(m, block, key, key), key) ==> b.id != block.id
    ensures forall k :: k != key ==> Get(MoveAsWritten(m, block, key, key), k) == Get(m, k)
  {
  }

  /** `move_block` as intended (and as `on_blocks_dropped_to_section` guards it):
      moving to the current key changes nothing. */
  function MoveBlockSpec(m: BlockMap, block: Block, oldKey: string, target: string): BlockMap
    requires oldKey in m
  {
    if target == oldKey then m else MoveAsWritten(m, block, oldKey, target)
  }

  /** A live block moved to another key: it leaves the old list (which is
      deleted when that empties it), is the new last element under `target`
      and appears nowhere else; every other list is as it was, and the
      invariants hold with its ref pointing at `target`. */
  lemma MovePlaces(m: BlockMap, refs: Refs, block: Block, oldKey: string, target: string)
    requires Consistent(m, refs) && oldKey in m && block in m[oldKey] && target != oldKey
    ensures var r := MoveBlockSpec(m, block, oldKey, target);
      var moved := block.(category := NewCategory(target, block));
      && Get(r, target) == Get(m, target) + [moved]
      && (forall b :: b in Get(r, oldKey) <==> b in m[oldKey] && b.id != block.id)
      && (oldKey in r <==> |m[oldKey]| > 1)
      && (forall k :: k != oldKey && k != target ==> (k in r <==> k in m) && Get(r, k) == Get(m, k))
      && (forall k, i :: k in r && 0 <= i < |r[k]| && r[k][i].id == block.id ==> k == target && i == |r[k]| - 1)
      && Consistent(r, refs[block.id := target])
  {
    MoveShape(m, refs, block, oldKey, target);
    MoveOnlyAtTarget(m, refs, block, oldKey, target);
    MoveConsistent(m, refs, block, oldKey, target);
  }

  /** The lists a move changes, and how. */
  lemma MoveShape(m: BlockMap, refs: Refs, block: Block, oldKey: string, target: string)
    requires Consistent(m, refs) && oldKey in m && block in m[oldKey] && target != oldKey
    ensures var r := MoveBlockSpec(m, block, oldKey, target);
      && Get(r, target) == Get(m, target) + [block.(category := NewCategory(target, block))]
      && (forall b :: b in Get(r, oldKey) <==> b in m[oldKey] && b.id != block.id)
      && (oldKey in r <==> |m[oldKey]| > 1)
      && (forall k :: k != oldKey && k != target ==> (k in r <==> k in m) && Get(r, k) == Get(m, k))
  {
    var j :| 0 <= j < |m[oldKey]| && m[oldKey][j] == block;
    assert |m[oldKey]| > 1 <==> Without(m[oldKey], block.id) != [] by {
      if |m[oldKey]| > 1 {
        var other := if j == 0 then m[oldKey][1] else m[oldKey][0];
        assert IdsDistinct(m[oldKey]);
        assert other in Without(m[oldKey], block.id);
      } else {
        assert m[oldKey] == [block];
      }
    }
  }

  /** The moved block's id occurs once, at the end of the target's list. */
  lemma MoveOnlyAtTarget(m: BlockMap, refs: Refs, block: Block, oldKey: string, target: string)
    requires Consistent(m, refs) && oldKey in m && block in m[oldKey] && target != oldKey
    ensures var r := MoveBlockSpec(m, block, oldKey, target);
      forall k, i :: k in r && 0 <= i < |r[k]| && r[k][i].id == block.id ==> k == target && i == |r[k]| - 1
  {
    var r: BlockMap := MoveBlockSpec(m, block, oldKey, target);
    var j :| 0 <= j < |m[oldKey]| && m[oldKey][j] == block;
    LiveAtRef(m, refs, oldKey, j);
    MoveShape(m, refs, block, oldKey, target);
    forall k: string, i: int | k in r && 0 <= i < |r[k]| && r[k][i].id == block.id
      ensures k == target && i == |r[k]| - 1
    {
    }
  }

  /** The invariants hold after a move, with the moved block's ref at the target. */
  lemma MoveConsistent(m: BlockMap, refs: Refs, block: Block, oldKey: string, target: string)
    requires Consistent(m, refs) && oldKey in m && block in m[oldKey] && target != oldKey
    ensures Consistent(MoveBlockSpec(m, block, oldKey, target), refs[block.id := target])
  {
    MoveDistinct(m, refs, block, oldKey, target);
    MoveRefs(m, refs, block, oldKey, target);
  }

  lemma MoveDistinct(m: BlockMap, refs: Refs, block: Block, oldKey: string, target: string)
    requires Consistent(m, refs) && oldKey in m && block in m[oldKey] && target != oldKey
    ensures DistinctIds(MoveBlockSpec(m, block, oldKey, target))
  {
    var r: BlockMap := MoveBlockSpec(m, block, oldKey, target);
    var j :| 0 <= j < |m[oldKey]| && m[oldKey][j] == block;
    LiveAtRef(m, refs, oldKey, j);
    MoveShape(m, refs, block, oldKey, target);
    assert forall i :: 0 <= i < |Get(m, target)| ==> Get(m, target)[i].id != block.id;
    WithoutDistinct(m[oldKey], block.id);
    forall k | k in r ensures IdsDistinct(r[k]) {
      if k != target && k != oldKey {
        assert r[k] == m[k];
      }
    }
  }

  lemma MoveRefs(m: BlockMap, refs: Refs, block: Block, oldKey: string, target: string)
    requires Consistent(m, refs) && oldKey in m && block in m[oldKey] && target != oldKey
    ensures RefsCurrent(MoveBlockSpec(m, block, oldKey, target), refs[block.id := target])
  {
    var r: BlockMap := MoveBlockSpec(m, block, oldKey, target);
    var refs' := refs[block.id := target];
    MoveShape(m, refs, block, oldKey, target);
    forall k, i | k in r && 0 <= i < |r[k]|
      ensures r[k][i].id in refs' && refs'[r[k][i].id] == k
    {
      if k == oldKey {
        assert r[k][i] in Get(r, oldKey);
      } else if k == target && i == |r[k]| - 1 {
      } else if k == target {
        assert r[k][i] == m[k][i];
      } else {
        assert r[k][i] == m[k][i];
      }
    }
  }

  // ---------------------------------------------------------------- trash

  /** Every list of `r` only holds blocks that the same key holds in `m`. */
  ghost predicate Within(r: BlockMap, m: BlockMap) {
    forall k, b :: k in r && b in r[k] ==> k in m && b in m[k]
  }

  /** Blocks taken from a consistent, indexed map keep their refs and index entries. */
  lemma WithinKeeps(f: Fernet, m: BlockMap, r: BlockMap, refs: Refs, text: map<string, string>, gone: set<string>)
    requires Within(r, m) && RefsCurrent(m, refs) && IndexCurrent(f, m, text) && gone !! LiveIds(r)
    ensures RefsCurrent(r, refs) && IndexCurrent(f, r, text - gone)
    ensures LiveIds(r) <= LiveIds(m)
  {
    forall k, i | k in r && 0 <= i < |r[k]|
      ensures r[k][i].id in refs && refs[r[k][i].id] == k
      ensures r[k][i].id in text && text[r[k][i].id] == IndexText(f, r[k][i])
      ensures r[k][i].id in LiveIds(m)
    {
      assert r[k][i] in r[k];
      var i' :| 0 <= i' < |m[k]| && m[k][i'] == r[k][i];
    }
    forall k, i | k in r && 0 <= i < |r[k]| ensures r[k][i].id !in gone {
    }
  }

  /** `delete_block_soft` on a live block: nothing of it stays live. */
  lemma DeleteSoftGone(m: BlockMap, refs: Refs, block: Block, key: string)
    requires Consistent(m, refs) && key in m && block in m[key]
    ensures block.id !in LiveIds(RemoveFromKey(m, key, block.id))
  {
    var r: BlockMap := RemoveFromKey(m, key, block.id);
    var j :| 0 <= j < |m[key]| && m[key][j] == block;
    LiveAtRef(m, refs, key, j);
    forall k: string, i: int | k in r && 0 <= i < |r[k]| ensures r[k][i].id != block.id {
      if k == key {
        assert r[k][i] in Without(m[key], block.id);
      } else {
        assert r[k][i] == m[k][i];
      }
    }
  }

  /** Every other block stays under its key. */
  lemma DeleteSoftKeeps(m: BlockMap, block: Block, key: string)
    requires key in m
    ensures Within(RemoveFromKey(m, key, block.id), m)
    ensures forall k, b :: b in Get(m, k) && b.id != block.id ==> b in Get(RemoveFromKey(m, key, block.id), k)
  {
  }

  /** The invariants survive, with the block's ref left stale and its index entry gone. */
  lemma DeleteSoftConsistent(f: Fernet, m: BlockMap, refs: Refs, text: map<string, string>, block: Block, key: string)
    requires Consistent(m, refs) && IndexCurrent(f, m, text) && key in m && block in m[key]
    ensures var r := RemoveFromKey(m, key, block.id);
      && Consistent(r, refs)
      && IndexCurrent(f, r, text - {block.id})
      && LiveIds(r) == LiveIds(m) - {block.id}
  {
    var r := RemoveFromKey(m, key, block.id);
    DeleteSoftGone(m, refs, block, key);
    DeleteSoftKeeps(m, block, key);
    WithinKeeps(f, m, r, refs, text, {block.id});
    WithoutDistinct(m[key], block.id);
    forall id | id in LiveIds(m) - {block.id} ensures id in LiveIds(r) {
      var k, i :| k in m && 0 <= i < |m[k]| && m[k][i].id == id;
      assert m[k][i] in Get(r, k);
      var i' :| 0 <= i' < |r[k]| && r[k][i'] == m[k][i];
    }
  }

  /** A trash record for every block of a list, in list order (`delete_item`'s inner loop). */
  function EntriesOf(k: string, bs: seq<Block>): (r: seq<TrashEntry>)
    ensures |r| == |bs|
    ensures forall i :: 0 <= i < |bs| ==> r[i] == TrashEntry(bs[i].id, k, bs[i])
  {
    seq(|bs|, i requires 0 <= i < |bs| => TrashEntry(bs[i].id, k, bs[i]))
  }

  /** The section keys `delete_item` sweeps: the section and everything below it. */
  ghost function Affected(m: BlockMap, prefix: string): set<string> {
    set k | k in m && Under(k, prefix)
  }

  /** What is left of the block map once those keys are deleted. */
  ghost function Pruned(m: BlockMap, prefix: string): (r: BlockMap)
    ensures forall k :: k in r <==> k in m && !Under(k, prefix)
    ensures forall k :: k in r ==> r[k] == m[k]
  {
    map k | k in m && !Under(k, prefix) :: m[k]
  }

  /** The trash records made from the lists at keys `ks`, as a bag: dict order is not modelled. */
  ghost function Trashed(m: BlockMap, ks: set<string>): multiset<TrashEntry>
    requires ks <= m.Keys
    decreases |ks|
  {
    if ks == {} then multiset{}
    else
      var k :| k in ks;
      Trashed(m, ks - {k}) + multiset(EntriesOf(k, m[k]))
  }

  /** The records can be collected by taking the keys in any order. */
  lemma {:induction false} TrashedTake(m: BlockMap, ks: set<string>, k: string)
    requires ks <= m.Keys && k in ks
    ensures Trashed(m, ks) == Trashed(m, ks - {k}) + multiset(EntriesOf(k, m[k]))
    decreases |ks|
  {
    var j :| j in ks && Trashed(m, ks) == Trashed(m, ks - {j}) + multiset(EntriesOf(j, m[j]));
    if j != k {
      TrashedTake(m, ks - {j}, k);
      TrashedTake(m, ks - {k}, j);
      assert ks - {j} - {k} == ks - {k} - {j};
    }
  }

  /** A record is in the bag exactly when it names a block of one of the keys, under that key. */
  lemma {:induction false} TrashedHas(m: BlockMap, ks: set<string>, e: TrashEntry)
    requires ks <= m.Keys
    ensures e in Trashed(m, ks) <==> e.fromKey in ks && e.block in m[e.fromKey] && e.id == e.block.id
    decreases |ks|
  {
    if ks != {} {
      var k :| k in ks && Trashed(m, ks) == Trashed(m, ks - {k}) + multiset(EntriesOf(k, m[k]));
      TrashedHas(m, ks - {k}, e);
      var es := EntriesOf(k, m[k]);
      if e.fromKey == k && e.block in m[k] && e.id == e.block.id {
        var i :| 0 <= i < |m[k]| && m[k][i] == e.block;
        assert es[i] == e;
      }
      if e in es {
        var i :| 0 <= i < |es| && es[i] == e;
      }
    }
  }

  /** The bag holds one record per block of the swept keys. */
  lemma {:induction false} TrashedSize(m: BlockMap, ks: set<string>)
    requires ks <= m.Keys
    ensures |Trashed(m, ks)| == Blocks(m, ks)
    decreases |ks|
  {
    if ks != {} {
      var k :| k in ks;
      TrashedTake(m, ks, k);
      TrashedSize(m, ks - {k});
      BlocksTake(m, ks, k);
      assert |multiset(EntriesOf(k, m[k]))| == |m[k]|;
    }
  }

  /** The number of blocks at keys `ks`. */
  ghost function Blocks(m: BlockMap, ks: set<string>): nat
    requires ks <= m.Keys
    decreases |ks|
  {
    if ks == {} then 0
    else
      var k :| k in ks;
      Blocks(m, ks - {k}) + |m[k]|
  }

  lemma {:induction false} BlocksTake(m: BlockMap, ks: set<string>, k: string)
    requires ks <= m.Keys && k in ks
    ensures Blocks(m, ks) == Blocks(m, ks - {k}) + |m[k]|
    decreases |ks|
  {
    var j :| j in ks && Blocks(m, ks) == Blocks(m, ks - {j}) + |m[j]|;
    if j != k {
      BlocksTake(m, ks - {j}, k);
      BlocksTake(m, ks - {k}, j);
      assert ks - {j} - {k} == ks - {k} - {j};
    }
  }

  /** Deleting a section keeps the invariants for the blocks that stay, and
      takes every swept id out of the live set. */
  lemma PrunedConsistent(f: Fernet, m: BlockMap, refs: Refs, text: map<string, string>, prefix: string)
    requires Consistent(m, refs) && IndexCurrent(f, m, text)
    ensures var r := Pruned(m, prefix);
      && Consistent(r, refs)
      && IndexCurrent(f, r, text - (LiveIds(m) - LiveIds(r)))
      && (forall id :: id in LiveIds(m) ==> (id !in LiveIds(r) <==> refs[id] in Affected(m, prefix)))
  {
    var r := Pruned(m, prefix);
    forall id | id in LiveIds(m) ensures id !in LiveIds(r) <==> refs[id] in Affected(m, prefix) {
      var k, i :| k in m && 0 <= i < |m[k]| && m[k][i].id == id;
      LiveAtRef(m, refs, k, i);
      if id in LiveIds(r) {
        var k', i' :| k' in r && 0 <= i' < |r[k']| && r[k'][i'].id == id;
        LiveAtRef(m, refs, k', i');
      } else {
        assert k !in r;
      }
    }
    forall k, i | k in r && 0 <= i < |r[k]|
      ensures r[k][i].id !in LiveIds(m) - LiveIds(r)
    {
    }
    WithinKeeps(f, m, r, refs, text, LiveIds(m) - LiveIds(r));
  }

  /** The ids of one list. */
  ghost function IdsOf(bs: seq<Block>): set<string> {
    set i | 0 <= i < |bs| :: bs[i].id
  }

  lemma IdsOfSnoc(bs: seq<Block>, j: nat)
    requires j < |bs|
    ensures IdsOf(bs[..j + 1]) == IdsOf(bs[..j]) + {bs[j].id}
  {
    assert forall i :: 0 <= i < j ==> bs[..j + 1][i] == bs[..j][i];
    assert bs[..j + 1][j] == bs[j];
  }

  lemma EntriesOfSnoc(k: string, bs: seq<Block>, j: nat)
    requires j < |bs|
    ensures EntriesOf(k, bs[..j + 1]) == EntriesOf(k, bs[..j]) + [TrashEntry(bs[j].id, k, bs[j])]
  {
  }

  lemma MinusMinus<V>(m: map<string, V>, a: set<string>, b: set<string>)
    ensures m - a - b == m - (a + b)
  {
  }

  lemma AppendAssoc<T>(a: seq<T>, b: seq<T>, c: seq<T>)
    ensures (a + b) + c == a + (b + c)
  {
  }

  lemma ShiftOne(todo: set<string>, done: set<string>, all: set<string>, k: string)
    requires todo + done == all && todo !! done && k in todo
    ensures (todo - {k}) + (done + {k}) == all && (todo - {k}) !! (done + {k})
  {
  }

  /** The ids held at keys `ks`. */
  ghost function IdsAt(m: BlockMap, ks: set<string>): set<string> {
    set k, i | k in ks && k in m && 0 <= i < |m[k]| :: m[k][i].id
  }

  lemma IdsAtTake(m: BlockMap, ks: set<string>, k: string)
    requires k in m && k !in ks
    ensures IdsAt(m, ks + {k}) == IdsAt(m, ks) + IdsOf(m[k])
  {
    forall id | id in IdsAt(m, ks + {k}) ensures id in IdsAt(m, ks) + IdsOf(m[k]) {
      var k', i :| k' in ks + {k} && k' in m && 0 <= i < |m[k']| && m[k'][i].id == id;
      if k' == k {
        assert id in IdsOf(m[k]);
      }
    }
    forall id | id in IdsOf(m[k]) ensures id in IdsAt(m, ks + {k}) {
      var i :| 0 <= i < |m[k]| && m[k][i].id == id;
    }
  }

  /** One more key swept: the bag, the remaining map and the index texts
      each take that key's share. */
  lemma SweepAdvance(m: BlockMap, done: set<string>, k: string, text: map<string, string>)
    requires done <= m.Keys && k in m && k !in done
    ensures Trashed(m, done + {k}) == Trashed(m, done) + multiset(EntriesOf(k, m[k]))
    ensures m - done - {k} == m - (done + {k})
    ensures text - IdsAt(m, done) - IdsOf(m[k]) == text - IdsAt(m, done + {k})
  {
    TrashedTake(m, done + {k}, k);
    assert done + {k} - {k} == done;
    IdsAtTake(m, done, k);
    MinusMinus(m, done, {k});
    MinusMinus(text, IdsAt(m, done), IdsOf(m[k]));
  }

  /** The ids a section delete drops from the search index are exactly the
      live ids it takes out of the block map. */
  lemma SweptIds(m: BlockMap, refs: Refs, prefix: string)
    requires Consistent(m, refs)
    ensures IdsAt(m, Affected(m, prefix)) == LiveIds(m) - LiveIds(Pruned(m, prefix))
  {
    var r := Pruned(m, prefix);
    var a := Affected(m, prefix);
    forall id | id in IdsAt(m, a) ensures id in LiveIds(m) - LiveIds(r) {
      var k, i :| k in a && k in m && 0 <= i < |m[k]| && m[k][i].id == id;
      LiveAtRef(m, refs, k, i);
      forall k', i' | k' in r && 0 <= i' < |r[k']| ensures r[k'][i'].id != id {
        assert r[k'][i'] == m[k'][i'];
      }
    }
    forall k, i | k in m && 0 <= i < |m[k]| && !Under(k, prefix) ensures m[k][i].id in LiveIds(r) {
      assert k in r && r[k][i] == m[k][i];
    }
    forall id | id in LiveIds(m) - LiveIds(r) ensures id in IdsAt(m, a) {
      var k, i :| k in m && 0 <= i < |m[k]| && m[k][i].id == id;
    }
  }

  /** `self.blocks_data.setdefault(key, []).append(b)` (restoring from the trash). */
  function RestoreMap(m: BlockMap, e: TrashEntry): (r: BlockMap)
    ensures Get(r, e.fromKey) == Get(m, e.fromKey) + [e.block]
    ensures forall k :: k != e.fromKey ==> (k in r <==> k in m) && Get(r, k) == Get(m, k)
  {
    m[e.fromKey := Get(m, e.fromKey) + [e.block]]
  }

  /** Restoring adds exactly the restored id to the live set. */
  lemma RestoreLive(m: BlockMap, e: TrashEntry)
    ensures LiveIds(RestoreMap(m, e)) == LiveIds(m) + {e.block.id}
  {
    var r: BlockMap := RestoreMap(m, e);
    var k0 := e.fromKey;
    assert r[k0][|r[k0]| - 1] == e.block;
    forall id | id in LiveIds(m) ensures id in LiveIds(r) {
      var k, i :| k in m && 0 <= i < |m[k]| && m[k][i].id == id;
      assert r[k][i] == m[k][i];
    }
    forall id | id in LiveIds(r) ensures id in LiveIds(m) + {e.block.id} {
      var k, i :| k in r && 0 <= i < |r[k]| && r[k][i].id == id;
      if k != k0 || i < |Get(m, k0)| {
        assert r[k][i] == m[k][i];
      }
    }
  }

  /** Restoring a block whose id is not live keeps the invariants, with the ref
      and the index entry pointing at the restored block. */
  lemma RestoreConsistent(f: Fernet, m: BlockMap, refs: Refs, text: map<string, string>, e: TrashEntry)
    requires Consistent(m, refs) && IndexCurrent(f, m, text) && e.block.id !in LiveIds(m)
    ensures var r := RestoreMap(m, e);
      && Consistent(r, refs[e.block.id := e.fromKey])
      && IndexCurrent(f, r, text[e.block.id := IndexText(f, e.block)])
  {
    var r: BlockMap := RestoreMap(m, e);
    var k0 := e.fromKey;
    forall i | 0 <= i < |Get(m, k0)| ensures Get(m, k0)[i].id != e.block.id {
      assert Get(m, k0)[i].id in LiveIds(m);
    }
    forall k: string, i: int | k in r && 0 <= i < |r[k]| && !(k == k0 && i == |Get(m, k0)|)
      ensures k in m && i < |m[k]| && r[k][i] == m[k][i]
    {
    }
  }

  /** `list.remove(e)`: drops the first element equal to `e`. */
  function RemoveFirst(t: seq<TrashEntry>, e: TrashEntry): (r: seq<TrashEntry>)
    ensures e in t ==> multiset(r) == multiset(t) - multiset{e}
    ensures e !in t ==> r == t
  {
    if t == [] then []
    else if t[0] == e then
      assert t == [t[0]] + t[1..];
      t[1..]
    else
      assert t == [t[0]] + t[1..];
      [t[0]] + RemoveFirst(t[1..], e)
  }

  /** When no earlier record equals the chosen one, `remove` deletes exactly that position. */
  lemma {:induction false} RemoveFirstAt(t: seq<TrashEntry>, i: nat)
    requires i < |t| && forall j :: 0 <= j < i ==> t[j] != t[i]
    ensures RemoveFirst(t, t[i]) == t[..i] + t[i + 1..]
  {
    if i == 0 {
      assert RemoveFirst(t, t[0]) == t[1..];
    } else {
      var u := t[1..];
      assert u[i - 1] == t[i];
      forall j | 0 <= j < i - 1 ensures u[j] != u[i - 1] {
        assert u[j] == t[j + 1];
      }
      RemoveFirstAt(u, i - 1);
      RemoveFirstCons(t, t[i]);
      ConsSplice(t, i);
    }
  }

  lemma RemoveFirstCons(t: seq<TrashEntry>, e: TrashEntry)
    requires t != [] && t[0] != e
    ensures RemoveFirst(t, e) == [t[0]] + RemoveFirst(t[1..], e)
  {
  }

  lemma ConsSplice<T>(t: seq<T>, i: nat)
    requires 0 < i < |t|
    ensures [t[0]] + (t[1..][..i - 1] + t[1..][i..]) == t[..i] + t[i + 1..]
  {
  }

  // ---------------------------------------------------------------- renaming a prefix

  /** `new_prefix + ("/" + suffix if suffix else "")`, the suffix being what
      follows `from` in the key with one leading "/" dropped. */
  function RenameKey(k: string, from: string, to: string): string
    requires Under(k, from)
  {
    var suffix := k[|from|..];
    var rest := if suffix != "" && suffix[0] == '/' then suffix[1..] else suffix;
    to + (if rest != "" then "/" + rest else "")
  }

  /** The key a renamed key came from. */
  function Origin(key: string, from: string, to: string): string
    requires Under(key, to)
  {
    from + key[|to|..]
  }

  lemma OriginOfRename(k: string, from: string, to: string)
    requires Under(k, from) && k != from + "/"
    ensures Under(RenameKey(k, from, to), to)
    ensures Origin(RenameKey(k, from, to), from, to) == k
  {
    var nk := RenameKey(k, from, to);
    if k != from {
      assert k == from + "/" + k[|from| + 1..];
      assert nk == to + "/" + k[|from| + 1..];
      assert nk[..|to| + 1] == to + "/";
    }
  }

  lemma RenameOfOrigin(key: string, from: string, to: string)
    requires Under(key, to) && Origin(key, from, to) != from + "/"
    ensures Under(Origin(key, from, to), from)
    ensures RenameKey(Origin(key, from, to), from, to) == key
  {
    var o := Origin(key, from, to);
    if key != to {
      assert key == to + "/" + key[|to| + 1..];
      assert o == from + "/" + key[|to| + 1..];
      assert o[..|from| + 1] == from + "/";
      assert o[|from|..] == "/" + key[|to| + 1..];
    }
  }

  /** Renaming to the same prefix maps every key to itself. */
  lemma RenameKeySame(k: string, from: string)
    requires Under(k, from) && k != from + "/"
    ensures RenameKey(k, from, from) == k
  {
    OriginOfRename(k, from, from);
  }

  /** The keys `_rename_blocks_prefix` collects into `updates`. */
  ghost function Sources(m: BlockMap, from: string): set<string> {
    set k | k in m && Under(k, from)
  }

  /** One step of the `updates` loop as written: extend the list at the renamed key
      with the list at the original key, then delete the original key. */
  function ApplyUpdateAsWritten(m: BlockMap, k: string, nk: string): BlockMap
    requires k in m
  {
    m[nk := Get(m, nk) + m[k]] - {k}
  }

  /** With `nk == k` the step extends the list with itself and then deletes it. */
  lemma SelfUpdateLoses(m: BlockMap, k: string)
    requires k in m
    ensures ApplyUpdateAsWritten(m, k, k) == m - {k}
  {
  }

  /** The step as intended: a key renamed to itself stays as it is. */
  function ApplyUpdate(m: BlockMap, k: string, nk: string): BlockMap
    requires k in m
  {
    if nk == k then m else ApplyUpdateAsWritten(m, k, nk)
  }

  /** What the `updates` loop needs to be independent of dict order: no key
      "from/" (it would merge with "from"), and no renamed key that is itself
      one of the keys being renamed, unless nothing is renamed at all. */
  ghost predicate RenamePre(m: BlockMap, from: string, to: string) {
    && from + "/" !in m
    && (from == to || forall k :: k in m && Under(k, from) ==> !(RenameKey(k, from, to) in m && Under(RenameKey(k, from, to), from)))
  }

  /** A key is present after the sources in `done` have been moved. */
  ghost predicate InPartial(m: BlockMap, from: string, to: string, done: set<string>, key: string) {
    (key in m && key !in done) || (Under(key, to) && Origin(key, from, to) in done)
  }

  /** Its list: what stayed there, then the list moved onto it. */
  ghost function PartialGet(m: BlockMap, from: string, to: string, done: set<string>, key: string): seq<Block>
    requires done <= m.Keys
  {
    (if key in m && key !in done then m[key] else [])
      + (if Under(key, to) && Origin(key, from, to) in done then m[Origin(key, from, to)] else [])
  }

  ghost predicate IsPartial(bd: BlockMap, m: BlockMap, from: string, to: string, done: set<string>)
    requires done <= m.Keys
  {
    forall key :: (key in bd <==> InPartial(m, from, to, done, key)) && Get(bd, key) == PartialGet(m, from, to, done, key)
  }

  /** Before any step the map is the original one. */
  lemma PartialStart(m: BlockMap, from: string, to: string)
    ensures IsPartial(m, m, from, to, {})
  {
  }

  /** One intended step moves one more source to its renamed key. */
  lemma PartialStep(bd: BlockMap, m: BlockMap, from: string, to: string, done: set<string>, k: string)
    requires RenamePre(m, from, to) && from != to
    requires done <= Sources(m, from) && k in Sources(m, from) - done
    requires IsPartial(bd, m, from, to, done)
    ensures k in bd
    ensures IsPartial(ApplyUpdate(bd, k, RenameKey(k, from, to)), m, from, to, done + {k})
  {
    var nk := RenameKey(k, from, to);
    OriginOfRename(k, from, to);
    assert k in bd by {
      assert InPartial(m, from, to, done, k);
    }
    assert k != nk;
    assert Get(bd, k) == m[k] by {
      if Under(k, to) && Origin(k, from, to) in done {
        var o := Origin(k, from, to);
        RenameOfOrigin(k, from, to);
      }
    }
    forall key
      ensures (key in ApplyUpdate(bd, k, nk) <==> InPartial(m, from, to, done + {k}, key))
      ensures Get(ApplyUpdate(bd, k, nk), key) == PartialGet(m, from, to, done + {k}, key)
    {
      PartialStepAt(bd, m, from, to, done, k, key);
    }
  }

  /** `PartialStep` at one key. */
  lemma PartialStepAt(bd: BlockMap, m: BlockMap, from: string, to: string, done: set<string>, k: string, key: string)
    requires RenamePre(m, from, to) && from != to
    requires done <= Sources(m, from) && k in Sources(m, from) - done
    requires IsPartial(bd, m, from, to, done)
    requires k in bd && Get(bd, k) == m[k] && k != RenameKey(k, from, to)
    requires Under(RenameKey(k, from, to), to) && Origin(RenameKey(k, from, to), from, to) == k
    ensures (key in ApplyUpdate(bd, k, RenameKey(k, from, to)) <==> InPartial(m, from, to, done + {k}, key))
    ensures Get(ApplyUpdate(bd, k, RenameKey(k, from, to)), key) == PartialGet(m, from, to, done + {k}, key)
  {
    assert InPartial(m, from, to, done, key) <==> key in bd;
    assert Get(bd, key) == PartialGet(m, from, to, done, key);
    if key == k {
      PartialAtSource(bd, m, from, to, done, k, key);
    } else if key == RenameKey(k, from, to) {
      PartialAtTarget(bd, m, from, to, done, k, key);
    } else {
      PartialAtOther(bd, m, from, to, done, k, key);
    }
  }

  /** The moved source key itself. */
  lemma PartialAtSource(bd: BlockMap, m: BlockMap, from: string, to: string, done: set<string>, k: string, key: string)
    requires RenamePre(m, from, to) && from != to
    requires done <= Sources(m, from) && k in Sources(m, from) - done
    requires IsPartial(bd, m, from, to, done)
    requires k in bd && Get(bd, k) == m[k] && k != RenameKey(k, from, to)
    requires Under(RenameKey(k, from, to), to) && Origin(RenameKey(k, from, to), from, to) == k
    requires key == k
    ensures (key in ApplyUpdate(bd, k, RenameKey(k, from, to)) <==> InPartial(m, from, to, done + {k}, key))
    ensures Get(ApplyUpdate(bd, k, RenameKey(k, from, to)), key) == PartialGet(m, from, to, done + {k}, key)
  {
    if Under(key, to) && Origin(key, from, to) in done + {k} {
      RenameOfOrigin(key, from, to);
    }
  }

  /** The key the source is renamed to. */
  lemma PartialAtTarget(bd: BlockMap, m: BlockMap, from: string, to: string, done: set<string>, k: string, key: string)
    requires RenamePre(m, from, to) && from != to
    requires done <= Sources(m, from) && k in Sources(m, from) - done
    requires IsPartial(bd, m, from, to, done)
    requires k in bd && Get(bd, k) == m[k] && k != RenameKey(k, from, to)
    requires Under(RenameKey(k, from, to), to) && Origin(RenameKey(k, from, to), from, to) == k
    requires key == RenameKey(k, from, to)
    requires key in bd <==> InPartial(m, from, to, done, key)
    requires Get(bd, key) == PartialGet(m, from, to, done, key)
    ensures (key in ApplyUpdate(bd, k, RenameKey(k, from, to)) <==> InPartial(m, from, to, done + {k}, key))
    ensures Get(ApplyUpdate(bd, k, RenameKey(k, from, to)), key) == PartialGet(m, from, to, done + {k}, key)
  {
    assert !(key in m && Under(key, from));
    assert Get(ApplyUpdate(bd, k, key), key) == Get(bd, key) + m[k];
  }

  /** Any other key. */
  lemma PartialAtOther(bd: BlockMap, m: BlockMap, from: string, to: string, done: set<string>, k: string, key: string)
    requires RenamePre(m, from, to) && from != to
    requires done <= Sources(m, from) && k in Sources(m, from) - done
    requires IsPartial(bd, m, from, to, done)
    requires k in bd && Get(bd, k) == m[k] && k != RenameKey(k, from, to)
    requires Under(RenameKey(k, from, to), to) && Origin(RenameKey(k, from, to), from, to) == k
    requires key != k && key != RenameKey(k, from, to)
    requires key in bd <==> InPartial(m, from, to, done, key)
    requires Get(bd, key) == PartialGet(m, from, to, done, key)
    ensures (key in ApplyUpdate(bd, k, RenameKey(k, from, to)) <==> InPartial(m, from, to, done + {k}, key))
    ensures Get(ApplyUpdate(bd, k, RenameKey(k, from, to)), key) == PartialGet(m, from, to, done + {k}, key)
  {
    assert Get(ApplyUpdate(bd, k, RenameKey(k, from, to)), key) == Get(bd, key);
    if Under(key, to) && Origin(key, from, to) == k {
      RenameOfOrigin(key, from, to);
    }
  }

  /** The intended step is the identity when nothing is renamed. */
  lemma SameStep(m: BlockMap, from: string, k: string)
    requires from + "/" !in m && k in Sources(m, from)
    ensures ApplyUpdate(m, k, RenameKey(k, from, from)) == m
  {
    RenameKeySame(k, from);
  }

  /** The `updates` loop's invariant after the sources in `done` have moved. */
  ghost predicate RenameProgress(bd: BlockMap, m: BlockMap, from: string, to: string, done: set<string>)
    requires done <= m.Keys
  {
    if from != to then IsPartial(bd, m, from, to, done) else bd == m
  }

  lemma RenameProgressStep(bd: BlockMap, m: BlockMap, from: string, to: string, done: set<string>, k: string)
    requires RenamePre(m, from, to)
    requires done <= Sources(m, from) && k in Sources(m, from) - done
    requires RenameProgress(bd, m, from, to, done)
    ensures k in bd
    ensures RenameProgress(ApplyUpdate(bd, k, RenameKey(k, from, to)), m, from, to, done + {k})
  {
    if from != to {
      PartialStep(bd, m, from, to, done, k);
    } else {
      SameStep(m, from, k);
    }
  }

  lemma RenameProgressDone(bd: BlockMap, m: BlockMap, from: string, to: string)
    requires RenamePre(m, from, to)
    requires RenameProgress(bd, m, from, to, Sources(m, from))
    ensures bd == Renamed(m, from, to)
  {
    if from != to {
      PartialDone(bd, m, from, to);
    }
  }

  /** The renamed keys. */
  ghost function Targets(m: BlockMap, from: string, to: string): set<string> {
    set k | k in m && Under(k, from) :: RenameKey(k, from, to)
  }

  /** The block lists after every key under `from` has moved to its renamed key
      (categories not yet reset). */
  ghost function Renamed(m: BlockMap, from: string, to: string): BlockMap {
    if from == to then m
    else
      map key | key in m.Keys + Targets(m, from, to) && InPartial(m, from, to, Sources(m, from), key)
        :: PartialGet(m, from, to, Sources(m, from), key)
  }

  /** When every source has moved, the loop's map is `Renamed`. */
  lemma PartialDone(bd: BlockMap, m: BlockMap, from: string, to: string)
    requires from != to && RenamePre(m, from, to)
    requires IsPartial(bd, m, from, to, Sources(m, from))
    ensures bd == Renamed(m, from, to)
  {
    var r := Renamed(m, from, to);
    forall key | InPartial(m, from, to, Sources(m, from), key) ensures key in m.Keys + Targets(m, from, to) {
      if key !in m {
        RenameOfOrigin(key, from, to);
      }
    }
    assert bd.Keys == r.Keys;
    forall key | key in bd ensures bd[key] == r[key] {
      assert Get(bd, key) == bd[key];
    }
  }

  /** The rename moves each list under `from` onto the renamed key, after what
      was already there; keys outside `from` that no list moves onto are
      untouched, and the original keys are gone. */
  lemma RenamedShape(m: BlockMap, from: string, to: string)
    requires RenamePre(m, from, to) && from != to
    ensures forall k :: k in m && Under(k, from) ==>
      var nk := RenameKey(k, from, to);
      nk in Renamed(m, from, to)
      && Renamed(m, from, to)[nk] == (if nk in m && !Under(nk, from) then m[nk] else []) + m[k]
    ensures forall k :: k in m && Under(k, from) ==> k !in Renamed(m, from, to)
    ensures forall k :: k in m && !Under(k, from) && k !in Targets(m, from, to) ==>
      k in Renamed(m, from, to) && Renamed(m, from, to)[k] == m[k]
    ensures Renamed(m, from, to).Keys == (m.Keys - Sources(m, from)) + Targets(m, from, to)
  {
    var ren := Renamed(m, from, to);
    var src := Sources(m, from);
    forall k | k in m && Under(k, from)
      ensures RenameKey(k, from, to) in ren
      ensures ren[RenameKey(k, from, to)] == (if RenameKey(k, from, to) in m && !Under(RenameKey(k, from, to), from) then m[RenameKey(k, from, to)] else []) + m[k]
      ensures k !in ren
    {
      OriginOfRename(k, from, to);
      if Under(k, to) && Origin(k, from, to) in src {
        RenameOfOrigin(k, from, to);
      }
    }
    forall k | k in m && !Under(k, from) && k !in Targets(m, from, to)
      ensures k in ren && ren[k] == m[k]
    {
      if Under(k, to) && Origin(k, from, to) in src {
        RenameOfOrigin(k, from, to);
      }
    }
    forall key | key in ren ensures key in (m.Keys - src) + Targets(m, from, to) {
      if key in m && key !in src {
      } else {
        RenameOfOrigin(key, from, to);
      }
    }
    forall key | key in (m.Keys - src) + Targets(m, from, to) ensures key in ren {
      if key !in m.Keys - src {
        var k :| k in m && Under(k, from) && RenameKey(k, from, to) == key;
        OriginOfRename(k, from, to);
      }
    }
  }

  /** No block is lost: each block now sits at its renamed key, or where it was. */
  lemma RenamedKeepsBlocks(m: BlockMap, from: string, to: string, k: string, b: Block)
    requires RenamePre(m, from, to) && k in m && b in m[k]
    ensures var dest := if Under(k, from) then RenameKey(k, from, to) else k;
      dest in Renamed(m, from, to) && b in Renamed(m, from, to)[dest]
  {
    if from == to {
      if Under(k, from) { RenameKeySame(k, from); }
    } else {
      RenamedShape(m, from, to);
      if !Under(k, from) && k in Targets(m, from, to) {
        var s :| s in m && Under(s, from) && RenameKey(s, from, to) == k;
      }
    }
  }

  /** The final pass: `b["category"] = k.split("/")[-1] if k else b.get("category", "")`
      for every block of every key. */
  function Recat(k: string, bs: seq<Block>): (r: seq<Block>)
    ensures |r| == |bs|
    ensures forall i :: 0 <= i < |bs| ==> r[i] == bs[i].(category := NewCategory(k, bs[i]))
  {
    seq(|bs|, i requires 0 <= i < |bs| => bs[i].(category := NewCategory(k, bs[i])))
  }

  function Recategorize(m: BlockMap): (r: BlockMap)
    ensures r.Keys == m.Keys
    ensures forall k :: k in m ==> r[k] == Recat(k, m[k])
  {
    map k | k in m :: Recat(k, m[k])
  }

  /** After the final pass every block outside the root key carries the last
      segment of its key as category, and nothing else about it changed. */
  lemma RecategorizeNames(m: BlockMap)
    ensures forall k, i :: k in m && k != "" && 0 <= i < |m[k]| ==>
      Recategorize(m)[k][i].category == LastSegment(k)
    ensures forall k, i :: k in m && 0 <= i < |m[k]| ==>
      Recategorize(m)[k][i].(category := m[k][i].category) == m[k][i]
  {
  }

  /** No id is held at two positions of the map. */
  ghost predicate UniqueIds(m: BlockMap) {
    forall k1, i1, k2, i2 ::
      (k1 in m && k2 in m && 0 <= i1 < |m[k1]| && 0 <= i2 < |m[k2]| && m[k1][i1].id == m[k2][i2].id)
        ==> k1 == k2 && i1 == i2
  }

  lemma ConsistentUnique(m: BlockMap, refs: Refs)
    requires Consistent(m, refs)
    ensures UniqueIds(m)
  {
    forall k1, i1, k2, i2 | k1 in m && k2 in m && 0 <= i1 < |m[k1]| && 0 <= i2 < |m[k2]| && m[k1][i1].id == m[k2][i2].id
      ensures k1 == k2 && i1 == i2
    {
      LiveAtRef(m, refs, k1, i1);
    }
  }

  /** Where the block at position `i` of a renamed key came from. */
  ghost function Source(m: BlockMap, from: string, to: string, key: string, i: nat): (string, nat)
    requires from != to && RenamePre(m, from, to)
    requires key in Renamed(m, from, to) && i < |Renamed(m, from, to)[key]|
  {
    var keep := if key in m && key !in Sources(m, from) then m[key] else [];
    if i < |keep| then (key, i) else (Origin(key, from, to), i - |keep|)
  }

  lemma SourceHolds(m: BlockMap, from: string, to: string, key: string, i: nat)
    requires from != to && RenamePre(m, from, to)
    requires key in Renamed(m, from, to) && i < |Renamed(m, from, to)[key]|
    ensures var (k, j) := Source(m, from, to, key, i);
      k in m && j < |m[k]| && m[k][j] == Renamed(m, from, to)[key][i]
      && (if Under(k, from) then RenameKey(k, from, to) == key else k == key)
  {
    var keep := if key in m && key !in Sources(m, from) then m[key] else [];
    if i >= |keep| {
      RenameOfOrigin(key, from, to);
    }
  }

  /** Renaming keeps ids unique: every position has one source, and the source decides the position. */
  lemma RenamedUnique(m: BlockMap, from: string, to: string)
    requires UniqueIds(m) && RenamePre(m, from, to)
    ensures UniqueIds(Renamed(m, from, to))
  {
    if from != to {
      var r: BlockMap := Renamed(m, from, to);
      forall k1: string, i1: int, k2: string, i2: int | k1 in r && k2 in r && 0 <= i1 < |r[k1]| && 0 <= i2 < |r[k2]| && r[k1][i1].id == r[k2][i2].id
        ensures k1 == k2 && i1 == i2
      {
        SourceHolds(m, from, to, k1, i1);
        SourceHolds(m, from, to, k2, i2);
      }
    }
  }

  lemma RecategorizeUnique(m: BlockMap)
    requires UniqueIds(m)
    ensures UniqueIds(Recategorize(m))
    ensures LiveIds(Recategorize(m)) == LiveIds(m)
  {
    var r := Recategorize(m);
    forall id | id in LiveIds(m) ensures id in LiveIds(r) {
      var k, i :| k in m && 0 <= i < |m[k]| && m[k][i].id == id;
      assert r[k][i].id == id;
    }
  }

  lemma UniqueDistinct(m: BlockMap)
    requires UniqueIds(m)
    ensures DistinctIds(m)
  {
  }

  /** No block is lost or made up: the renamed map holds the same ids. */
  lemma RenamedLive(m: BlockMap, from: string, to: string)
    requires RenamePre(m, from, to)
    ensures LiveIds(Renamed(m, from, to)) == LiveIds(m)
  {
    if from != to {
      var r: BlockMap := Renamed(m, from, to);
      forall id | id in LiveIds(m) ensures id in LiveIds(r) {
        var k, i :| k in m && 0 <= i < |m[k]| && m[k][i].id == id;
        assert m[k][i] in m[k];
        RenamedKeepsBlocks(m, from, to, k, m[k][i]);
        var dest := if Under(k, from) then RenameKey(k, from, to) else k;
        var j :| 0 <= j < |r[dest]| && r[dest][j] == m[k][i];
      }
      forall id | id in LiveIds(r) ensures id in LiveIds(m) {
        var key, i :| key in r && 0 <= i < |r[key]| && r[key][i].id == id;
        SourceHolds(m, from, to, key, i);
      }
    }
  }

  /** Two maps agree at an id: both lack it or both hold the same value. */
  ghost predicate Agree(a: map<string, string>, b: map<string, string>, id: string) {
    (id in a <==> id in b) && (id in a ==> a[id] == b[id])
  }

  /** The block is recorded under key `k` and indexed with its text. */
  ghost predicate Indexed(f: Fernet, refs: Refs, text: map<string, string>, k: string, b: Block) {
    b.id in refs && refs[b.id] == k && b.id in text && text[b.id] == IndexText(f, b)
  }

  /** Recording another block leaves a recorded block as it was. */
  lemma IndexedOther(f: Fernet, refs: Refs, text: map<string, string>, k: string, c: Block, b: Block, k2: string)
    requires Indexed(f, refs, text, k, c) && c.id != b.id
    ensures Indexed(f, refs[b.id := k2], text[b.id := IndexText(f, b)], k, c)
  {
  }

  /** One step of the per-key pass: the blocks before position `j` stay
      recorded, and ids outside the first `j + 1` blocks keep their entries. */
  lemma ReindexKeyStep(f: Fernet, k: string, arr: seq<Block>, j: nat,
                       r0: Refs, t0: map<string, string>, refs: Refs, text: map<string, string>,
                       r1: Refs, t1: map<string, string>)
    requires j < |arr| && IdsDistinct(arr)
    requires r1 == r0[arr[j].id := k] && t1 == t0[arr[j].id := IndexText(f, Recat(k, arr)[j])]
    requires forall i :: 0 <= i < j ==> Indexed(f, r0, t0, k, Recat(k, arr)[i])
    requires forall id :: id !in IdsOf(arr[..j]) ==> Agree(r0, refs, id) && Agree(t0, text, id)
    ensures forall i :: 0 <= i <= j ==> Indexed(f, r1, t1, k, Recat(k, arr)[i])
    ensures forall id :: id !in IdsOf(arr[..j + 1]) ==> Agree(r1, refs, id) && Agree(t1, text, id)
  {
    var b := Recat(k, arr)[j];
    IdsOfSnoc(arr, j);
    forall i | 0 <= i < j
      ensures Indexed(f, r1, t1, k, Recat(k, arr)[i])
    {
      assert Recat(k, arr)[i].id == arr[i].id != arr[j].id;
      IndexedOther(f, r0, t0, k, Recat(k, arr)[i], b, k);
    }
  }

  lemma RecatSnoc(k: string, bs: seq<Block>, j: nat)
    requires j < |bs|
    ensures Recat(k, bs)[..j + 1] == Recat(k, bs)[..j] + [bs[j].(category := NewCategory(k, bs[j]))]
  {
  }

  /** The final pass of `_rename_blocks_prefix` after the keys in `done`:
      those lists are recategorized and their blocks recorded and indexed; no
      other id's ref or index text has changed. */
  ghost predicate ReindexInv(f: Fernet, R: BlockMap, done: set<string>, bd: BlockMap, refs: Refs,
                             text: map<string, string>, refs0: Refs, text0: map<string, string>) {
    && bd.Keys == R.Keys
    && (forall k :: k in R ==> bd[k] == if k in done then Recat(k, R[k]) else R[k])
    && (forall k, i :: k in done && k in R && 0 <= i < |R[k]| ==> Indexed(f, refs, text, k, Recat(k, R[k])[i]))
    && (forall id :: id !in IdsAt(R, done) ==> Agree(refs, refs0, id) && Agree(text, text0, id))
  }

  lemma ReindexStart(f: Fernet, R: BlockMap, refs0: Refs, text0: map<string, string>)
    ensures ReindexInv(f, R, {}, R, refs0, text0, refs0, text0)
  {
  }

  lemma ReindexAdvance(f: Fernet, R: BlockMap, done: set<string>, k: string, bd: BlockMap, refs: Refs,
                       text: map<string, string>, refs0: Refs, text0: map<string, string>,
                       refs2: Refs, text2: map<string, string>)
    requires UniqueIds(R) && k in R && k !in done
    requires ReindexInv(f, R, done, bd, refs, text, refs0, text0)
    requires forall i :: 0 <= i < |R[k]| ==> Indexed(f, refs2, text2, k, Recat(k, R[k])[i])
    requires forall id :: id !in IdsOf(R[k]) ==> Agree(refs2, refs, id) && Agree(text2, text, id)
    ensures ReindexInv(f, R, done + {k}, bd[k := Recat(k, R[k])], refs2, text2, refs0, text0)
  {
    forall k', i | k' in done && k' in R && 0 <= i < |R[k']|
      ensures Indexed(f, refs2, text2, k', Recat(k', R[k'])[i])
    {
      assert Recat(k', R[k'])[i].id == R[k'][i].id;
      assert R[k'][i].id !in IdsOf(R[k]);
    }
    IdsAtTake(R, done, k);
    forall id | id !in IdsAt(R, done + {k})
      ensures Agree(refs2, refs0, id) && Agree(text2, text0, id)
    {
      assert id !in IdsOf(R[k]) && id !in IdsAt(R, done);
    }
  }

  lemma ReindexFinish(f: Fernet, R: BlockMap, bd: BlockMap, refs: Refs, text: map<string, string>,
                      refs0: Refs, text0: map<string, string>)
    requires ReindexInv(f, R, R.Keys, bd, refs, text, refs0, text0)
    ensures bd == Recategorize(R)
    ensures RefsCurrent(bd, refs) && IndexCurrent(f, bd, text)
    ensures forall id :: id !in LiveIds(R) ==> Agree(refs, refs0, id) && Agree(text, text0, id)
  {
    assert bd == Recategorize(R);
    forall id | id !in LiveIds(R) ensures id !in IdsAt(R, R.Keys) {
    }
  }

  // ---------------------------------------------------------------- dropping blocks on a section

  /** The block map, the id index and the search-index texts together. */
  datatype State = State(blocks: BlockMap, refs: Refs, text: map<string, string>)

  ghost predicate Good(f: Fernet, st: State) {
    Consistent(st.blocks, st.refs) && IndexCurrent(f, st.blocks, st.text)
  }

  /** The first block of the list with that id (the block object `id_to_ref` holds). */
  function FindById(bs: seq<Block>, id: string): (r: Option<Block>)
    ensures r.Some? ==> r.value in bs && r.value.id == id
    ensures r.None? ==> forall b :: b in bs ==> b.id != id
  {
    if bs == [] then None
    else if bs[0].id == id then Some(bs[0])
    else FindById(bs[1..], id)
  }

  /** A live id is found, through its ref, in the list that holds it. */
  lemma LiveFound(f: Fernet, st: State, id: string)
    requires Good(f, st) && id in LiveIds(st.blocks)
    ensures id in st.refs && st.refs[id] in st.blocks
    ensures FindById(Get(st.blocks, st.refs[id]), id).Some?
  {
    var k, i :| k in st.blocks && 0 <= i < |st.blocks[k]| && st.blocks[k][i].id == id;
    assert st.blocks[k][i] in st.blocks[k];
  }

  /** A move with its bookkeeping: the block map as `MoveBlockSpec`, the ref
      pointed at the target, and the block re-indexed under its new category. */
  function MoveStep(f: Fernet, st: State, block: Block, fromKey: string, target: string): State
    requires fromKey in st.blocks
  {
    if target == fromKey then st
    else
      var moved := block.(category := NewCategory(target, block));
      State(MoveBlockSpec(st.blocks, block, fromKey, target),
            st.refs[block.id := target],
            st.text[block.id := IndexText(f, moved)])
  }

  /** After a move each block is the moved one or was already under its key. */
  lemma MoveOrigins(m: BlockMap, refs: Refs, block: Block, fromKey: string, target: string)
    requires Consistent(m, refs) && fromKey in m && block in m[fromKey] && target != fromKey
    ensures var r := MoveBlockSpec(m, block, fromKey, target);
      forall k, i :: k in r && 0 <= i < |r[k]| ==>
        if r[k][i].id == block.id then r[k][i] == block.(category := NewCategory(target, block))
        else r[k][i] in Get(m, k)
  {
    var r: BlockMap := MoveBlockSpec(m, block, fromKey, target);
    MovePlaces(m, refs, block, fromKey, target);
    forall k: string, i: int | k in r && 0 <= i < |r[k]| && r[k][i].id != block.id
      ensures r[k][i] in Get(m, k)
    {
      if k == target { assert i < |Get(m, target)|; }
      else if k == fromKey { assert r[k][i] in Get(r, fromKey); }
      else { assert Get(r, k) == Get(m, k); }
    }
  }

  lemma MoveLiveShrinks(m: BlockMap, refs: Refs, block: Block, fromKey: string, target: string)
    requires Consistent(m, refs) && fromKey in m && block in m[fromKey] && target != fromKey
    ensures LiveIds(MoveBlockSpec(m, block, fromKey, target)) <= LiveIds(m)
  {
    var r: BlockMap := MoveBlockSpec(m, block, fromKey, target);
    MoveOrigins(m, refs, block, fromKey, target);
    assert block.id in LiveIds(m) by {
      var j :| 0 <= j < |m[fromKey]| && m[fromKey][j] == block;
    }
    forall k: string, i: int | k in r && 0 <= i < |r[k]| ensures r[k][i].id in LiveIds(m) {
      if r[k][i].id != block.id {
        var j :| 0 <= j < |m[k]| && m[k][j] == r[k][i];
      }
    }
  }

  lemma MoveLiveGrows(m: BlockMap, refs: Refs, block: Block, fromKey: string, target: string)
    requires Consistent(m, refs) && fromKey in m && block in m[fromKey] && target != fromKey
    ensures LiveIds(m) <= LiveIds(MoveBlockSpec(m, block, fromKey, target))
  {
    var r: BlockMap := MoveBlockSpec(m, block, fromKey, target);
    MoveShape(m, refs, block, fromKey, target);
    forall id | id in LiveIds(m) ensures id in LiveIds(r) {
      var k, i :| k in m && 0 <= i < |m[k]| && m[k][i].id == id;
      if id == block.id {
        assert r[target][|r[target]| - 1].id == id;
      } else if k == fromKey {
        assert m[k][i] in Get(r, k);
        var j :| 0 <= j < |r[k]| && r[k][j] == m[k][i];
      } else if k == target {
        assert r[k][i] == m[k][i];
      } else {
        assert Get(r, k) == Get(m, k);
      }
    }
  }

  /** A move keeps the set of live ids. */
  lemma MoveStepLive(f: Fernet, st: State, block: Block, fromKey: string, target: string)
    requires Good(f, st) && fromKey in st.blocks && block in st.blocks[fromKey]
    ensures LiveIds(MoveStep(f, st, block, fromKey, target).blocks) == LiveIds(st.blocks)
  {
    if target != fromKey {
      MoveLiveShrinks(st.blocks, st.refs, block, fromKey, target);
      MoveLiveGrows(st.blocks, st.refs, block, fromKey, target);
    }
  }

  /** A move keeps the invariants. */
  lemma MoveStepGood(f: Fernet, st: State, block: Block, fromKey: string, target: string)
    requires Good(f, st) && fromKey in st.blocks && block in st.blocks[fromKey]
    ensures Good(f, MoveStep(f, st, block, fromKey, target))
  {
    if target != fromKey {
      var m := st.blocks;
      var r: BlockMap := MoveStep(f, st, block, fromKey, target).blocks;
      var moved := block.(category := NewCategory(target, block));
      MovePlaces(m, st.refs, block, fromKey, target);
      MoveOrigins(m, st.refs, block, fromKey, target);
      var text := st.text[block.id := IndexText(f, moved)];
      forall k: string, i: int | k in r && 0 <= i < |r[k]|
        ensures r[k][i].id in text && text[r[k][i].id] == IndexText(f, r[k][i])
      {
        if r[k][i].id != block.id {
          var j :| 0 <= j < |m[k]| && m[k][j] == r[k][i];
        }
      }
    }
  }

  /** One iteration of `on_blocks_dropped_to_section`: ids without a ref and
      blocks already under the target are skipped. */
  function DropOne(f: Fernet, st: State, bid: string, target: string): State {
    if bid !in st.refs then st
    else
      var fromKey := st.refs[bid];
      if fromKey == target then st
      else match FindById(Get(st.blocks, fromKey), bid)
        case None => st
        case Some(b) => MoveStep(f, st, b, fromKey, target)
  }

  /** The whole loop over the dropped ids, in order. */
  function DropAll(f: Fernet, st: State, ids: seq<string>, target: string): State
    decreases |ids|
  {
    if ids == [] then st
    else DropOne(f, DropAll(f, st, ids[..|ids| - 1], target), ids[|ids| - 1], target)
  }

  lemma DropOneGood(f: Fernet, st: State, bid: string, target: string)
    requires Good(f, st)
    ensures Good(f, DropOne(f, st, bid, target))
    ensures LiveIds(DropOne(f, st, bid, target).blocks) == LiveIds(st.blocks)
    ensures forall id :: id != bid && id in st.refs ==>
      id in DropOne(f, st, bid, target).refs && DropOne(f, st, bid, target).refs[id] == st.refs[id]
    ensures bid in LiveIds(st.blocks) ==> DropOne(f, st, bid, target).refs[bid] == target
  {
    if bid in LiveIds(st.blocks) {
      LiveFound(f, st, bid);
    }
    if bid in st.refs && st.refs[bid] != target {
      var fromKey := st.refs[bid];
      match FindById(Get(st.blocks, fromKey), bid)
      case None =>
      case Some(b) =>
        MoveStepGood(f, st, b, fromKey, target);
        MoveStepLive(f, st, b, fromKey, target);
    }
  }

  /** Dropping keeps the invariants, and every dropped id that was live ends up
      live with its ref at the target, hence in the target's list. */
  lemma {:induction false} DropAllLands(f: Fernet, st: State, ids: seq<string>, target: string)
    requires Good(f, st)
    ensures var r := DropAll(f, st, ids, target);
      && Good(f, r)
      && LiveIds(r.blocks) == LiveIds(st.blocks)
      && forall i :: 0 <= i < |ids| && ids[i] in LiveIds(st.blocks) ==> r.refs[ids[i]] == target
    decreases |ids|
  {
    if ids != [] {
      var init := ids[..|ids| - 1];
      var last := ids[|ids| - 1];
      DropAllLands(f, st, init, target);
      var mid := DropAll(f, st, init, target);
      DropOneGood(f, mid, last, target);
      forall i | 0 <= i < |ids| - 1 && ids[i] in LiveIds(st.blocks)
        ensures DropAll(f, st, ids, target).refs[ids[i]] == target
      {
        assert init[i] == ids[i];
        LiveFound(f, mid, ids[i]);
      }
    }
  }

  /** Under the invariants a live id whose ref is the target sits in the target's list. */
  lemma RefLocates(f: Fernet, st: State, id: string, target: string)
    requires Good(f, st) && id in LiveIds(st.blocks) && st.refs[id] == target
    ensures target in st.blocks && FindById(st.blocks[target], id).Some?
  {
    LiveFound(f, st, id);
  }
}
