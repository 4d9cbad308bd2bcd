/** The in-memory part of re-keying: every field value of every live block is
    decrypted under the old Fernet object and sealed under the new one
    (`change_master_password`, `migrate_kdf_params`). Only the second re-seals
    the notes as well; the trash is left as it is by both. */
module Rekey {
  import opened Wrappers
  import opened Crypto
  import opened ValueCodec
  import opened BlockStore

  /** `new_fernet.encrypt(decrypt_value(v, old_fernet).encode()).decode()`;
      `nonce` stands for the IV and time stamp the new token draws. */
  function Reseal(oldF: Fernet, newF: Fernet, v: string, nonce: Bytes): (r: string)
    requires Sound(newF.prims)
    ensures IsEncrypted(newF, r)
    ensures DecryptValue(newF, Some(r)) == DecryptValue(oldF, Some(v))
  {
    var p := newF.prims;
    var plain := DecryptValue(oldF, Some(v));
    var token := newF.Encrypt(nonce, p.utf8Encode(plain));
    assert p.utf8Decode(token).Some?;
    assert p.utf8Encode(p.utf8Decode(token).value) == token;
    p.utf8Decode(token).value
  }

  /** The field list with every value re-sealed, names and order kept. */
  function ResealedFields(oldF: Fernet, newF: Fernet, fields: seq<(string, string)>, nonce: Bytes): (r: seq<(string, string)>)
    requires Sound(newF.prims)
    ensures |r| == |fields|
    ensures forall i :: 0 <= i < |fields| ==>
      r[i].0 == fields[i].0 && DecryptValue(newF, Some(r[i].1)) == DecryptValue(oldF, Some(fields[i].1))
  {
    if fields == [] then []
    else [(fields[0].0, Reseal(oldF, newF, fields[0].1, nonce))] + ResealedFields(oldF, newF, fields[1..], nonce)
  }

  /** One block re-keyed; `withNotes` says whether the notes are re-sealed too. */
  function ResealedBlock(oldF: Fernet, newF: Fernet, b: Block, withNotes: bool, nonce: Bytes): (r: Block)
    requires Sound(newF.prims)
    ensures r.id == b.id && r.title == b.title && r.category == b.category
    ensures |r.fields| == |b.fields|
    ensures forall i :: 0 <= i < |b.fields| ==>
      r.fields[i].0 == b.fields[i].0 &&
      DecryptValue(newF, Some(r.fields[i].1)) == DecryptValue(oldF, Some(b.fields[i].1))
    ensures withNotes ==> DecryptValue(newF, Some(r.notes)) == DecryptValue(oldF, Some(b.notes))
    ensures !withNotes ==> r.notes == b.notes
  {
    b.(fields := ResealedFields(oldF, newF, b.fields, nonce),
       notes := if withNotes then Reseal(oldF, newF, b.notes, nonce) else b.notes)
  }

  function ResealedList(oldF: Fernet, newF: Fernet, arr: seq<Block>, withNotes: bool, nonce: Bytes): (r: seq<Block>)
    requires Sound(newF.prims)
    ensures |r| == |arr|
    ensures forall i :: 0 <= i < |arr| ==> r[i] == ResealedBlock(oldF, newF, arr[i], withNotes, nonce)
  {
    if arr == [] then []
    else [ResealedBlock(oldF, newF, arr[0], withNotes, nonce)] + ResealedList(oldF, newF, arr[1..], withNotes, nonce)
  }

  /** The whole block map re-keyed, key by key. */
  function ResealedMap(oldF: Fernet, newF: Fernet, m: BlockMap, withNotes: bool, nonce: Bytes): (r: BlockMap)
    requires Sound(newF.prims)
    ensures r.Keys == m.Keys
    ensures forall k :: k in m ==> r[k] == ResealedList(oldF, newF, m[k], withNotes, nonce)
  {
    map k | k in m :: ResealedList(oldF, newF, m[k], withNotes, nonce)
  }

  /** The innermost loop: `for kf, vf in list(b["fields"].items())`. */
  method ResealFields(oldF: Fernet, newF: Fernet, fields: seq<(string, string)>, nonce: Bytes)
      returns (out: seq<(string, string)>)
    requires Sound(newF.prims)
    ensures out == ResealedFields(oldF, newF, fields, nonce)
  {
    out := [];
    var i := 0;
    while i < |fields|
      invariant 0 <= i <= |fields|
      invariant out + ResealedFields(oldF, newF, fields[i..], nonce) == ResealedFields(oldF, newF, fields, nonce)
    {
      assert fields[i..][1..] == fields[i + 1..];
      out := out + [(fields[i].0, Reseal(oldF, newF, fields[i].1, nonce))];
      i := i + 1;
    }
  }

  /** The loop over the blocks of one section list. */
  method ResealList(oldF: Fernet, newF: Fernet, arr: seq<Block>, withNotes: bool, nonce: Bytes)
      returns (out: seq<Block>)
    requires Sound(newF.prims)
    ensures out == ResealedList(oldF, newF, arr, withNotes, nonce)
  {
    out := [];
    var j := 0;
    while j < |arr|
      invariant 0 <= j <= |arr|
      invariant |out| == j
      invariant forall i :: 0 <= i < j ==> out[i] == ResealedBlock(oldF, newF, arr[i], withNotes, nonce)
    {
      var b := arr[j];
      var fields := ResealFields(oldF, newF, b.fields, nonce);
      var notes := if withNotes then Reseal(oldF, newF, b.notes, nonce) else b.notes;
      out := out + [b.(fields := fields, notes := notes)];
      j := j + 1;
    }
  }

  /** The loop over `blocks_data.values()`. */
  method ResealAll(oldF: Fernet, newF: Fernet, m: BlockMap, withNotes: bool, nonce: Bytes)
      returns (bd: BlockMap)
    requires Sound(newF.prims)
    ensures bd == ResealedMap(oldF, newF, m, withNotes, nonce)
  {
    ghost var target := ResealedMap(oldF, newF, m, withNotes, nonce);
    bd := map[];
    var todo := m.Keys;
    while todo != {}
      invariant todo <= m.Keys
      invariant forall k :: k in m ==> (k in bd <==> k !in todo)
      invariant forall k :: k in bd ==> k in m && bd[k] == target[k]
      decreases |todo|
    {
      var k :| k in todo;
      var arr := ResealList(oldF, newF, m[k], withNotes, nonce);
      bd := bd[k := arr];
      todo := todo - {k};
    }
    assert bd.Keys == target.Keys;
  }

  /** `change_master_password`'s pass over the blocks: fields only. */
  method ChangeMasterPasswordBlocks(oldF: Fernet, newF: Fernet, m: BlockMap, nonce: Bytes) returns (bd: BlockMap)
    requires Sound(newF.prims)
    ensures bd == ResealedMap(oldF, newF, m, false, nonce)
  {
    bd := ResealAll(oldF, newF, m, false, nonce);
  }

  /** `migrate_kdf_params`'s pass over the blocks: fields and notes. */
  method MigrateKdfBlocks(oldF: Fernet, newF: Fernet, m: BlockMap, nonce: Bytes) returns (bd: BlockMap)
    requires Sound(newF.prims)
    ensures bd == ResealedMap(oldF, newF, m, true, nonce)
  {
    bd := ResealAll(oldF, newF, m, true, nonce);
  }

  /** Two blocks with the same title, category and field names whose field
      values and notes read the same (each under its own key) have the same
      index pieces. */
  lemma PartsAgree(oldF: Fernet, newF: Fernet, b: Block, r: Block, i: nat)
    requires r.title == b.title && r.category == b.category && |r.fields| == |b.fields|
    requires forall j :: 0 <= j < |b.fields| ==>
      r.fields[j].0 == b.fields[j].0 &&
      DecryptValue(newF, Some(r.fields[j].1)) == DecryptValue(oldF, Some(b.fields[j].1))
    requires DecryptValue(newF, Some(r.notes)) == DecryptValue(oldF, Some(b.notes))
    requires i < |IndexParts(oldF, b)|
    ensures |IndexParts(newF, r)| == |IndexParts(oldF, b)|
    ensures IndexParts(newF, r)[i] == IndexParts(oldF, b)[i]
  {
    var a := IndexParts(newF, r);
    var c := IndexParts(oldF, b);
    if 2 <= i < 2 + 2 * |b.fields| {
      var j := (i - 2) / 2;
      if i == 2 + 2 * j {
        assert a[i] == r.fields[j].0;
      } else {
        assert i == 3 + 2 * j;
        assert a[i] == DecryptValue(newF, Some(r.fields[j].1));
      }
    }
  }

  /** The searchable text of a block re-keyed with its notes, read under the
      new key, is the text it had under the old key. */
  lemma ResealedIndexText(oldF: Fernet, newF: Fernet, b: Block, nonce: Bytes)
    requires Sound(newF.prims)
    ensures IndexText(newF, ResealedBlock(oldF, newF, b, true, nonce)) == IndexText(oldF, b)
  {
    var r := ResealedBlock(oldF, newF, b, true, nonce);
    var a := IndexParts(newF, r);
    var c := IndexParts(oldF, b);
    assert |a| == |c|;
    forall i | 0 <= i < |a| ensures a[i] == c[i] {
      PartsAgree(oldF, newF, b, r, i);
    }
    assert a == c;
  }

  /** Re-keying moves no block: every key keeps its list of ids, so the id
      index stays current. */
  lemma ResealedConsistent(oldF: Fernet, newF: Fernet, m: BlockMap, refs: Refs, withNotes: bool, nonce: Bytes)
    requires Sound(newF.prims)
    ensures var r := ResealedMap(oldF, newF, m, withNotes, nonce);
      LiveIds(r) == LiveIds(m) && (Consistent(m, refs) <==> Consistent(r, refs))
  {
    var r: BlockMap := ResealedMap(oldF, newF, m, withNotes, nonce);
    assert SameLayout(m, r);
    SameLayoutConsistent(m, r, refs);
  }

  /** Two block maps with the same keys and the same ids at every position. */
  ghost predicate SameLayout(m: BlockMap, r: BlockMap) {
    && r.Keys == m.Keys
    && (forall k :: k in m ==> |r[k]| == |m[k]|)
    && (forall k, i :: k in m && 0 <= i < |m[k]| ==> r[k][i].id == m[k][i].id)
  }

  lemma SameLayoutConsistent(m: BlockMap, r: BlockMap, refs: Refs)
    requires SameLayout(m, r)
    ensures LiveIds(r) == LiveIds(m) && (Consistent(m, refs) <==> Consistent(r, refs))
  {
    forall x | x in LiveIds(m) ensures x in LiveIds(r) {
      var k: string, i: int :| k in m && 0 <= i < |m[k]| && m[k][i].id == x;
      assert r[k][i].id == x;
    }
    forall x | x in LiveIds(r) ensures x in LiveIds(m) {
      var k: string, i: int :| k in r && 0 <= i < |r[k]| && r[k][i].id == x;
      assert m[k][i].id == x;
    }
    forall k | k in m ensures IdsDistinct(m[k]) <==> IdsDistinct(r[k]) {
      assert forall i :: 0 <= i < |m[k]| ==> r[k][i].id == m[k][i].id;
    }
    assert DistinctIds(m) <==> DistinctIds(r);
    assert RefsCurrent(m, refs) <==> RefsCurrent(r, refs);
  }

  /** `migrate_kdf_params` keeps the vault invariant with the unchanged index
      and id index, now read under the new key. */
  lemma MigrateKeepsGood(oldF: Fernet, newF: Fernet, st: State, nonce: Bytes)
    requires Sound(newF.prims) && Good(oldF, st)
    ensures Good(newF, State(ResealedMap(oldF, newF, st.blocks, true, nonce), st.refs, st.text))
  {
    var r: BlockMap := ResealedMap(oldF, newF, st.blocks, true, nonce);
    ResealedConsistent(oldF, newF, st.blocks, st.refs, true, nonce);
    forall k: string, i: int | k in r && 0 <= i < |r[k]|
      ensures r[k][i].id in st.text && st.text[r[k][i].id] == IndexText(newF, r[k][i])
    {
      ResealedIndexText(oldF, newF, st.blocks[k][i], nonce);
    }
  }

  /** `change_master_password` leaves the notes sealed under the old key: a
      note token that does not open under the new key reads back as the
      token itself, not as its plaintext. */
  lemma ChangePasswordLeavesNotes(oldF: Fernet, newF: Fernet, b: Block, nonce: Bytes)
    requires Sound(newF.prims) && !IsEncrypted(newF, b.notes)
    ensures DecryptValue(newF, Some(ResealedBlock(oldF, newF, b, false, nonce).notes)) == b.notes
    ensures IndexText(newF, ResealedBlock(oldF, newF, b, false, nonce)) != IndexText(oldF, b) ==>
      DecryptValue(oldF, Some(b.notes)) != b.notes
  {
    var r := ResealedBlock(oldF, newF, b, false, nonce);
    if DecryptValue(oldF, Some(b.notes)) == b.notes {
      var a := IndexParts(newF, r);
      var c := IndexParts(oldF, b);
      assert |a| == |c|;
      forall i | 0 <= i < |a| ensures a[i] == c[i] {
        PartsAgree(oldF, newF, b, r, i);
      }
      assert a == c;
    }
  }
}
