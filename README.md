# LinkPass vault engine, modelled in Dafny

LinkPass is a desktop password vault. The vault is a tree of sections, a map
from section keys (`"Work/Mail"`) to lists of password blocks, a trash list, an
id index (`id_to_ref`) and a plaintext search index. Field values and notes are
stored encrypted under a Fernet key derived from the master password. A
section may carry its own password lock. Exports and backups use a small
container format of their own, and the vault's documents on disk use the
`LPJS1` framing.

This project models the in-memory engine that sits under the Qt window of
`src/LinkPass.py`:

- `wrappers.dfy` has `Option` and `Result`.
- `text.dfy` has the string helpers: `strip`, `lower`, `in` on strings,
  `split("/")`, `join`, `startswith` and `replace` of one character.
- `crypto.dfy` holds the cryptographic primitives as an abstract datatype of
  function values. The predicate `Sound` lists the only facts assumed about them:
  - a token opens under the key that sealed it;
  - UTF-8 decoding inverts encoding;
  - tokens are ASCII text.
- `valuecodec.dfy` has `is_encrypted`, `encrypt_value`, `decrypt_value` and
  `_try_decrypt_once`.
- `securejson.dfy` models `secure_write_json` and `secure_read_json`. The read
  is a pure dispatch over the file's bytes, and JSON stays abstract.
- `container.dfy` models the LPX1/LPEX1/LPBK1 container: byte concatenation
  and fixed-offset slicing.
- `searchindex.dfy` models `IndexDB` as a class. Its `_data` map and key order
  are fields updated in place.
- `sectiontree.dfy` covers the section tree as a datatype value:
  - lookup, creation and edits;
  - reordering and moves;
  - renames and locks;
  - the locked-prefix query.
- `blockstore.dfy` states every transition of the block map, the id index and
  the trash as functions. Beside them are the invariants the transitions keep
  (`Consistent`, `IndexCurrent`, `Good`) and the lemmas about them.
- `vault.dfy` models the vault as a class whose fields the methods update:
  - it holds `tree`, `blocksData`, `trash`, `idToRef`, `unlockedSections`,
    `showData` and the search index;
  - its methods follow the loops of `move_block`,
    `on_blocks_dropped_to_section`, `delete_block_soft`, `delete_item`, both
    restore actions, `_rename_blocks_prefix`, `_move_section`, `rename_item`,
    `_reorder_section` and the lock methods;
  - each method is proved against the matching function of `BlockStore` or
    `SectionTree`.
- `rekey.dfy` models the in-memory part of re-keying for both
  `change_master_password` and `migrate_kdf_params`. It keeps the source's
  difference: only the second re-seals the notes.

Dialog answers are method parameters, for example a confirmation, a chosen trash
row, a typed name or password. The same goes for the random salts and nonces
and for the primitives' environment (the pepper and `HAS_ARGON2`).

## Model

| member | source | states |
|---|---|---|
| Text.StripSpec | src/LinkPass.py:895 | `strip()` removes exactly a whitespace prefix and suffix, and the result is empty iff the input is all whitespace |
| Text.StripKeeps | src/LinkPass.py:3044 | stripping only ever keeps characters of its input |
| Text.Erase | src/LinkPass.py:3044 | `replace(c, "")` keeps exactly the characters other than `c`, and never grows |
| Text.Lower | src/LinkPass.py:895 | `lower()` maps each character on its own and keeps the length |
| Text.JoinSplit | src/LinkPass.py:3136 | joining the segments of a split key with `/` gives the key back, for every key |
| Text.SplitJoin | src/LinkPass.py:2472 | splitting a `/`-joined non-empty list of slash-free segments gives the segments back |
| Text.NonEmptyParts | src/LinkPass.py:2786 | `[p for p in key.split("/") if p]` holds only non-empty, slash-free segments |
| Text.JoinContainsPart | src/LinkPass.py:2012 | every part of a newline-joined text occurs in it |
| ValueCodec.EncryptValue | src/LinkPass.py:662-666 | the result always opens under the key; a value that already opens (with `None` read as `""`) is returned unchanged |
| ValueCodec.DecryptValue | src/LinkPass.py:667-673 | `None` gives `""`; a value that does not open is passed through unchanged |
| ValueCodec.TryDecryptOnce | src/LinkPass.py:2016-2024 | the same string as `decrypt_value`, and the flag is set only when the value opened |
| ValueCodec.EncryptIdempotent | src/LinkPass.py:662-666 | `encrypt_value(encrypt_value(v)) == encrypt_value(v)`, whatever nonces are drawn |
| ValueCodec.DecryptOfEncrypt | src/LinkPass.py:662-673 | a value that was not already a token decrypts back to itself after `encrypt_value` |
| ValueCodec.DecryptOfEncryptedValue | src/LinkPass.py:662-673 | a value that already was a token reads back as its own plaintext |
| SecureJson.SecureReadJson | src/LinkPass.py:692-720 | no file gives `Absent`. An LPJS1 blob whose token does not open gives `WrongMasterPassword`, and nothing else does. `Decoded` needs the prefix. `Migrated` needs its absence and carries the LPJS1 rewrite of the object |
| SecureJson.ReadJsonValue | src/LinkPass.py:692-720 | the caller sees the exception exactly for a wrong master password, and `default` for no file or any other failure |
| SecureJson.WrongPasswordNeverDefault | src/LinkPass.py:698-703 | a prefixed blob whose token does not open raises and is never turned into `default` |
| SecureJson.WriteReadRoundTrip | src/LinkPass.py:683-704 | what `secure_write_json` writes, `secure_read_json` decodes back to the same object |
| SecureJson.PlainJsonIsMigrated | src/LinkPass.py:705-714 | unprefixed JSON is parsed and scheduled for rewrite, never reported as a wrong password |
| SecureJson.MigrationReadsBack | src/LinkPass.py:705-714 | the rewrite of a migrated document reads back as the same object |
| Container.Slice | src/LinkPass.py:782-784 | Python slicing is clamped to the data and agrees with Dafny slicing in range |
| Container.EncryptContainer | src/LinkPass.py:758-766 | an empty password is the error. Otherwise the output is `MAGIC ‖ tag ‖ salt ‖ token`, with the token sealed under the password's key for that tag |
| Container.MagicOffset | src/LinkPass.py:774-781 | an offset exists iff the data starts with LPX1, LPEX1 or LPBK1; it is 4 exactly for LPX1 |
| Container.LpxDecryptBytes | src/LinkPass.py:767-787 | unknown magic is exactly the `UnknownFormat` error; with a recognised magic the only error is `InvalidToken` |
| Container.LpexDecryptFileToBytes | src/LinkPass.py:4748-4758 | `NotExportFile` exactly when the data lacks the LPEX1 magic |
| Container.DecodeFrame | src/LinkPass.py:758-787 | a frame written with any magic decodes at the magic's length back to the raw bytes |
| Container.LpxRoundTrip | src/LinkPass.py:758-787 | `_lpx_decrypt_bytes_or_file(_lpx_encrypt_bytes(raw, pw), pw) == raw` for a non-empty password |
| Container.LpexRoundTrip | src/LinkPass.py:4735-4758 | an LPEX1 export reads back through both `_lpex_decrypt_file_to_bytes` and the generic reader |
| Container.LpbkRoundTrip | src/LinkPass.py:767-787 | an LPBK1 frame reads back through the generic reader at offset 5 |
| SearchIndex.NormalizeQueryEmpty | src/LinkPass.py:895-897 | the normalised query is empty iff the query is absent or all whitespace |
| SearchIndex.MatchingIds | src/LinkPass.py:898 | an id is kept iff it is stored and its lower-cased text contains the query |
| SearchIndex.MatchingIdsDistinct | src/LinkPass.py:898 | filtering a duplicate-free key order gives a duplicate-free result |
| SearchIndex.RemoveKey | src/LinkPass.py:890-893 | removing one key keeps exactly the other keys and keeps them duplicate-free |
| SearchIndex.RemoveAbsent | src/LinkPass.py:890-893 | removing an absent key changes nothing |
| SearchIndex.IndexDB.constructor | src/LinkPass.py:832-837 | a fresh index is empty and well formed |
| SearchIndex.IndexDB.Clear | src/LinkPass.py:884-886 | the index is empty afterwards |
| SearchIndex.IndexDB.Upsert | src/LinkPass.py:887-889 | stores `text or ""` under the id and changes no other entry; a new id goes to the end of the key order |
| SearchIndex.IndexDB.Delete | src/LinkPass.py:890-893 | removes that id only; an absent id leaves the index as it was |
| SearchIndex.IndexDB.Search | src/LinkPass.py:894-898 | an empty normalised query returns every stored id. Otherwise it returns exactly the ids whose lower-cased text contains the query, in key order, without duplicates |
| SectionTree.FirstNamed | src/LinkPass.py:2483 | `next(n for n in nodes if n["name"] == name)`: the first position with that name, or none when no node has it |
| SectionTree.FindNode | src/LinkPass.py:2480-2486 | a found node's name is the last element of the path, and the empty path finds nothing |
| SectionTree.FindParentAndIndex | src/LinkPass.py:2487-2499 | found iff `find_node` finds. The node sits at the index in its sibling list, and no earlier sibling is that node |
| SectionTree.LocationIsFirst | src/LinkPass.py:2487-2499 | the index is the position of the first sibling with the path's last name |
| SectionTree.SetLockAt | src/LinkPass.py:2750-2760 | after setting or popping a lock, the node at the path is the old node with only its lock changed |
| SectionTree.RemoveNodeAt | src/LinkPass.py:3069-3077 | `remove_from` drops the first match from its sibling list. With unique names, the path no longer resolves |
| SectionTree.Reorder | src/LinkPass.py:2542-2543 | `pop(idx)` then `insert(new_idx, node)` is a permutation that puts the node at `new_idx` |
| SectionTree.ReorderAdjacent | src/LinkPass.py:2542-2543 | a step of one place swaps the two neighbours |
| SectionTree.ReorderSectionAt | src/LinkPass.py:2534-2543 | in range, the sibling list becomes the reordered one |
| SectionTree.ReorderSectionOut | src/LinkPass.py:2538-2540 | a step past either end leaves the tree unchanged |
| SectionTree.EnsurePath | src/LinkPass.py:2470-2479 | the path resolves afterwards, and the top-level list does not shrink |
| SectionTree.EnsureKeepsNodes | src/LinkPass.py:2470-2479 | no node is removed: every path that resolved before still resolves, to a node with the same lock |
| SectionTree.EnsureExisting | src/LinkPass.py:2470-2479 | a path that already resolves leaves the tree unchanged |
| SectionTree.EnsurePathIdempotent | src/LinkPass.py:2470-2479 | ensuring a path twice is ensuring it once |
| SectionTree.GetAllPaths | src/LinkPass.py:2461-2469 | one joined path per node, in pre-order, each the `/`-join of a non-empty name list |
| SectionTree.FoundIsListed | src/LinkPass.py:2461-2486 | every path `find_node` resolves is listed by `get_all_paths` |
| SectionTree.ListedIsFound | src/LinkPass.py:2461-2486 | with unique sibling names, every listed path resolves |
| SectionTree.LockedDepths | src/LinkPass.py:1856-1864 | exactly the prefix lengths whose node carries a lock, ascending |
| SectionTree.LockedPrefixes | src/LinkPass.py:1856-1864 | the joined prefixes at those depths, in the same order |
| SectionTree.LockedPrefixListed | src/LinkPass.py:1856-1864 | every locked prefix of the path is listed |
| SectionTree.AllLockedIn | src/LinkPass.py:2787-2790 | every listed prefix is unlocked iff every locked prefix of the path is unlocked |
| SectionTree.RemovedGone | src/LinkPass.py:3069-3077 | with unique sibling names, no sibling keeps the removed name |
| SectionTree.MoveSectionLands | src/LinkPass.py:3126-3146 | the node leaves its sibling list at its index and is appended to the children of the new parent. When the new parent is empty or does not resolve, it goes to the top level |
| SectionTree.RenameNodeAt | src/LinkPass.py:3048-3050 | the node at the index takes the new name and every other sibling is unchanged |
| BlockStore.IndexParts | src/LinkPass.py:2005-2012 | title, category, each field name and decrypted value in order, then the decrypted notes when not empty |
| BlockStore.IndexFindsParts | src/LinkPass.py:2005-2013 | a search for any indexed piece finds the block's text |
| BlockStore.Without | src/LinkPass.py:3787 | the filter keeps exactly the blocks with another id |
| BlockStore.RemoveFromKey | src/LinkPass.py:3787-3789 | the key keeps the filtered list, or goes when the list empties; every other key is unchanged |
| BlockStore.MovePlaces | src/LinkPass.py:3781-3790 | a live block moved to another key is the new last block there. It leaves the old list, which goes when emptied. No other list changes, and the invariants hold with its ref at the target |
| BlockStore.MoveStepGood | src/LinkPass.py:3781-3790 | one move keeps the vault invariant with the moved block's index text rebuilt |
| BlockStore.MoveStepLive | src/LinkPass.py:3781-3790 | a move loses and creates no live block |
| BlockStore.DropOneGood | src/LinkPass.py:3730-3742 | one dropped id keeps the invariant and the live set, and only its own ref changes, to the target |
| BlockStore.DropAllLands | src/LinkPass.py:3730-3742 | after the whole drop, every dropped live id has its ref at the target, and the live set is unchanged |
| BlockStore.DeleteSoftGone | src/LinkPass.py:3794-3803 | a soft-deleted block is no longer live |
| BlockStore.DeleteSoftKeeps | src/LinkPass.py:3794-3803 | every other block stays under its key |
| BlockStore.DeleteSoftConsistent | src/LinkPass.py:3794-3810 | the invariants survive with the block's index entry gone, and exactly that id leaves the live set |
| BlockStore.EntriesOf | src/LinkPass.py:3079-3081 | reference definition of the trash records of one key; what they contain is stated by BlockStore.TrashedHas and BlockStore.TrashedSize |
| BlockStore.Pruned | src/LinkPass.py:3078-3083 | reference definition of the map left after the sweep; what it keeps is stated by BlockStore.PrunedConsistent and BlockStore.SweptIds |
| BlockStore.TrashedHas | src/LinkPass.py:3078-3083 | a record is trashed iff it names a block of a swept key, under that key |
| BlockStore.TrashedSize | src/LinkPass.py:3078-3083 | one record per swept block |
| BlockStore.PrunedConsistent | src/LinkPass.py:3078-3083 | the invariants hold for the blocks left, and a live block goes iff its ref is a swept key |
| BlockStore.SweptIds | src/LinkPass.py:3078-3083 | the ids dropped from the search index are exactly the ids that stop being live |
| BlockStore.RestoreMap | src/LinkPass.py:3838 | reference definition of the restored map; what it does to the live set and the invariants is stated by BlockStore.RestoreLive and BlockStore.RestoreConsistent |
| BlockStore.RestoreLive | src/LinkPass.py:3838 | restoring adds exactly the block's id to the live set |
| BlockStore.RestoreConsistent | src/LinkPass.py:3838-3840 | restoring a block whose id is not live keeps the invariants, with its ref and index entry set |
| BlockStore.RemoveFirst | src/LinkPass.py:3841 | `list.remove(e)` takes one copy of `e` out of the trash, or changes nothing when `e` is absent |
| BlockStore.RemoveFirstAt | src/LinkPass.py:3829-3841 | when no earlier record equals the chosen one, `remove` deletes exactly the chosen position |
| BlockStore.OriginOfRename | src/LinkPass.py:3153-3157 | a renamed key lies under the new prefix and maps back to the key it came from |
| BlockStore.RenameOfOrigin | src/LinkPass.py:3153-3157 | every key under the new prefix is the rename of a key under the old one |
| BlockStore.RenameKeySame | src/LinkPass.py:3153-3157 | renaming to the same prefix maps every key to itself |
| BlockStore.RenamedShape | src/LinkPass.py:3151-3161 | each key under the old prefix is replaced by its renamed key. That key holds what was already there, then the moved list. Other keys are untouched |
| BlockStore.RenamedKeepsBlocks | src/LinkPass.py:3151-3161 | no block is lost: each sits at its renamed key or where it was |
| BlockStore.RenamedLive | src/LinkPass.py:3151-3161 | the rename keeps the set of live ids |
| BlockStore.RecategorizeNames | src/LinkPass.py:3162-3164 | after the final pass every block outside the root key has the key's last segment as category, and nothing else of it changes |
| BlockStore.ReindexFinish | src/LinkPass.py:3162-3166 | after the final pass every ref points at the block's key and every index text is current, and entries of ids that are not live are untouched |
| BlockStore.SelfUpdateLoses | src/LinkPass.py:3159-3161 | as written, renaming a key onto itself deletes the key and its list |
| BlockStore.MoveToOwnKeyLoses | src/LinkPass.py:3784-3787 | as written, moving a block to its own key leaves no block with its id under that key |
| BlockStore.MoveLiveShrinks | src/LinkPass.py:3784-3787 | a move to another key creates no new live id |
| BlockStore.MoveLiveGrows | src/LinkPass.py:3784-3787 | a move to another key loses no live id |
| BlockStore.ConsistentUnique | src/LinkPass.py:3732-3734 | under the id index's consistency every id occurs at one position of one key only |
| BlockStore.RenamedUnique | src/LinkPass.py:3151-3161 | the rename keeps ids unique |
| BlockStore.RecategorizeUnique | src/LinkPass.py:3162-3164 | setting categories keeps ids unique and the live set |
| BlockStore.FindById | src/LinkPass.py:3732-3734 | a found block is in the list and has the id; no block of the list has the id when none is found |
| BlockStore.RefLocates | src/LinkPass.py:3732-3736 | a live id whose ref is the target is found in the target's list |
| BlockStore.LiveFound | src/LinkPass.py:3732-3734 | under the invariant a live id's ref names a key whose list holds the block |
| VaultEngine.NewPrefix | src/LinkPass.py:3145 | at the top level the new prefix is the section's name; otherwise it lies under the new parent and ends with the name |
| VaultEngine.CleanName | src/LinkPass.py:3044 | the cleaned name has no byte order mark and no surrounding whitespace |
| VaultEngine.MoveKeys | src/LinkPass.py:3152-3161 | the `updates` loops produce `Renamed`, in whatever order the keys are taken. For `from == to` this is the corrected behaviour (the map is unchanged), not the source's, which deletes the keys (Findings row 1) |
| VaultEngine.Vault.constructor | src/LinkPass.py:1765-1780 | an empty vault (loading from disk left out) with data hidden and no section unlocked, satisfying the invariant |
| VaultEngine.Vault.UpdateIndexForBlock | src/LinkPass.py:2005-2013 | the block's id now maps to its index text, and nothing else in the index changes |
| VaultEngine.Vault.MoveBlock | src/LinkPass.py:3781-3790 | without a ref or at the root key nothing changes. Otherwise the state is one move step, and the invariant is kept. A move to the block's current key changes nothing, which corrects the source, where the block disappears (Findings row 2) |
| VaultEngine.Vault.Relocate | src/LinkPass.py:3784-3790 | one move of a block to another key is one move step, keeping the invariant; tree, trash and lock state are untouched |
| VaultEngine.Vault.DropOneBlock | src/LinkPass.py:3731-3742 | one iteration of the drop loop, skipping ids without a ref or already at the target |
| VaultEngine.Vault.DropBlocks | src/LinkPass.py:3730-3744 | the state is the drop of every id in order. Each dropped live id's ref is the target, and the live set and the invariant are kept |
| VaultEngine.Vault.SweepKey | src/LinkPass.py:3080-3083 | the key's blocks are appended to the trash in list order and leave the index, then the key goes |
| VaultEngine.Vault.SweepUnder | src/LinkPass.py:3078-3083 | every swept key goes. The trash gains one record per swept block, as a bag. The index loses exactly the swept ids |
| VaultEngine.Vault.DeleteSection | src/LinkPass.py:3060-3086 | when confirmed with a non-empty path: keys under the section are pruned, their blocks trashed and unindexed, and the node removed from the tree. Otherwise nothing changes. The invariant holds throughout |
| VaultEngine.Vault.DeleteBlockSoft | src/LinkPass.py:3794-3810 | when confirmed and the block has a non-empty ref: it leaves its key, a trash record is appended and its index entry goes. Otherwise nothing changes |
| VaultEngine.Vault.EnsureTreePath | src/LinkPass.py:2470-2479 | a non-empty key's path resolves afterwards; blocks, trash and refs are untouched |
| VaultEngine.Vault.PutBack | src/LinkPass.py:3838-3840 | the block is appended at its from-key and its ref and index text are set. The invariant holds again when its id was not live |
| VaultEngine.Vault.RestoreFromTrash | src/LinkPass.py:3815-3843 | a chosen record is taken out of the trash (first equal copy) and restored. The tree gains only the missing nodes of its key (none for the root key), and that path resolves. An empty trash or a cancelled choice changes nothing |
| VaultEngine.Vault.RestoreSelected | src/LinkPass.py:5169-5189 | a selected row is restored and deleted from the trash by position. The tree gains only the missing nodes of its key (none for the root key); a negative row changes nothing |
| VaultEngine.Vault.RenameKeys | src/LinkPass.py:3152-3161 | the block map becomes `Renamed` of the old one. For `from == to` that is the unchanged map, correcting the source's deletion (Findings row 1) |
| VaultEngine.Vault.ReindexKey | src/LinkPass.py:3162-3165 | one key's blocks get their category, ref and index text, and entries of other ids are untouched |
| VaultEngine.Vault.ReindexAll | src/LinkPass.py:3162-3166 | the map is recategorised, every ref and index text is current, and entries of ids that are not live are untouched |
| VaultEngine.Vault.RenameBlocksPrefix | src/LinkPass.py:3151-3166 | the map is the recategorised rename, the live set is unchanged and the invariant holds. For `from == to` the keys are kept, correcting the source's deletion (Findings row 1) |
| VaultEngine.Vault.MoveSection | src/LinkPass.py:3126-3150 | a resolved section moves in the tree and its keys are renamed onto the new prefix, with the live set and the invariant kept. Refs and index entries of ids that are not live are untouched; otherwise nothing changes. A top-level section moved to the root keeps its keys, correcting the source's deletion (Findings row 1) |
| VaultEngine.Vault.RenameSection | src/LinkPass.py:3037-3056 | a non-empty cleaned name replaces the node's name in place and renames its keys. Refs and index entries of ids that are not live are untouched. A cancelled, empty or unresolved rename changes nothing. Keeping the old name keeps the keys, correcting the source's deletion (Findings row 1) |
| VaultEngine.Vault.ReorderSection | src/LinkPass.py:2534-2543 | the sibling list is reordered in range and otherwise left as it was; nothing else changes |
| VaultEngine.Vault.VerifySectionPassword | src/LinkPass.py:2761-2775 | passes iff the path has no lock or the typed password hashes to the verifier. A successful check of a lock adds the section to the unlocked set, and nothing else changes |
| VaultEngine.Vault.ClearSectionPassword | src/LinkPass.py:2750-2760 | exactly when the section is locked and the password matches, the lock is popped and the section leaves the unlocked set; otherwise nothing changes |
| VaultEngine.Vault.CanShowBlockData | src/LinkPass.py:2781-2790 | true iff `show_data` is set and every locked prefix of the block's key is in the unlocked set |
| Rekey.Reseal | src/LinkPass.py:4001-4002 | the new token opens under the new key and reads back as the value read under the old key |
| Rekey.ResealedFields | src/LinkPass.py:4000-4002 | field names and order are kept and every value reads the same under the new key |
| Rekey.ResealedBlock | src/LinkPass.py:4049-4055 | id, title, category and field names are kept and field values read the same. Notes read the same when re-sealed and are left untouched otherwise |
| Rekey.ResealedMap | src/LinkPass.py:3998-4002 | reference definition of the re-keyed map; what it keeps is stated by Rekey.ResealedConsistent and Rekey.MigrateKeepsGood |
| Rekey.ResealFields | src/LinkPass.py:4000-4002 | the field loop computes the re-sealed field list |
| Rekey.ResealList | src/LinkPass.py:3999-4002 | the block loop computes the re-keyed list |
| Rekey.ResealAll | src/LinkPass.py:3998-4002 | the loop over `blocks_data` computes the re-keyed map |
| Rekey.ChangeMasterPasswordBlocks | src/LinkPass.py:3998-4002 | `change_master_password` re-seals field values only |
| Rekey.MigrateKdfBlocks | src/LinkPass.py:4049-4055 | `migrate_kdf_params` re-seals field values and notes |
| Rekey.ResealedIndexText | src/LinkPass.py:4049-4055 | a block re-keyed with its notes has, under the new key, the index text it had under the old key |
| Rekey.ResealedConsistent | src/LinkPass.py:3998-4002 | re-keying moves no block: the live set and the id index's consistency are unchanged |
| Rekey.MigrateKeepsGood | src/LinkPass.py:4049-4055 | after `migrate_kdf_params` the unchanged refs and index texts are still current under the new key |
| Rekey.ChangePasswordLeavesNotes | src/LinkPass.py:3998-4002 | after `change_master_password`, a note token that does not open under the new key reads back as the token itself. The index text changes only if the notes were an old-key token |

## Left out

- The Qt GUI is not part of this model: dialogs, rendering, tree items, cards and themes. Dialog answers are parameters.
- Real cryptography (Fernet, Argon2id, PBKDF2, SHA-256, the pepper) and random salts and nonces are abstract functions and parameters. `Sound` is the only assumption about them.
- File access, saving and fsync are left out: `atomic_write_json`, `save_*`, the zip backups, snapshots, the SQLite legacy index load and the attachment directories in re-keying.
- Audit logging, timestamps (the trash record's `ts`), threads and timers are left out.
- The section tree is a value in a field, updated by functions, not a graph of dicts changed in place. Aliasing between tree nodes is not modelled.
- `blocks_data` is a map without insertion order, so `delete_item` produces its trash records as a bag (a multiset), not in dict order.
- Block identity within a list is the block's id, not Python's `is`.
- `id_to_ref` maps an id to its key. The block half of the pair is the object `blocks_data` holds.
- ValueCodec.EncryptValue: values are strings; the `str(val)` conversion of a non-string value is not modelled.
- ValueCodec.DecryptValue: values are strings; the `str(val)` conversion of a non-string value is not modelled.
- Text.Lower: `lower()` is modelled for ASCII, Latin-1 and basic Cyrillic capitals only. Other scripts are left unchanged.
- A lock's salt is kept already decoded from Base64. A lock that is present but empty, or has missing keys, is not modelled.
- VaultEngine.Vault.DropBlocks: requires every dropped id that has a ref to be live. The source would re-append a trashed block through a stale ref.
- VaultEngine.Vault.DropOneBlock: finds the block by id in the list its ref names, not through the block object the ref holds.
- VaultEngine.Vault.MoveBlock: requires a block with a ref to be at its key. The source trusts its caller on that.
- VaultEngine.Vault.MoveBlock: corrected: a move to the block's current key keeps the block; the source deletes it (Findings row 2).
- VaultEngine.Vault.DeleteBlockSoft: requires a block with a ref to be at its key, as for `move_block`.
- VaultEngine.Vault.RenameBlocksPrefix: requires `RenamePre`, meaning no key `from + "/"` and no renamed key that is itself being renamed. Without it the result of the source depends on dict order.
- VaultEngine.MoveKeys: requires `RenamePre`, as above.
- VaultEngine.Vault.RenameKeys: requires `RenamePre`, as above.
- VaultEngine.MoveKeys: corrected: on `from == to` the keys are kept; the source deletes them (Findings row 1).
- VaultEngine.Vault.RenameKeys: corrected: on `from == to` the keys are kept; the source deletes them (Findings row 1).
- VaultEngine.Vault.RenameBlocksPrefix: corrected: on `from == to` the keys are kept; the source deletes them (Findings row 1).
- VaultEngine.Vault.MoveSection: requires `RenamePre` for its rename, as above. The dialog's check against moving a section into itself belongs to the caller.
- VaultEngine.Vault.RenameSection: requires `RenamePre` for its rename, as above.
- VaultEngine.Vault.MoveSection: corrected: moving a top-level section to the root keeps its keys; the source deletes them (Findings row 1).
- VaultEngine.Vault.RenameSection: corrected: accepting the unchanged name keeps the keys; the source deletes them (Findings row 1).
- VaultEngine.Vault.PutBack: keeps the invariant only when the restored id is not live. Restoring a second copy of a live block breaks the source's id index too.
- VaultEngine.Vault.RestoreFromTrash: the choice is the position `items.index(sel)`. The lookup of the label is left out.
- VaultEngine.Vault.RestoreSelected: the "no block data" branch does not arise, because a trash record always holds its block.
- `set_section_password`, `set_section_color`, `ensure_section_unlocked`, `ensure_chain_unlocked`, `is_path_locked` and section creation are left out.
- The rest of re-keying is left out: the attachment loops, the auth file and the swap of `self.fernet`. Trash records are re-keyed by neither method, as in the source.
- Container.LpxDecryptBytes: the key derivation is total. A frame tagged `A` whose salt is shorter than Argon2's minimum makes `argon2id_key` raise a hashing error before decryption; the model files that frame as `InvalidToken`.
- Container.LpexDecryptFileToBytes: the same short-salt case is filed as `InvalidToken`.
- Rekey.Reseal: a single nonce parameter stands for every fresh IV the new tokens draw.

## Findings

| source | as written | input that shows it | evidently intended | confidence | as-written member | corrected member |
|---|---|---|---|---|---|---|
| src/LinkPass.py:3159-3161 | `setdefault(nk, []).extend(self.blocks_data[k])` then `del self.blocks_data[k]`, also when `nk == k` | `rename_item` accepting the default name, or moving a top-level section to the root: `_rename_blocks_prefix("A", "A")` deletes key `A` and every key below it, with their blocks | a key renamed to itself keeps its list | high (not executed) | BlockStore.SelfUpdateLoses | VaultEngine.MoveKeys |
| src/LinkPass.py:3784-3787 | append the block under `target`, then filter it out of `old_key`'s list by identity | `move_block(b, k)` where `k` is `b`'s current key, offered by `move_block_dialog`: `b` disappears from `blocks_data` | moving a block to its own key changes nothing, as `on_blocks_dropped_to_section` guards | high (not executed) | BlockStore.MoveToOwnKeyLoses | VaultEngine.Vault.MoveBlock |
