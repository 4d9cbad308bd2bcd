/** The plaintext search index (`IndexDB`): block id -> searchable text, kept
    in a dictionary whose key order (Python's insertion order) is the order
    `search` answers in. Loading it from disk and saving it are outside the model. */
module SearchIndex {
  import opened Wrappers
  import opened Text

  /** `(query or "").strip().lower()`. */
  function NormalizeQuery(query: Option<string>): string {
    Lower(Strip(query.GetOr("")))
  }

  /** The query is empty after normalisation exactly when it is absent or all whitespace. */
  lemma NormalizeQueryEmpty(query: Option<string>)
    ensures NormalizeQuery(query) == "" <==> forall i :: 0 <= i < |query.GetOr("")| ==> IsSpace(query.GetOr("")[i])
  {
    StripSpec(query.GetOr(""));
  }

  /** `q in txt.lower()`. */
  predicate Matches(q: string, txt: string) {
    Contains(Lower(txt), q)
  }

  /** The ids of `ks`, in order, whose text matches `q`. */
  function MatchingIds(ks: seq<string>, data: map<string, string>, q: string): (r: seq<string>)
    requires forall k :: k in ks ==> k in data
    ensures forall id :: id in r <==> id in ks && Matches(q, data[id])
    ensures |r| <= |ks|
  {
    if ks == [] then []
    else
      var last := ks[|ks| - 1];
      assert forall k :: k in ks[..|ks| - 1] ==> k in ks;
      assert ks == ks[..|ks| - 1] + [last];
      MatchingIds(ks[..|ks| - 1], data, q) + (if Matches(q, data[last]) then [last] else [])
  }

  /** Filtering keeps the relative order of what it keeps, so on duplicate-free
      keys the answer is duplicate-free as well. */
  lemma {:induction false} MatchingIdsDistinct(ks: seq<string>, data: map<string, string>, q: string)
    requires forall k :: k in ks ==> k in data
    requires forall i, j :: 0 <= i < j < |ks| ==> ks[i] != ks[j]
    ensures var r := MatchingIds(ks, data, q); forall i, j :: 0 <= i < j < |r| ==> r[i] != r[j]
  {
    if ks != [] {
      var last := ks[|ks| - 1];
      var init := ks[..|ks| - 1];
      assert forall k :: k in init ==> k in ks;
      MatchingIdsDistinct(init, data, q);
      assert last !in init;
      assert last !in MatchingIds(init, data, q);
    }
  }

  /** `remove` of one key from the key order, keeping the rest in place. */
  function RemoveKey(ks: seq<string>, k: string): (r: seq<string>)
    ensures forall x :: x in r <==> x in ks && x != k
    ensures (forall i, j :: 0 <= i < j < |ks| ==> ks[i] != ks[j]) ==> forall i, j :: 0 <= i < j < |r| ==> r[i] != r[j]
  {
    if ks == [] then []
    else if ks[0] == k then RemoveKey(ks[1..], k)
    else
      var rest := RemoveKey(ks[1..], k);
      assert (forall i, j :: 0 <= i < j < |ks| ==> ks[i] != ks[j]) ==>
        && (forall i, j :: 0 <= i < j < |ks[1..]| ==> ks[1..][i] != ks[1..][j])
        && ks[0] !in ks[1..];
      [ks[0]] + rest
  }

  class IndexDB {
    /** `_data`. */
    var data: map<string, string>
    /** The iteration order of `_data`'s keys. */
    var keys: seq<string>

    ghost predicate Valid()
      reads this
    {
      && (forall i, j :: 0 <= i < j < |keys| ==> keys[i] != keys[j])
      && (forall k :: k in data <==> k in keys)
    }

    /** An empty index (a path that does not exist yet). */
    constructor ()
      ensures Valid() && data == map[] && keys == []
    {
      data := map[];
      keys := [];
    }

    /** `clear`. */
    method Clear()
      modifies this
      ensures Valid() && data == map[] && keys == []
    {
      data := map[];
      keys := [];
    }

    /** `upsert`: stores `text or ""` under the id; a new id goes to the end of
        the key order, an existing one keeps its place; nothing else changes. */
    method Upsert(blockId: string, text: Option<string>)
      requires Valid()
      modifies this
      ensures Valid()
      ensures data == old(data)[blockId := text.GetOr("")]
      ensures keys == if blockId in old(data) then old(keys) else old(keys) + [blockId]
    {
      if blockId !in data {
        keys := keys + [blockId];
      }
      data := data[blockId := text.GetOr("")];
    }

    /** `delete`: removes that id only, and does nothing when it is absent. */
    method Delete(blockId: string)
      requires Valid()
      modifies this
      ensures Valid()
      ensures data == old(data) - {blockId}
      ensures blockId !in old(data) ==> keys == old(keys)
      ensures keys == RemoveKey(old(keys), blockId)
    {
      if blockId in data {
        data := data - {blockId};
        keys := RemoveKey(keys, blockId);
      } else {
        assert RemoveKey(keys, blockId) == keys by { RemoveAbsent(keys, blockId); }
      }
    }

    /** `search`: every id for an empty normalised query; otherwise exactly the
        ids whose lower-cased text contains the normalised query, in key order,
        without repetition. */
    method Search(query: Option<string>) returns (r: seq<string>)
      requires Valid()
      ensures NormalizeQuery(query) == "" ==> r == keys
      ensures NormalizeQuery(query) != "" ==>
        forall id :: id in r <==> id in data && Matches(NormalizeQuery(query), data[id])
      ensures NormalizeQuery(query) != "" ==> r == MatchingIds(keys, data, NormalizeQuery(query))
      ensures forall i, j :: 0 <= i < j < |r| ==> r[i] != r[j]
    {
      var q := Lower(Strip(query.GetOr("")));
      if q == "" {
        return keys;
      }
      r := [];
      var i := 0;
      while i < |keys|
        invariant 0 <= i <= |keys|
        invariant forall k :: k in keys[..i] ==> k in data
        invariant r == MatchingIds(keys[..i], data, q)
      {
        assert keys[..i + 1][..i] == keys[..i];
        if Contains(Lower(data[keys[i]]), q) {
          r := r + [keys[i]];
        }
        i := i + 1;
      }
      assert keys[..i] == keys;
      MatchingIdsDistinct(keys, data, q);
    }
  }

  lemma {:induction false} RemoveAbsent(ks: seq<string>, k: string)
    requires k !in ks
    ensures RemoveKey(ks, k) == ks
  {
    if ks != [] {
      RemoveAbsent(ks[1..], k);
    }
  }
}
