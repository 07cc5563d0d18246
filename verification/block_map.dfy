/**
 * The block map as Immutable.js sees it during a merge: an ordered sequence of
 * (key, value) entries in which a value may be `null`. Range deletion writes
 * `null` over the blocks it drops, merges, and then filters the nulls out.
 */
module BlockMap {
  import opened Nullable
  import opened ContentModel

  datatype Entry = Entry(key: string, value: Option<Block>)

  /** The entries of a block map whose values are all present. */
  function Entries(blocks: seq<Block>): (r: seq<Entry>)
    ensures |r| == |blocks|
    ensures forall p :: 0 <= p < |blocks| ==> r[p] == Entry(blocks[p].key, Some(blocks[p]))
  {
    seq(|blocks|, p requires 0 <= p < |blocks| => Entry(blocks[p].key, Some(blocks[p])))
  }

  /** Position of the first entry under `k`, if any. */
  function EntryIndex(m: seq<Entry>, k: string): (r: Option<nat>)
    ensures r.Some? ==> r.value < |m| && m[r.value].key == k
    ensures r.Some? ==> forall q :: 0 <= q < r.value ==> m[q].key != k
    ensures r.None? ==> forall q :: 0 <= q < |m| ==> m[q].key != k
  {
    if |m| == 0 then None
    else if m[0].key == k then Some(0)
    else match EntryIndex(m[1..], k)
      case None => None
      case Some(i) => Some(i + 1)
  }

  /** The value stored under `k`, if `k` is a key at all. */
  function Lookup(m: seq<Entry>, k: string): Option<Option<Block>>
  {
    match EntryIndex(m, k)
    case None => None
    case Some(i) => Some(m[i].value)
  }

  predicate DistinctKeys(m: seq<Entry>)
  {
    forall p, q :: 0 <= p < q < |m| ==> m[p].key != m[q].key
  }

  /** Every key of `updates` is already a key of `m`. */
  predicate KeysWithin(updates: seq<Entry>, m: seq<Entry>)
  {
    forall q :: 0 <= q < |updates| ==> EntryIndex(m, updates[q].key).Some?
  }

  /** `orderedMap.set(k, v)`: replaces the value in place, or appends a new key at the end. */
  function SetEntry(m: seq<Entry>, k: string, v: Option<Block>): seq<Entry>
  {
    match EntryIndex(m, k)
    case Some(i) => m[..i] + [Entry(k, v)] + m[i + 1..]
    case None => m + [Entry(k, v)]
  }

  /** `orderedMap.merge(updates)`: sets every update, in order. */
  function Merge(m: seq<Entry>, updates: seq<Entry>): seq<Entry>
    decreases |updates|
  {
    if |updates| == 0 then m
    else Merge(SetEntry(m, updates[0].key, updates[0].value), updates[1..])
  }

  /** `.filter(block => !!block)`, read back as the blocks that remain. */
  function Present(m: seq<Entry>): seq<Block>
  {
    if |m| == 0 then [] else ToSeq(m[0].value) + Present(m[1..])
  }

  /** Setting a key that is present rewrites its entry in place and nothing else. */
  lemma SetInPlace(m: seq<Entry>, k: string, v: Option<Block>)
    requires EntryIndex(m, k).Some?
    ensures var m' := SetEntry(m, k, v);
      && |m'| == |m|
      && (forall p :: 0 <= p < |m| ==> m'[p].key == m[p].key)
      && (forall p :: 0 <= p < |m| ==> m'[p] == if p == EntryIndex(m, k).value then Entry(k, v) else m[p])
  {
    var i := EntryIndex(m, k).value;
    var m' := SetEntry(m, k, v);
    assert m' == m[..i] + [Entry(k, v)] + m[i + 1..];
    forall p | 0 <= p < |m| && p != i ensures m'[p] == m[p] {
      if p < i {
        assert m'[p] == m[..i][p];
      } else {
        assert m'[p] == m[i + 1..][p - i - 1];
      }
    }
  }

  /** Rewriting values in place keeps the keys distinct. */
  lemma SameKeysDistinct(m: seq<Entry>, m': seq<Entry>)
    requires DistinctKeys(m) && |m'| == |m|
    requires forall p :: 0 <= p < |m| ==> m'[p].key == m[p].key
    ensures DistinctKeys(m')
  {
  }

  /** Looking a key up in a keyed sequence with distinct keys, one entry at a time. */
  lemma LookupTail(updates: seq<Entry>, key: string)
    requires DistinctKeys(updates) && |updates| > 0
    ensures key == updates[0].key ==> Lookup(updates, key) == Some(updates[0].value)
    ensures key == updates[0].key ==> Lookup(updates[1..], key).None?
    ensures key != updates[0].key ==> Lookup(updates, key) == Lookup(updates[1..], key)
  {
    var rest := updates[1..];
    if key == updates[0].key {
      forall q | 0 <= q < |rest| ensures rest[q].key != key {
        assert rest[q] == updates[q + 1];
      }
    }
  }

  /** Every key of the updates is still a key after one in-place set. */
  lemma KeysStillWithin(rest: seq<Entry>, m: seq<Entry>, m': seq<Entry>)
    requires KeysWithin(rest, m) && |m'| == |m|
    requires forall p :: 0 <= p < |m| ==> m'[p].key == m[p].key
    ensures KeysWithin(rest, m')
  {
    forall q | 0 <= q < |rest|
      ensures EntryIndex(m', rest[q].key).Some?
    {
      var j := EntryIndex(m, rest[q].key).value;
      assert m'[j].key == rest[q].key;
    }
  }

  /**
   * Merging updates whose keys are distinct and already present changes no
   * key and no position: each entry takes its update's value when it has one
   * and keeps its own otherwise.
   */
  lemma {:induction false} MergeInPlace(m: seq<Entry>, updates: seq<Entry>)
    requires DistinctKeys(m) && DistinctKeys(updates) && KeysWithin(updates, m)
    ensures |Merge(m, updates)| == |m|
    ensures forall p :: 0 <= p < |m| ==>
      Merge(m, updates)[p] ==
        (match Lookup(updates, m[p].key)
         case Some(v) => Entry(m[p].key, v)
         case None => m[p])
    decreases |updates|
  {
    if |updates| > 0 {
      var k, v := updates[0].key, updates[0].value;
      var m' := SetEntry(m, k, v);
      var rest := updates[1..];
      assert updates[0] == Entry(k, v);
      SetInPlace(m, k, v);
      SameKeysDistinct(m, m');
      assert DistinctKeys(rest) by {
        forall p, q | 0 <= p < q < |rest| ensures rest[p].key != rest[q].key {
          assert rest[p] == updates[p + 1] && rest[q] == updates[q + 1];
        }
      }
      assert KeysWithin(rest, m) by {
        forall q | 0 <= q < |rest| ensures EntryIndex(m, rest[q].key).Some? {
          assert rest[q] == updates[q + 1];
        }
      }
      KeysStillWithin(rest, m, m');
      MergeInPlace(m', rest);
      assert Merge(m, updates) == Merge(m', rest);
      forall p | 0 <= p < |m|
        ensures Merge(m, updates)[p] ==
          (match Lookup(updates, m[p].key)
           case Some(v) => Entry(m[p].key, v)
           case None => m[p])
      {
        assert (m[p].key == k) == (p == EntryIndex(m, k).value);
        LookupTail(updates, m[p].key);
      }
    }
  }

  lemma {:induction false} PresentAppend(a: seq<Entry>, b: seq<Entry>)
    ensures Present(a + b) == Present(a) + Present(b)
    decreases |a|
  {
    if |a| == 0 {
      assert a + b == b;
    } else {
      assert (a + b)[0] == a[0];
      assert (a + b)[1..] == a[1..] + b;
      PresentAppend(a[1..], b);
    }
  }

  /** Filtering a map with no null value gives back its blocks. */
  lemma {:induction false} PresentEntries(blocks: seq<Block>)
    ensures Present(Entries(blocks)) == blocks
    decreases |blocks|
  {
    if |blocks| > 0 {
      assert Entries(blocks)[1..] == Entries(blocks[1..]);
      PresentEntries(blocks[1..]);
    }
  }

  /** Filtering entries that are all null leaves nothing. */
  lemma {:induction false} PresentAllNull(m: seq<Entry>)
    requires forall p :: 0 <= p < |m| ==> m[p].value.None?
    ensures Present(m) == []
    decreases |m|
  {
    if |m| > 0 {
      PresentAllNull(m[1..]);
    }
  }
}
