/**
 * Key filters on dicts (steem/utils.py, `keep_in_dict` and
 * `remove_from_dict`, dict branch). A dict is its sequence of entries in
 * insertion order; the comprehension keeps that order.
 */
module DictFilter {
  import opened PyValue

  type Entries = seq<(string, Value)>

  predicate UniqueKeys(d: Entries) {
    forall i, j :: 0 <= i < j < |d| ==> d[i].0 != d[j].0
  }

  /** `keep_in_dict` (steem/utils.py:215-223): the entries whose key is allowed, in order. */
  function KeepInDict(d: Entries, allowedKeys: seq<string> := []): (r: Entries)
    ensures forall e :: e in r <==> e in d && e.0 in allowedKeys
    ensures |r| <= |d|
  {
    if d == [] then []
    else (if d[0].0 in allowedKeys then [d[0]] else []) + KeepInDict(d[1..], allowedKeys)
  }

  /** `remove_from_dict` (steem/utils.py:226-234): the entries whose key is not removed, in order. */
  function RemoveFromDict(d: Entries, removeKeys: seq<string> := []): (r: Entries)
    ensures forall e :: e in r <==> e in d && e.0 !in removeKeys
    ensures |r| <= |d|
  {
    if d == [] then []
    else (if d[0].0 !in removeKeys then [d[0]] else []) + RemoveFromDict(d[1..], removeKeys)
  }

  /** Keeping and removing the same keys split the dict: every entry goes to exactly one side. */
  lemma {:induction false} KeepAndRemovePartition(d: Entries, keys: seq<string>)
    ensures multiset(KeepInDict(d, keys)) + multiset(RemoveFromDict(d, keys)) == multiset(d)
    ensures forall e :: e in KeepInDict(d, keys) ==> e !in RemoveFromDict(d, keys)
  {
    if d != [] {
      var tail := d[1..];
      KeepAndRemovePartition(tail, keys);
      assert d == [d[0]] + tail;
      assert multiset(d) == multiset{d[0]} + multiset(tail);
      if d[0].0 in keys {
        assert KeepInDict(d, keys) == [d[0]] + KeepInDict(tail, keys);
        assert RemoveFromDict(d, keys) == RemoveFromDict(tail, keys);
      } else {
        assert KeepInDict(d, keys) == KeepInDict(tail, keys);
        assert RemoveFromDict(d, keys) == [d[0]] + RemoveFromDict(tail, keys);
      }
    }
  }

  /** `keep_in_dict` keeps the dict's order: it distributes over concatenation. */
  lemma {:induction false} KeepPreservesOrder(d1: Entries, d2: Entries, keys: seq<string>)
    ensures KeepInDict(d1 + d2, keys) == KeepInDict(d1, keys) + KeepInDict(d2, keys)
  {
    if d1 == [] {
      assert d1 + d2 == d2;
    } else {
      assert (d1 + d2)[1..] == d1[1..] + d2;
      assert (d1 + d2)[0] == d1[0];
      KeepPreservesOrder(d1[1..], d2, keys);
    }
  }

  /** `remove_from_dict` keeps the dict's order: it distributes over concatenation. */
  lemma {:induction false} RemovePreservesOrder(d1: Entries, d2: Entries, keys: seq<string>)
    ensures RemoveFromDict(d1 + d2, keys) == RemoveFromDict(d1, keys) + RemoveFromDict(d2, keys)
  {
    if d1 == [] {
      assert d1 + d2 == d2;
    } else {
      assert (d1 + d2)[1..] == d1[1..] + d2;
      assert (d1 + d2)[0] == d1[0];
      RemovePreservesOrder(d1[1..], d2, keys);
    }
  }

  /** Both filters of a dict give a dict: the keys of the result are unique. */
  lemma {:induction false} FiltersKeepUniqueKeys(d: Entries, keys: seq<string>)
    requires UniqueKeys(d)
    ensures UniqueKeys(KeepInDict(d, keys)) && UniqueKeys(RemoveFromDict(d, keys))
  {
    if d != [] {
      var tail := d[1..];
      assert UniqueKeys(tail) by {
        forall i, j | 0 <= i < j < |tail| ensures tail[i].0 != tail[j].0 {
          assert tail[i] == d[i + 1] && tail[j] == d[j + 1];
        }
      }
      FiltersKeepUniqueKeys(tail, keys);
      forall e | e in tail ensures e.0 != d[0].0 {
        var m :| 0 <= m < |tail| && tail[m] == e;
        assert d[m + 1] == e;
      }
      ConsKeepsUniqueKeys(d[0], KeepInDict(tail, keys));
      ConsKeepsUniqueKeys(d[0], RemoveFromDict(tail, keys));
    }
  }

  lemma ConsKeepsUniqueKeys(e: (string, Value), rest: Entries)
    requires UniqueKeys(rest)
    requires forall x :: x in rest ==> x.0 != e.0
    ensures UniqueKeys([e] + rest)
  {
  }

  /** With the default empty key list, `keep_in_dict` gives `{}` and `remove_from_dict` a copy. */
  lemma {:induction false} DefaultKeyLists(d: Entries)
    ensures KeepInDict(d) == [] && RemoveFromDict(d) == d
  {
    if d != [] {
      DefaultKeyLists(d[1..]);
    }
  }
}
