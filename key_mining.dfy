/**
 * Key mining over post metadata (steem/utils.py, `findkeys` and
 * `extract_keys_from_meta`): a depth-first search of a value tree for every
 * value stored under a key, and a collector that flattens the hits.
 */
module KeyMining {
  import opened PyValue

  /**
   * `findkeys(node, kv)` (steem/utils.py:105-115), the generator's output as a
   * sequence. Lists are searched element by element; a dict yields its own
   * `kv` entry first, then the hits in each of its values; everything else,
   * tuples included, yields nothing.
   */
  function FindKeys(node: Value, kv: string): (r: seq<Value>)
    decreases node, 1
    // every value yielded is a proper part of the tree searched
    ensures forall x :: x in r ==> x < node
  {
    match node
    case List(xs) => FindKeysInList(xs, kv)
    case Dict(es) =>
      var own := if HasKey(es, kv) then [Lookup(es, kv)] else [];
      assert forall x :: x in own ==> x < node by {
        if HasKey(es, kv) {
          var i :| 0 <= i < |es| && es[i] == (kv, Lookup(es, kv));
          assert es[i].1 < es[i];
        }
      }
      own + FindKeysInValues(es, kv)
    case _ => []
  }

  function FindKeysInList(xs: seq<Value>, kv: string): (r: seq<Value>)
    decreases xs, 0
    ensures forall x :: x in r ==> exists i :: 0 <= i < |xs| && x < xs[i]
  {
    if xs == [] then []
    else
      var head, rest := FindKeys(xs[0], kv), FindKeysInList(xs[1..], kv);
      assert forall x :: x in rest ==> exists i :: 0 <= i < |xs| && x < xs[i] by {
        forall x | x in rest ensures exists i :: 0 <= i < |xs| && x < xs[i] {
          var j :| 0 <= j < |xs[1..]| && x < xs[1..][j];
          assert xs[j + 1] == xs[1..][j];
        }
      }
      head + rest
  }

  function FindKeysInValues(es: seq<(string, Value)>, kv: string): (r: seq<Value>)
    decreases es, 0
    ensures forall x :: x in r ==> exists i :: 0 <= i < |es| && x < es[i].1
  {
    if es == [] then []
    else
      assert es[0].1 < es[0];
      var head, rest := FindKeys(es[0].1, kv), FindKeysInValues(es[1..], kv);
      assert forall x :: x in rest ==> exists i :: 0 <= i < |es| && x < es[i].1 by {
        forall x | x in rest ensures exists i :: 0 <= i < |es| && x < es[i].1 {
          var j :| 0 <= j < |es[1..]| && x < es[1..][j].1;
          assert es[j + 1] == es[1..][j];
        }
      }
      head + rest
  }

  // ---------------------------------------------------------------------------
  // An independent description of the search: list the nodes it reaches (it
  // descends into lists and dicts, never into tuples) in depth-first pre-order,
  // then read `kv` off every dict that has it.

  /** Every node the search visits, in the order it visits them. */
  function Preorder(node: Value): (nodes: seq<Value>)
    decreases node, 1
    ensures |nodes| >= 1 && nodes[0] == node
  {
    [node] +
      match node
      case List(xs) => PreorderList(xs)
      case Dict(es) => PreorderValues(es)
      case _ => []
  }

  function PreorderList(xs: seq<Value>): seq<Value>
    decreases xs, 0
  {
    if xs == [] then [] else Preorder(xs[0]) + PreorderList(xs[1..])
  }

  function PreorderValues(es: seq<(string, Value)>): seq<Value>
    decreases es, 0
  {
    if es == [] then []
    else
      assert es[0].1 < es[0];
      Preorder(es[0].1) + PreorderValues(es[1..])
  }

  /** `n` is a dict that has the key `kv`. */
  predicate HoldsKey(n: Value, kv: string) {
    n.Dict? && HasKey(n.entries, kv)
  }

  /** The values under `kv` of the nodes that are dicts holding it, in order. */
  function Hits(nodes: seq<Value>, kv: string): seq<Value> {
    if nodes == [] then []
    else (if HoldsKey(nodes[0], kv) then [Lookup(nodes[0].entries, kv)] else []) + Hits(nodes[1..], kv)
  }

  /** How many of `nodes` are dicts holding `kv`. */
  function CountHolding(nodes: seq<Value>, kv: string): nat {
    if nodes == [] then 0
    else (if HoldsKey(nodes[0], kv) then 1 else 0) + CountHolding(nodes[1..], kv)
  }

  lemma {:induction false} HitsAppend(a: seq<Value>, b: seq<Value>, kv: string)
    ensures Hits(a + b, kv) == Hits(a, kv) + Hits(b, kv)
  {
    if a != [] {
      assert (a + b)[1..] == a[1..] + b;
      HitsAppend(a[1..], b, kv);
    } else {
      assert a + b == b;
    }
  }

  /** `findkeys` yields exactly the `kv` values of the dicts the search reaches (through lists and dicts, never tuples), in pre-order. */
  lemma {:induction false} FindKeysIsPreorderHits(node: Value, kv: string)
    ensures FindKeys(node, kv) == Hits(Preorder(node), kv)
    decreases node, 1
  {
    var below := Preorder(node)[1..];
    assert Preorder(node) == [node] + below;
    HitsAppend([node], below, kv);
    assert Hits([node], kv) == if HoldsKey(node, kv) then [Lookup(node.entries, kv)] else [];
    match node {
      case List(xs) => FindKeysInListIsHits(xs, kv);
      case Dict(es) => FindKeysInValuesIsHits(es, kv);
      case _ =>
    }
  }

  lemma {:induction false} FindKeysInListIsHits(xs: seq<Value>, kv: string)
    ensures FindKeysInList(xs, kv) == Hits(PreorderList(xs), kv)
    decreases xs, 0
  {
    if xs != [] {
      FindKeysIsPreorderHits(xs[0], kv);
      FindKeysInListIsHits(xs[1..], kv);
      HitsAppend(Preorder(xs[0]), PreorderList(xs[1..]), kv);
    }
  }

  lemma {:induction false} FindKeysInValuesIsHits(es: seq<(string, Value)>, kv: string)
    ensures FindKeysInValues(es, kv) == Hits(PreorderValues(es), kv)
    decreases es, 0
  {
    if es != [] {
      assert es[0].1 < es[0];
      FindKeysIsPreorderHits(es[0].1, kv);
      FindKeysInValuesIsHits(es[1..], kv);
      HitsAppend(Preorder(es[0].1), PreorderValues(es[1..]), kv);
    }
  }

  lemma {:induction false} HitsCountAndOrigin(nodes: seq<Value>, kv: string)
    ensures |Hits(nodes, kv)| == CountHolding(nodes, kv)
    ensures forall x :: x in Hits(nodes, kv) ==>
      exists i :: 0 <= i < |nodes| && HoldsKey(nodes[i], kv) && Lookup(nodes[i].entries, kv) == x
  {
    if nodes != [] {
      HitsCountAndOrigin(nodes[1..], kv);
      forall x | x in Hits(nodes, kv)
        ensures exists i :: 0 <= i < |nodes| && HoldsKey(nodes[i], kv) && Lookup(nodes[i].entries, kv) == x
      {
        if x !in Hits(nodes[1..], kv) {
          assert HoldsKey(nodes[0], kv) && Lookup(nodes[0].entries, kv) == x;
        } else {
          var i :| 0 <= i < |nodes[1..]| && HoldsKey(nodes[1..][i], kv) && Lookup(nodes[1..][i].entries, kv) == x;
          assert nodes[i + 1] == nodes[1..][i];
        }
      }
    }
  }

  /**
   * What `findkeys` promises: scalars and tuples yield nothing; a dict holding
   * `kv` yields its own value first; every hit is the `kv` value of some dict
   * node the search reaches; and there is one hit per such dict node. The
   * search descends into lists and dicts, never into tuples, so a tuple is the
   * only node it reaches from itself.
   */
  lemma FindKeysProperties(node: Value, kv: string)
    ensures !node.List? && !node.Dict? ==> FindKeys(node, kv) == []
    ensures HoldsKey(node, kv) ==> |FindKeys(node, kv)| >= 1 && FindKeys(node, kv)[0] == Lookup(node.entries, kv)
    ensures forall x :: x in FindKeys(node, kv) ==>
      exists i :: 0 <= i < |Preorder(node)| && HoldsKey(Preorder(node)[i], kv)
        && Lookup(Preorder(node)[i].entries, kv) == x
    ensures |FindKeys(node, kv)| == CountHolding(Preorder(node), kv)
    ensures node.Tuple? ==> Preorder(node) == [node]
  {
    FindKeysIsPreorderHits(node, kv);
    HitsCountAndOrigin(Preorder(node), kv);
  }

  /** The example of a nested key: `findkeys({"a": {"a": 1, "b": 2}}, "a")`. */
  lemma NestedKeyExample()
    ensures var inner := Dict([("a", Number(1.0)), ("b", Number(2.0))]);
      FindKeys(Dict([("a", inner)]), "a") == [inner, Number(1.0)]
  {
    var ies := [("a", Number(1.0)), ("b", Number(2.0))];
    var inner := Dict(ies);
    var oes := [("a", inner)];
    assert ies[1..][1..] == [] && oes[1..] == [];
    assert FindKeysInValues(ies[1..], "a") == [];
    assert FindKeysInValues(ies, "a") == [];
    assert HasKey(ies, "a") by { assert ies[0].0 == "a"; }
    assert FindKeys(inner, "a") == [Number(1.0)];
    assert FindKeysInValues(oes, "a") == [Number(1.0)];
    assert HasKey(oes, "a") by { assert oes[0].0 == "a"; }
  }

  // ---------------------------------------------------------------------------
  // extract_keys_from_meta

  /** The `keys` argument: one key name, or a list of them. */
  datatype Keys = OneKey(key: string) | KeyList(names: seq<string>)

  /** The key names to search for; a single key stands for a list of one. */
  function KeyNames(keys: Keys): seq<string> {
    match keys
    case OneKey(k) => [k]
    case KeyList(ks) => ks
  }

  /** What one hit adds: a string itself, the elements of a list or tuple, nothing otherwise. */
  function Contribution(item: Value): seq<Value> {
    match item
    case Str(_) => [item]
    case List(xs) => xs
    case Tuple(xs) => xs
    case _ => []
  }

  /** The contributions of `hits`, in order. */
  function Collected(hits: seq<Value>): seq<Value> {
    if hits == [] then [] else Contribution(hits[0]) + Collected(hits[1..])
  }

  /** The contributions of the hits of each key of `names`, key by key. */
  function Extracted(meta: Value, names: seq<string>): seq<Value> {
    if names == [] then [] else Collected(FindKeys(meta, names[0])) + Extracted(meta, names[1..])
  }

  lemma {:induction false} CollectedSnoc(hits: seq<Value>, h: Value)
    ensures Collected(hits + [h]) == Collected(hits) + Contribution(h)
  {
    if hits == [] {
      assert [h][1..] == [];
    } else {
      assert (hits + [h])[1..] == hits[1..] + [h];
      CollectedSnoc(hits[1..], h);
    }
  }

  lemma {:induction false} ExtractedSnoc(meta: Value, names: seq<string>, k: string)
    ensures Extracted(meta, names + [k]) == Extracted(meta, names) + Collected(FindKeys(meta, k))
  {
    if names == [] {
      assert [k][1..] == [];
    } else {
      assert (names + [k])[1..] == names[1..] + [k];
      ExtractedSnoc(meta, names[1..], k);
    }
  }

  /**
   * The inner loop of `extract_keys_from_meta` (steem/utils.py:123-129):
   * append a string hit, extend by a list or tuple hit, drop anything else.
   */
  method ExtendWithHits(extracted: seq<Value>, hits: seq<Value>) returns (r: seq<Value>)
    ensures r == extracted + Collected(hits)
  {
    r := extracted;
    for j := 0 to |hits|
      invariant r == extracted + Collected(hits[..j])
    {
      var item := hits[j];
      assert hits[..j + 1] == hits[..j] + [item];
      CollectedSnoc(hits[..j], item);
      if item.Str? {
        r := r + [item];
      } else if item.List? || item.Tuple? {
        r := r + item.items;
      }
    }
    assert hits[..|hits|] == hits;
  }

  /** `extract_keys_from_meta(meta, keys)` (steem/utils.py:118-130). */
  method ExtractKeysFromMeta(meta: Value, keys: Keys) returns (extracted: seq<Value>)
    ensures extracted == Extracted(meta, KeyNames(keys))
    ensures keys.OneKey? ==> extracted == Collected(FindKeys(meta, keys.key))
  {
    var names := KeyNames(keys);
    extracted := [];
    for i := 0 to |names|
      invariant extracted == Extracted(meta, names[..i])
    {
      var hits := FindKeys(meta, names[i]);
      extracted := ExtendWithHits(extracted, hits);
      assert names[..i + 1] == names[..i] + [names[i]];
      ExtractedSnoc(meta, names[..i], names[i]);
    }
    assert names[..|names|] == names;
    if keys.OneKey? {
      ExtractedOneKey(meta, keys.key);
    }
  }

  lemma ExtractedOneKey(meta: Value, k: string)
    ensures Extracted(meta, [k]) == Collected(FindKeys(meta, k))
  {
    assert [k][1..] == [];
  }

  lemma {:induction false} CollectedMembers(hits: seq<Value>, x: Value)
    ensures x in Collected(hits) <==> exists h :: h in hits && x in Contribution(h)
  {
    if hits != [] {
      CollectedMembers(hits[1..], x);
      if x in Contribution(hits[0]) {
        assert hits[0] in hits;
      }
      if exists h :: h in hits && x in Contribution(h) {
        var h :| h in hits && x in Contribution(h);
        if h != hits[0] {
          assert h in hits[1..];
        }
      }
    }
  }

  lemma {:induction false} ExtractedByKey(meta: Value, names: seq<string>, x: Value)
    ensures x in Extracted(meta, names) <==> exists k :: k in names && x in Collected(FindKeys(meta, k))
  {
    if names != [] {
      ExtractedByKey(meta, names[1..], x);
      if exists k :: k in names && x in Collected(FindKeys(meta, k)) {
        var k :| k in names && x in Collected(FindKeys(meta, k));
        if k != names[0] {
          assert k in names[1..];
        }
      }
    }
  }

  /**
   * Both directions of what the extractor collects: `x` is in the result
   * exactly when, for some key, some hit is the string `x`, or a list or tuple
   * with `x` among its elements.
   */
  lemma ExtractedMembers(meta: Value, names: seq<string>, x: Value)
    ensures x in Extracted(meta, names) <==>
      exists k, h :: k in names && h in FindKeys(meta, k) && x in Contribution(h)
  {
    ExtractedByKey(meta, names, x);
    forall k | k in names {
      CollectedMembers(FindKeys(meta, k), x);
    }
  }

  /** The example of a list-valued key: `extract_keys_from_meta({"tags": ["x", "y"]}, "tags")`. */
  lemma TagsExample()
    ensures Extracted(Dict([("tags", List([Str("x"), Str("y")]))]), KeyNames(OneKey("tags")))
      == [Str("x"), Str("y")]
  {
    var xs := [Str("x"), Str("y")];
    var es := [("tags", List(xs))];
    assert xs[1..][1..] == [] && es[1..] == [];
    assert FindKeysInList(xs[1..], "tags") == [];
    assert FindKeysInList(xs, "tags") == [];
    assert FindKeysInValues(es, "tags") == [];
    assert HasKey(es, "tags") by { assert es[0].0 == "tags"; }
    assert FindKeys(Dict(es), "tags") == [List(xs)];
    assert Collected([List(xs)]) == xs by { assert [List(xs)][1..] == []; }
    assert ["tags"][1..] == [];
  }
}
