# steem-python utilities: a verified Dafny model

This project models the computational core of `steem/utils.py`, the helper module of a
blockchain indexing pipeline for the Steem chain:

- **block numbers**: a block id is a hex string whose first four bytes, i.e. its first
  eight hex digits, are the block number (`block_num_from_hash`, `block_num_from_previous`);
- **batching**: a sequence is cut into chunks of `chunksize` items (`chunkify`);
- **metadata decoding**: a post's `json_metadata` may arrive decoded, JSON-encoded once or
  JSON-encoded twice, and is normalised to a decoded value (a non-empty list or dict given as
  is, a dict from one parse, or whatever a second parse gives) or None (`ensure_decoded`);
- **key mining**: a depth-first search of a metadata tree for every value under a key
  (`findkeys`), and a collector that flattens the hits for several keys (`extract_keys_from_meta`);
- **block digest**: counts of a block's transactions and operations, and the type of each
  transaction's first operation (`block_info`);
- **small helpers**: key filters on dicts (`keep_in_dict`, `remove_from_dict`), the reply test
  `is_comment` and the URL builder `build_comment_url`.

Python values are the datatype `PyValue.Value` (None, bool, number, str, list, tuple, dict).
A dict is an ordered sequence of `(key, value)` entries, because Python dicts keep
insertion order and the order in which `findkeys` reports hits depends on it. Tuples are a
separate constructor because the code treats them differently from lists: `findkeys` does
not descend into them, `extract_keys_from_meta` splices them like lists.

`json.loads` is a parameter `parse: string -> Option<Value>` of the decoder; `None` stands for
the exception it raises on unreadable text. The block preparation step `prepare_raw_block`
belongs to another package; `BlockDigest.BlockInfo` takes its output (a block number and
transactions of `(op_type, payload)` operations) as input.

Modules: `Wrappers` (Option, Result), `PyValue`, `BlockNumbers`, `Chunking`, `Decoding`,
`KeyMining`, `BlockDigest`, `DictFilter`, `Comments`. Loops in the source are loops here
(`Chunkify`, `ExtractKeysFromMeta` with its inner loop `ExtendWithHits`, `BlockInfo`), each
proved against a specification function; expressions, comprehensions and the recursive
generator are functions with lemmas.

A few behaviours of the code are easy to misread; the model follows the code:

- `ensure_decoded({})` returns None, because an empty dict is falsy; only non-empty lists and
  dicts come back unchanged. Decoding is idempotent only where `Decoding.IdempotentOnDecoded`
  says so: on results that are None or a non-empty list or dict. It fails elsewhere, for
  example on text that parses to an empty dict (`Decoding.EmptyDictNotStable`) and on a
  double-encoded scalar such as the text `"5"`, which decodes to the number 5 and then, as
  non-text input, to None (`Decoding.DoubleDecodedScalarNotStable`).
- `chunkify` with `chunksize <= 0` raises nothing: the running count never equals it, so the
  whole input comes out as one chunk. `Chunking.Chunkify` states that case instead of
  excluding it.
- `block_num_from_hash` does not insist on eight characters: a shorter all-hex id is read
  whole (`BlockNumbers.BlockNumFromHash` states this).
- `block_info` on a transaction without operations raises `IndexError`; the model returns
  `Failure(IndexError)`.
- `block_info`'s `brief` is the template string with its placeholders left unfilled.

## Model

| member | source | states |
|---|---|---|
| `BlockNumbers.HexValue` | steem/utils.py:34 | the base-16 value of a digit string is below 16 to the power of its length |
| `BlockNumbers.BlockNumFromHash` | steem/utils.py:25-34 | the block number read from an id is below 2^32; for an id of at least eight characters it is the value of exactly its first eight digits, and a shorter id is read whole |
| `BlockNumbers.BlockNumFromPrevious` | steem/utils.py:37-46 | the number is the one read from the previous block's id plus one, so it lies in [1, 2^32] |
| `BlockNumbers.HexRoundTrip` | steem/utils.py:34 | writing `n < 16^w` as `w` hex digits and reading them back gives `n` |
| `BlockNumbers.HexValueDeterminesDigits` | steem/utils.py:34 | writing back the value of a lower-case digit string gives that string: the value determines the digits |
| `BlockNumbers.BlockIdRoundTrip` | steem/utils.py:25-46 | an id starting with the eight big-endian digits of `num` gives block number `num`, and its successor `num + 1` |
| `Chunking.Chunkify` | steem/utils.py:49-69 | the chunks concatenate back to the input; none is empty; empty input gives no chunk; with `chunksize > 0` each chunk has at most `chunksize` items, all but the last exactly `chunksize`, and there are ceil(len/chunksize) of them; with `chunksize <= 0` the input is one chunk; the chunk size defaults to 10000 |
| `Decoding.EnsureDecoded` | steem/utils.py:72-102 | falsy input gives None; a non-empty list or dict is returned unchanged; any other non-text input gives None; from text, anything but None is either the dict it parses to or what the non-empty string it parses to parses to |
| `Decoding.SingleEncodedDict` | steem/utils.py:79-84 | text holding a JSON object decodes to that object |
| `Decoding.DoubleEncoded` | steem/utils.py:85-94 | text holding a JSON string that holds JSON decodes to the inner value, whatever its type |
| `Decoding.EncodedEmptyString` | steem/utils.py:85-90 | text holding the JSON string `""` gives None |
| `Decoding.OtherSingleDecodedValues` | steem/utils.py:79-102 | a first parse giving a number, bool, list or null falls through to None |
| `Decoding.ParseFailure` | steem/utils.py:95-102 | a parse failure at either stage gives None |
| `Decoding.IdempotentOnDecoded` | steem/utils.py:72-78 | when the result is None or a non-empty list or dict, decoding it again returns it |
| `Decoding.EmptyDictNotStable` | steem/utils.py:73-84 | the text `{}` decodes to an empty dict, which decodes to None |
| `Decoding.DoubleDecodedScalarNotStable` | steem/utils.py:76-102 | text whose first parse is the string `5` and whose second parse is the number 5 decodes to 5, and decoding 5 gives None |
| `KeyMining.FindKeys` | steem/utils.py:105-115 | every value yielded is a proper part of the tree searched; its full behaviour is stated by `FindKeysIsPreorderHits` and `FindKeysProperties` |
| `KeyMining.FindKeysIsPreorderHits` | steem/utils.py:105-115 | `findkeys` yields exactly the `kv` values of the dict nodes the search reaches that hold `kv` (it descends into lists and dicts, never into tuples), in depth-first pre-order |
| `KeyMining.FindKeysProperties` | steem/utils.py:105-115 | scalars and tuples yield nothing; a dict holding `kv` yields its own value first; every hit is the `kv` value of some dict node the search reaches (it descends into lists and dicts, never into tuples); there is one hit per such dict node holding `kv`; a tuple reaches only itself |
| `KeyMining.NestedKeyExample` | steem/utils.py:105-115 | `findkeys({"a": {"a": 1, "b": 2}}, "a")` yields the outer value, then `1` |
| `KeyMining.ExtendWithHits` | steem/utils.py:123-129 | the accumulator grows by each string hit, by the elements of each list or tuple hit, and by nothing for other hits, in hit order |
| `KeyMining.ExtractKeysFromMeta` | steem/utils.py:118-130 | the result is the collected hits of each key in turn, key order outside, traversal order inside; a single key string gives exactly the collected hits of that one key |
| `KeyMining.ExtractedMembers` | steem/utils.py:118-130 | a value is in the result exactly when, for some key, some hit is that string, or a list or tuple containing it |
| `KeyMining.TagsExample` | steem/utils.py:118-130 | `extract_keys_from_meta({"tags": ["x", "y"]}, "tags")` is `["x", "y"]` |
| `BlockDigest.BlockInfo` | steem/utils.py:133-147 | succeeds exactly when every transaction has an operation; then the block number is copied, the transaction count is the number of transactions, the operation count is the total over all transactions and at least the transaction count, entry `k` of `transactions` is the type of transaction `k`'s first operation, and `brief` is the unfilled template |
| `BlockDigest.TotalOperations` | steem/utils.py:139-140 | the operation total is zero exactly when no transaction has an operation, and at least the number of transactions when every transaction has one |
| `DictFilter.KeepInDict` | steem/utils.py:215-223 | an entry is in the result exactly when it is in the dict and its key is allowed |
| `DictFilter.RemoveFromDict` | steem/utils.py:226-234 | an entry is in the result exactly when it is in the dict and its key is not removed |
| `DictFilter.KeepAndRemovePartition` | steem/utils.py:215-234 | keeping and removing the same keys split the dict: the two results together are the dict's entries, and no entry is in both |
| `DictFilter.KeepPreservesOrder` | steem/utils.py:223 | keeping distributes over concatenation, so the dict's order is kept |
| `DictFilter.RemovePreservesOrder` | steem/utils.py:234 | removing distributes over concatenation, so the dict's order is kept |
| `DictFilter.FiltersKeepUniqueKeys` | steem/utils.py:215-234 | the filtered entries of a dict still have unique keys |
| `DictFilter.DefaultKeyLists` | steem/utils.py:215-234 | with the key list left at its default (empty), keeping gives `{}` and removing gives the dict unchanged |
| `Comments.IsComment` | steem/utils.py:190-194 | the result is `False` or the parent author, and it is truthy exactly when the permlink starts with `re-` and the parent author is non-empty |
| `Comments.SplitJoin` | steem/utils.py:151 | splitting a join of separator-free parts gives the parts back |
| `Comments.BuildCommentUrl` | steem/utils.py:150-151 | the URL is the three parts separated by two slashes, and when no part contains a slash, splitting it at slashes gives the three parts back |

## Left out

- `BlockNumbers.BlockNumFromHash`: requires the first (up to) eight characters to be ASCII hex digits; the other forms Python's `int(_, 16)` accepts (surrounding whitespace, a sign, a `0x` prefix, underscores, non-ASCII decimal digits) and the `ValueError` it raises on anything else are not modelled.
- `Chunking.Chunkify`: returns all chunks at once; that the generator yields each chunk as soon as it fills, over an arbitrary iterable, is not modelled.
- `PyValue.Value`: a `Dict` whose entries repeat a key stands for no Python dict, because Python dict keys are unique; the model does not exclude such values, and on them `Lookup` takes the first entry while the search visits every entry's value.
- `KeyMining.FindKeys`: termination on cyclic structures is not a question here, because values are finite trees; the generator's laziness is not modelled.
- `KeyMining.ExtractKeysFromMeta`: keys are one string or a list of strings; iterating other collections of keys (a tuple, a dict's keys) is not modelled separately; the warning logged for a dropped hit is not modelled.
- `Decoding.EnsureDecoded`: `json.loads` is the abstract parameter `parse`; the JSON grammar, byte-string input and the logged diagnostics are not modelled. Python's int and float are one `Number(real)`.
- `Comments.IsComment`: takes the item's `permlink` and `parent_author` as strings; the `KeyError` for a missing field and non-string parent authors are not modelled.
- `Comments.BuildCommentUrl`: takes three strings; the `TypeError` of the `None` defaults is not modelled.
- `DictFilter.KeepInDict`, `DictFilter.RemoveFromDict`: dict branch only, with string keys, and key lists are lists of strings (a plain string as the key list, where the membership test becomes a substring test, is not modelled); the `obj.__dict__` branch for other objects relies on Python reflection and is not modelled.
- `canonicalize_url` (steem/utils.py:154-172): its behaviour is that of `w3lib.url.canonicalize_url` and `urllib.parse.urlparse`, code outside this repository.
- `detect_language` (steem/utils.py:179-187): a wrapper around the langdetect classifier, a black box.
- `time_elapsed`, `parse_time`, `time_diff` (steem/utils.py:197-212): they read the wall clock and wrap `strptime`.
- `findall_patch_hunks` (steem/utils.py:175-176): a single regular-expression `findall`.
- `prepare_raw_block`: belongs to the sbds package and is not part of this model; the digest starts from its output.
- The `logger` calls throughout: diagnostics only, with no effect on results.
