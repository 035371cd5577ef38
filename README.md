# SlyCoin ledger core in Dafny

This project models the `Blockchain` class of SlyCoin, a small educational
proof-of-work blockchain written in Python. The class keeps two lists: the
chain of blocks and the pending transactions. It offers these operations:

- `new_transaction` queues a transaction and reports the index of the block
  that will hold it.
- `last_block` returns the final block.
- `hash` digests a block.
- `valid_proof` checks a candidate against the puzzle.
- `proof_of_work` searches for the least candidate that solves the puzzle.

Modules, one concern each:

- `PyValues` (`pyvalues.dfy`): the Python values the ledger stores. Blocks
  and transactions are dicts. A dict is the sequence of its items in
  insertion order, with distinct keys. This module also gives the Python
  semantics of `lst[-1]`, `d['index']` and `x + 1`, with IndexError, KeyError
  and TypeError as error results.
- `CanonicalJson` (`canonical_json.dfy`): what `json.dumps(block,
  sort_keys=True)` serialises. At every depth, the items of every dict are
  sorted by Python's string order. `SameUpToOrder` says when two values
  hold the same data and differ only in the insertion order of dict items,
  at any depth; such values have one sorted-key form.
- `Text` (`text.dfy`): covers three things:
  - `str(n)` for an int, with its inverse `int(s)`;
  - `str.encode()` of ASCII text;
  - the numeric value of a lower-case hex digest.
- `Chain` (`blockchain.py` → `blockchain.dfy`): the block hash, the puzzle,
  and the class `Blockchain`. Its fields `chain` and `currentTransactions`
  are sequences that the methods reassign.

Some library and unseen code enters the model as parameters:

- SHA-256 (`hashlib.sha256(...).hexdigest()`) and plain `json.dumps` are
  function values in `Primitives`. The digest always has 64 lower-case hex
  digits. The JSON text is always ASCII (`ensure_ascii` is on by default).
- The body of `new_block` is not part of this model. Its effect on the
  ledger is a `NewBlock` function value. The constructor applies it to
  the empty ledger with `proof=100` and `previous_hash=1`, the arguments
  of the genesis call. Any clock reading inside `new_block` is folded into
  that function value.

Facts about the code that the model keeps:

- `last_block` on an empty chain raises Python's IndexError.
- The genesis `previous_hash` is the int `1`.
- `blockchain.py` holds no code for chain validation or consensus.

## Model

| member | source | states |
|---|---|---|
| `PyValues.PyIndex` | blockchain.py:63 | `s[i]` on a list succeeds exactly for `-len <= i < len`. A negative index counts from the end. Any other index gives IndexError. |
| `PyValues.Subscript` | blockchain.py:42 | `d[key]` on a dict succeeds exactly when some item has that key, and yields a value stored under it. A missing key gives KeyError(key). A non-dict gives TypeError. |
| `PyValues.SubscriptFindsMember` | blockchain.py:42 | In a dict with distinct keys, `d[key]` yields `v` if and only if the item `key: v` is in the dict. |
| `PyValues.AddOne` | blockchain.py:42 | Python's `x + 1`: an int gives x+1 and a bool gives 1 or 2. A float is not evaluated. Every other value gives an error. |
| `CanonicalJson.KeyLessIrreflexive` | blockchain.py:55-56 | The key order used by `sort_keys` never ranks a key below itself. |
| `CanonicalJson.KeyLessTransitive` | blockchain.py:55-56 | The key order is transitive. |
| `CanonicalJson.KeyLessTotal` | blockchain.py:55-56 | Any two different keys are ordered one way or the other, so the sort of a dict's items is well defined. |
| `CanonicalJson.Insert` | blockchain.py:56 | Inserting an item yields the old items plus that one, as a multiset. |
| `CanonicalJson.SortMembers` | blockchain.py:56 | The sorted items are a permutation of the dict's items. |
| `CanonicalJson.InsertSorted` | blockchain.py:56 | Inserting an item with a new key into a sorted sequence keeps it sorted. |
| `CanonicalJson.SortMembersSorted` | blockchain.py:56 | A dict's items come out in strictly increasing key order. |
| `CanonicalJson.SortKeys` | blockchain.py:56 | Sorting keeps the shape: a dict stays a dict with as many items, and any other value is unchanged. A list keeps its length and its order, and item i becomes the sorted-key form of item i. Its other properties are the rows below. |
| `CanonicalJson.SortedSameItems` | blockchain.py:55-56 | Two strictly sorted item sequences holding the same items are equal, so the sorted order depends only on which items the dict holds. |
| `CanonicalJson.SortMembersOfSorted` | blockchain.py:56 | Sorting items that are already strictly sorted leaves them as they are. |
| `CanonicalJson.SortKeysSameData` | blockchain.py:56 | The sorted-key form holds the same data as its input, at every depth. Only the order of dict items changes. |
| `CanonicalJson.SameUpToOrderReflexive` | blockchain.py:55 | Every value holds the same data as itself. |
| `CanonicalJson.PermutedDictSame` | blockchain.py:55 | A dict and any reordering of its items hold the same data. |
| `CanonicalJson.DictValueCongruence` | blockchain.py:55 | Replacing one value of a dict by the same data, reordered at any depth, leaves the dict the same data. |
| `CanonicalJson.ListItemCongruence` | blockchain.py:55 | Replacing one item of a list by the same data leaves the list the same data. |
| `CanonicalJson.SortKeysIgnoresInsertionOrder` | blockchain.py:55-56 | Two values that differ only in the insertion order of dict items, at any depth, have the same sorted-key form. |
| `CanonicalJson.CanonicalItemsSorted` | blockchain.py:56 | The items of a canonical dict are sorted, and their keys are distinct. |
| `CanonicalJson.SortKeysKeepsItems` | blockchain.py:56 | Sorting only reorders a dict. Each key keeps its value, in canonical form, and a missing key stays missing. |
| `CanonicalJson.SortKeysIdempotent` | blockchain.py:56 | Canonicalising a canonical value again changes nothing. |
| `Text.Encode` | blockchain.py:94 | `encode()` of ASCII text gives one byte per character, holding its code point. |
| `Text.DecodeEncode` | blockchain.py:94 | `encode()` of ASCII text loses nothing: decoding the bytes gives the text back. |
| `Text.Digits` | blockchain.py:94 | The decimal text of a non-negative int is non-empty and all digits. It has no leading zero: a text starting with '0' is exactly "0". |
| `Text.DigitsRoundTrip` | blockchain.py:94 | Reading the digits of `n` back gives `n`. |
| `Text.Decimal` | blockchain.py:94 | `str(n)` is well-formed ASCII decimal text, and it starts with '-' exactly when n is negative. It has no leading zero: a text starting with '0' is exactly "0", and no '0' follows the '-'. With `DecimalRoundTrip`, this fixes the exact text of `str(n)`. |
| `Text.DecimalRoundTrip` | blockchain.py:94 | `str(n)` of any int is well-formed ASCII decimal text, and `int(str(n)) == n`. |
| `Text.HexValue` | blockchain.py:95 | A hex text of k digits denotes a number below 16^k. |
| `Text.LeadingZerosBelowTarget` | blockchain.py:96 | A hex text starts with k '0' digits exactly when its value is below 16^(length-k). |
| `Chain.TransactionRecord` | blockchain.py:36-40 | The record is a three-item dict. Its 'sender', 'recipient' and 'amount' are the arguments, and it is well formed when they are. |
| `Chain.Hash` | blockchain.py:47-57 | The digest of a well-formed block is SHA-256 of the encoded plain JSON text of the sorted-key form of any block that holds the same data, in whatever insertion order. |
| `Chain.OneCanonicalForm` | blockchain.py:55-56 | Every well-formed value that holds the same data as a well-formed value has the same sorted-key form. |
| `Chain.HashIgnoresKeyOrder` | blockchain.py:55-57 | Two blocks that differ only in the insertion order of dict items, at any depth, hash alike. |
| `Chain.HashIgnoresRecordKeyOrder` | blockchain.py:36-57 | A block holding the record `new_transaction` builds hashes like the same block holding that record with its keys inserted in another order. |
| `Chain.RecordReordered` | blockchain.py:36-40 | The transaction record and the same record with 'amount' inserted first are both well formed and hold the same data. |
| `Chain.HashOfCanonical` | blockchain.py:55-57 | A block and its sorted-key form have the same hash. |
| `Chain.Guess` | blockchain.py:94 | The guess text is as long as the two decimal texts together. |
| `Chain.GuessSplits` | blockchain.py:94 | Cut after the digits of the last proof, the guess text reads back as the last proof and the candidate. |
| `Chain.ValidProof` | blockchain.py:86-96 | A candidate is valid exactly when the first 4 hex digits of the digest of its guess text are all '0'. |
| `Chain.ValidProofMeetsTarget` | blockchain.py:94-96 | `valid_proof` holds exactly when the first 4 hex digits of the digest of `str(last_proof) + str(proof)` are '0'. Equivalently, the digest read as a number is below 16^60. |
| `Chain.GuessIsAmbiguous` | blockchain.py:94 | With no separator, (1, 23) and (12, 3) digest the same text "123", so they are valid or invalid together for every digest function. |
| `Chain.GuessDistinguishesCandidates` | blockchain.py:94 | For a fixed last proof, different candidates digest different texts. |
| `Chain.LeastValidProofUnique` | blockchain.py:77-81 | The least valid proof is unique, so the search result is determined by the last proof and the digest. |
| `Chain.Blockchain.constructor` | blockchain.py:16-23 | The fields are what `new_block(previous_hash=1, proof=100)` makes of an empty chain and an empty pending list. |
| `Chain.Blockchain.LastBlock` | blockchain.py:61-63 | Succeeds exactly on a non-empty chain and yields its final block. Otherwise it gives IndexError. |
| `Chain.Blockchain.NextBlockIndex` | blockchain.py:42 | An empty chain gives IndexError. A last block that is not a dict gives TypeError. Success implies the last block is a dict. |
| `Chain.NextBlockIndexOfBlock` | blockchain.py:42 | When the last block is a dict whose 'index' is the int k, the result is k + 1. |
| `Chain.Blockchain.NewTransaction` | blockchain.py:27-42 | Appends exactly one record (sender, recipient, amount) to the pending list and leaves the earlier records unchanged. Leaves `chain` and `last_block` unchanged. Returns `last_block['index'] + 1`, and the append happens even when that read fails. |
| `Chain.Blockchain.ProofOfWork` | blockchain.py:68-81 | The result is a valid proof and the least one: every smaller non-negative candidate fails `valid_proof`. Changes neither field (no `modifies`). |

## Left out

- `Chain.Blockchain.ProofOfWork`: requires that some non-negative valid proof exists. When none exists, the Python loop never ends. Only terminating runs are modelled.
- `Chain.Guess`: its own contract states only the length of the text. The read-back property is proved separately as `Chain.GuessSplits`, because putting it in the contract makes the proof-of-work loop too costly to verify.
- `CanonicalJson.SameUpToOrder`: it matches Python's `==` on dicts, except for numbers. Numbers that Python calls equal but `json.dumps` prints differently count as different: True, 1 and 1.0, and 0.0 and -0.0. Floats are compared by bit pattern, so a NaN counts as equal to itself.
- `Text.Decimal`: it is total. CPython 3.11 and later, and the security releases of 3.7 to 3.10, raise ValueError when `str()` converts an int of more than 4300 digits. That can happen in `f'{last_proof}{proof}'`, and the model does not capture it.
- `PyValues.AddOne`: for a float 'index', Python returns that float plus one. The model returns the error FloatIndex, because float arithmetic is not modelled.
- `new_block`: its body is not in `blockchain.py`. It appears only as the `NewBlock` parameter of the constructor, with no behaviour assumed.
- `time`: imported by `blockchain.py` but never called in the file.
- SHA-256 and `json.dumps`: library code, left as the uninterpreted function values in `Primitives`. `sort_keys=True` itself is modelled by `SortKeys`.
- `str.encode()`: modelled for ASCII text only. Both inputs it gets here, decimal digits and `ensure_ascii` JSON, are ASCII.
- Dict keys that are not strings, and values `json.dumps` cannot serialise: the `Json` type cannot hold them.
- List aliasing: `current_transactions` is a Python list appended in place. The model reassigns a sequence, so other references to the same list are not captured.
- Chain validation, consensus, peer registration, HTTP routes and node-id generation: their code is not in `blockchain.py`.
