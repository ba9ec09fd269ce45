# Blockchain ledger

A model of the `Blockchain` class of a single-node, append-only ledger. The
ledger keeps a pool of pending transactions. `new_block` seals the pool into
a block that carries a 1-based index, a timestamp, a proof and the hash of
the previous block. `hash` is the SHA-256 hex digest of the block's JSON
text, dumped with sorted keys. `proof_of_work` searches upward from 0 for the
first proof whose challenge digest starts with `"0000"`.

Modules, from the bottom up:

- `Decimal`: Python's decimal text of an int. The text of a natural number reads back to that number, and different ints print differently.
- `Encoding`: `str.encode()`, which is UTF-8. ASCII text encodes to its character codes.
- `Json`: `json.dumps(obj, sort_keys=True)` with Python's defaults:
  - `", "` between items and `": "` after each key;
  - ASCII-only output, with `\uXXXX` escapes and surrogate pairs;
  - members ordered by code-point order of their keys.

  The output is ASCII. It does not depend on the order in which the members of any dict, at any depth, were inserted.
- `Blocks`: transactions and blocks, and the dicts they are stored as.
- `Hasher`: `Blockchain.hash`. It proves the exact text that is hashed for a block, and that the digest ignores the order of the keys of the block dict and of its transaction dicts.
- `ProofOfWork`: `Blockchain.valid_proof` and its challenge text.
- `Ledger`: the `Blockchain` class with its `chain` and `current_transactions`. It has the invariants the class keeps and the `new_block` rule as a function, `NextBlock`.

Points where the code does something other than its docstrings or a first
reading suggest:

- **`previous_hash` is required.** The docstring of `new_block` calls it optional, but the signature gives it no default.
- **Any falsy argument triggers hashing.** The code tests truthiness, so `None`, `0` and `""` all make `new_block` hash the last block.
- **A falsy argument on an empty chain raises.** The model's `NextBlock` returns `Err(IndexError)` and the state is left unchanged.
- **The hash link only holds for falsy arguments.** Every block after the genesis block is meant to store its predecessor's hash, but a truthy `previous_hash` is stored unchecked. `HashLinked` is therefore proved preserved only for falsy arguments, and `TruthyArgumentCanBreakLinks` shows a truthy one breaking it.

## Model

| member | source | states |
|---|---|---|
| Decimal.IntText | main.py:109 | `str` of an int: a '-' exactly for negative ints, then decimal digits; pinned down by `DigitsValueOfNatText` and `IntTextInjective` |
| Decimal.DigitsValueOfNatText | main.py:109 | the decimal text of a natural number reads back to that number |
| Decimal.IntTextInjective | main.py:109 | different ints have different decimal texts |
| Encoding.CharUtf8 | main.py:77 | one character encodes to 1 to 4 bytes; a single byte exactly for ASCII, with continuation bytes in 0x80..0xBF |
| Encoding.Utf8 | main.py:77 | `.encode()`: the UTF-8 bytes of each character in turn; for ASCII text its character codes, by `Utf8OfAscii` |
| Encoding.Utf8OfAscii | main.py:77 | `.encode()` of ASCII text is its character codes, one byte each |
| Encoding.Utf8AsciiInjective | main.py:77 | different ASCII texts encode to different bytes |
| Json.EscapeChar | main.py:77 | the escape `json.dumps` writes for one character: `\"` and `\\`, printable ASCII as is, `\b \f \n \r \t`, else `\uXXXX` in lower-case hex, as a surrogate pair above U+FFFF; ASCII by `EscapeCharIsAscii` |
| Json.Escape | main.py:77 | the escapes of the characters of a string in turn; ASCII by `EscapeIsAscii`, plain text unchanged by `EscapePlain` |
| Json.Quote | main.py:77 | a JSON string literal: the escaped text between double quotes; see `QuoteIsAscii` and `QuotePlain` |
| Json.EscapeCharIsAscii | main.py:77 | the escape of any character, including `\uXXXX` escapes and surrogate pairs above U+FFFF, is ASCII |
| Json.EscapeIsAscii | main.py:77 | the escaped text of any string is ASCII |
| Json.QuoteIsAscii | main.py:77 | a quoted JSON string literal is ASCII |
| Json.EscapePlain | main.py:77 | text of printable ASCII without `"` and `\` is left as it is by escaping |
| Json.QuotePlain | main.py:77 | such text is dumped as itself between double quotes |
| Json.KeyLess | main.py:76-77 | Python's `<` on str, which the key sort uses: code-point lexicographic order, with a proper prefix first; a strict total order by `KeyLessIrreflexive`, `KeyLessTransitive`, `KeyLessTotal` and `KeyLessAsymmetric` |
| Json.KeyLessIrreflexive | main.py:76-77 | the key order of `sort_keys` is irreflexive |
| Json.KeyLessTransitive | main.py:76-77 | the key order is transitive |
| Json.KeyLessTotal | main.py:76-77 | any two distinct keys are ordered one way or the other |
| Json.KeyLessAsymmetric | main.py:76-77 | the key order is asymmetric |
| Json.InsertByKey | main.py:77 | inserting a member adds exactly that member to the multiset of members |
| Json.SortByKey | main.py:77 | sorting keeps the same multiset of members |
| Json.InsertByKeySorted | main.py:77 | inserting into a key-sorted list with a new key keeps it sorted |
| Json.SortByKeySorted | main.py:76-77 | members with distinct keys come out sorted strictly by key |
| Json.SortedUnique | main.py:76-77 | two strictly key-sorted lists with the same members are equal |
| Json.SortByKeyIgnoresInsertionOrder | main.py:76 | any two insertion orders of the same members sort to the same list |
| Json.Dumps | main.py:76-77 | `json.dumps(obj, sort_keys=True)`: ints in decimal, floats as their text, strings quoted, lists and dicts with `", "` and `": "`, dict members sorted by key; ASCII by `DumpsIsAscii`, order-free by `DumpsIgnoresNestedOrder` |
| Json.JoinIsAscii | main.py:77 | joining ASCII parts with an ASCII separator gives ASCII text |
| Json.DumpsIsAscii | main.py:77 | every dumped JSON text is ASCII |
| Json.DumpsIgnoresInsertionOrder | main.py:76-77 | two dicts with the same members in any order dump to the same text |
| Json.SortedKeysUnique | main.py:76-77 | two key-sorted member lists with the same set of keys have equal keys at every position |
| Json.SortedAligned | main.py:76-77 | sorting two dicts with the same keys puts each key at the same position in both |
| Json.SameUpToOrderReflexive | main.py:76-77 | a value whose dicts all have distinct keys is the same as itself up to order |
| Json.ObjectPermutedSame | main.py:76-77 | a dict with the same members inserted in another order is the same value up to order |
| Json.ObjectsPointwiseSame | main.py:76-77 | dicts with the same keys in the same positions and values pairwise the same up to order are the same up to order |
| Json.DumpsIgnoresNestedOrder | main.py:76-77 | two values that differ only in the member order of dicts, at any depth, dump to the same text |
| Blocks.TransactionMembers | main.py:55-59 | the three members of a transaction dict in the literal's insertion order sender, recipient, amount; sorted as amount, recipient, sender by `TransactionMembersSortByKey` |
| Blocks.TransactionJson | main.py:55-59 | a transaction as the dict `new_transaction` appends; dumped as the text `TransactionTextLayout` spells out |
| Blocks.PreviousHashJson | main.py:34 | the stored `previous_hash` value: an int as a JSON int, a text as a JSON string |
| Blocks.BlockMembers | main.py:29-35 | the five members of a block dict in the literal's insertion order index, timestamp, transactions, proof, previous_hash; nothing lost, by `BlockJsonInjective`, and sorted alphabetically by `BlockMembersSortByKey` |
| Blocks.BlockJson | main.py:29-35 | a block as the dict `new_block` builds; different blocks give different dicts by `BlockJsonInjective` |
| Blocks.BlockJsonInjective | main.py:29-35 | different blocks are stored as different dicts |
| Hasher.BlockBytes | main.py:77 | `json.dumps(block, sort_keys=True).encode()`; the character codes of the ASCII text `BlockText`, by `BlockTextLayout` and `BlockBytesAreTextCodes` |
| Hasher.Hash | main.py:67-80 | SHA of the UTF-8 bytes of the sorted-key dump of the block dict; the text is fixed by `BlockTextLayout`, the bytes by `BlockBytesAreTextCodes` |
| Hasher.SortedBlockMembersSorted | main.py:76-77 | index, previous_hash, proof, timestamp, transactions is strictly increasing key order |
| Hasher.BlockKeysDistinct | main.py:29-35 | a block dict has five distinct keys |
| Hasher.SortedBlockMembersPermutation | main.py:29-35 | the alphabetical list holds exactly the block dict's members |
| Hasher.BlockMembersSortByKey | main.py:76-77 | `sort_keys` orders a block's members alphabetically |
| Hasher.TransactionMembersSortByKey | main.py:55-59 | `sort_keys` orders a transaction's members as amount, recipient, sender |
| Hasher.TransactionTextLayout | main.py:77 | a transaction dumps as `{"amount": A, "recipient": "R", "sender": "S"}` |
| Hasher.TransactionsTextLayout | main.py:77 | the transactions list dumps as `[` + the transaction texts joined by `", "` + `]` |
| Hasher.BlockMemberTexts | main.py:77 | the five member texts of a block, in sorted order |
| Hasher.BlockTextLayout | main.py:77 | the text hashed for a block is `{"index": I, "previous_hash": H, "proof": P, "timestamp": T, "transactions": [...]}` |
| Hasher.BlockBytesAreTextCodes | main.py:77 | the hashed bytes of a block are the character codes of its ASCII JSON text |
| Hasher.HashIgnoresKeyOrder | main.py:76-80 | any insertion order of a block's members gives the same digest |
| Hasher.HashIgnoresNestedKeyOrder | main.py:76-80 | a value that differs from the block dict only in the member order of dicts, at any depth, gives the same digest |
| Hasher.TransactionJsonAlphabeticalSame | main.py:55-59 | a transaction dict built as amount, recipient, sender is the same as the one built at main.py:55-59, up to order |
| Hasher.ReorderedTransactionsHashTheSame | main.py:29-35 | a block whose transaction dicts were built in another key order hashes the same |
| ProofOfWork.Challenge | main.py:109 | `f'{last_proof}{proof}'`: the two decimal texts one after the other; see `ChallengeBytes`, `ChallengeInjectiveInProof` and `ChallengeIsAmbiguous` |
| ProofOfWork.ValidProof | main.py:99-111 | the first four hex digits of the SHA of the encoded challenge are `"0000"`; digit by digit in `ValidProofLeadingZeros` |
| ProofOfWork.ValidProofLeadingZeros | main.py:109-111 | a proof is valid iff the first four hex digits of the challenge digest are all `'0'` |
| ProofOfWork.ChallengeBytes | main.py:109 | the challenge is ASCII and its bytes are its character codes |
| ProofOfWork.ChallengeInjectiveInProof | main.py:109 | for a fixed last proof, different candidates give different challenges |
| ProofOfWork.ChallengeIsAmbiguous | main.py:109-111 | last proof 1 with candidate 23 and last proof 12 with candidate 3 hash the same text `"123"`, so they are valid together or not at all |
| Ledger.Truthy | main.py:34 | Python truthiness of the `previous_hash` argument: `None`, `0` and `""` are false, every other int or string is true |
| Ledger.Stored | main.py:34 | a truthy argument is stored as given: an int as an int, a string as a string |
| Ledger.SealedAppend | main.py:32-41 | appending a block extends the sealed history by exactly its transactions |
| Ledger.NextBlock | main.py:29-35 | `new_block` raises IndexError exactly when the chain is empty and previous_hash is falsy |
| Ledger.NextBlockKeepsIndexing | main.py:30 | the new block's index is the chain length + 1, so every block's index stays its 1-based position |
| Ledger.NextBlockSealsPool | main.py:32 | the sealed history grows by exactly the pool, in order |
| Ledger.HashLinkedAppend | main.py:34-41 | appending a block that stores the hash of the last block keeps a hash-linked chain hash-linked |
| Ledger.NextBlockKeepsLinks | main.py:34 | with a falsy previous_hash on a non-empty chain, the new block stores the hash of the last block, and a hash-linked chain stays hash-linked |
| Ledger.TruthyArgumentCanBreakLinks | main.py:34 | a truthy previous_hash is stored unchecked: `"abc"` breaks the hash link on any non-empty chain |
| Ledger.Blockchain.constructor | main.py:13-18 | a new ledger holds only the genesis block (index 1, no transactions, proof 100, previous_hash 1) and an empty pool |
| Ledger.Blockchain.NewBlock | main.py:20-43 | appends the `NextBlock` block and empties the pool, or raises and changes nothing; keeps indexing and the sealed history, and keeps hash links for a falsy previous_hash; never raises after construction |
| Ledger.Blockchain.NewTransaction | main.py:45-61 | appends the transaction to the pool and changes no block; returns last_block's index + 1, which is the chain length + 1 |
| Ledger.Blockchain.LastBlock | main.py:63-65 | the final block, whose index is the chain length and above every other block's index; defined whenever the ledger is valid |
| Ledger.Blockchain.ProofOfWork | main.py:82-97 | returns a valid proof that is less than every other valid proof |
| Ledger.SubmitAndMine | main.py:13-61 | construct, submit, mine against the genesis proof and seal. The transaction lands in block 2 as announced, and that block holds a valid proof and the genesis block's hash. The chain then has length 2 and the pool is empty |

## Left out

- The Flask app, its routes and `app.run`. These are HTTP plumbing, not ledger logic.
- The `/mine` stub, which returns a literal string and does no mining.
- The request-body field check of `/transactions/new`, the `uuid4` node identifier and the debug `print`. These are boundary validation, randomness and console output.
- SHA-256 internals (FIPS 180-4). `hashlib.sha256(...).hexdigest()` is a parameter of the model: any function from bytes to 64 lower-case hex digits. So nothing is claimed about collision resistance, and a block's digest is not shown to change when the block changes.
- `time()`. The timestamp is an input, carried as the text Python prints for the float. Floating point itself is not modelled, only the characters such a text can hold.
- Concurrency. The class has no locking, and the model is sequential.
- Ledger.Blockchain.ProofOfWork: requires that some valid proof exists. The Python method would loop forever when none does, and a model without `decreases *` cannot express that.
- Ledger.Blockchain.NewBlock: the block is returned by value. In the Python method the returned dict is the same object as the one in the chain, so a caller that mutates it also changes the chain. That aliasing is not modelled.
- Ledger.Blockchain.LastBlock: the block is returned by value. `last_block` returns `self.chain[-1]` itself, so a caller that mutates that dict also changes the chain. That aliasing is not modelled.
- Decimal.IntText: prints an int of any size. Since Python 3.11 (and the security releases of 3.7 to 3.10), `f'{n}'` and `json.dumps` raise `ValueError` for an int with more than 4300 digits (`sys.int_info.default_max_str_digits`). So `valid_proof` and `hash` raise on such a proof, index or amount. The model ignores that error path.
- The fields of a transaction are typed as the docstring of `new_transaction` gives them: sender and recipient strings, an int amount. `new_transaction` itself accepts any value, and the `/transactions/new` route passes the request's JSON values through, so a float, list or dict amount is not represented.
- Python ints are unbounded, as in the model. Strings are modelled as sequences of Unicode scalar values, so lone surrogates cannot occur.
