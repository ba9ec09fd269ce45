/** `Blockchain.hash`: the SHA-256 hex digest of a block's JSON text, dumped
    with sorted keys and encoded to bytes. SHA-256 itself is not modelled: it
    is any total function from bytes to 64 lower-case hex digits, passed in. */
module Hasher {
  import opened Encoding
  import opened Json
  import opened Blocks
  import Decimal

  predicate IsLowerHexDigit(c: char) {
    '0' <= c <= '9' || 'a' <= c <= 'f'
  }

  predicate IsHexDigest(s: string) {
    |s| == 64 && forall i :: 0 <= i < |s| ==> IsLowerHexDigit(s[i])
  }

  /** What `hexdigest()` returns for a 256-bit digest. */
  type HexDigest = s: string | IsHexDigest(s) witness seq(64, _ => '0')

  /** `hashlib.sha256(data).hexdigest()`, as a parameter of the model. */
  type Sha256 = seq<byte> -> HexDigest

  /** `json.dumps(block, sort_keys=True).encode()` */
  function BlockBytes(b: Block): seq<byte> {
    Utf8(Dumps(BlockJson(b)))
  }

  /** `Blockchain.hash(block)` */
  function Hash(sha: Sha256, b: Block): HexDigest {
    sha(BlockBytes(b))
  }

  // ---------------------------------------------------------------------------
  // The text that is hashed

  /** The members of a block dict in alphabetical key order. */
  function SortedBlockMembers(b: Block): seq<Member> {
    var m := BlockMembers(b);
    [m[0], m[4], m[3], m[1], m[2]]
  }

  lemma SortedBlockMembersSorted(b: Block)
    ensures SortedByKey(SortedBlockMembers(b))
  {
    var s := SortedBlockMembers(b);
    assert s[0].0 == "index" && s[1].0 == "previous_hash" && s[2].0 == "proof";
    assert s[3].0 == "timestamp" && s[4].0 == "transactions";
    assert KeyLess("index", "previous_hash") && KeyLess("index", "proof");
    assert KeyLess("index", "timestamp") && KeyLess("index", "transactions");
    assert KeyLess("previous_hash", "proof") && KeyLess("previous_hash", "timestamp");
    assert KeyLess("previous_hash", "transactions");
    assert KeyLess("proof", "timestamp") && KeyLess("proof", "transactions");
    assert KeyLess("timestamp", "transactions");
  }

  /** A block dict has each of its five keys once. */
  lemma BlockKeysDistinct(b: Block)
    ensures DistinctKeys(BlockMembers(b))
  {
    var m := BlockMembers(b);
    assert m[0].0 == "index" && m[1].0 == "timestamp" && m[2].0 == "transactions";
    assert m[3].0 == "proof" && m[4].0 == "previous_hash";
  }

  lemma SortedBlockMembersPermutation(b: Block)
    ensures multiset(SortedBlockMembers(b)) == multiset(BlockMembers(b))
  {
    var m := BlockMembers(b);
    assert m == [m[0], m[1], m[2], m[3], m[4]];
  }

  /** `sort_keys=True` puts the members of a block dict in alphabetical order. */
  lemma BlockMembersSortByKey(b: Block)
    ensures SortByKey(BlockMembers(b)) == SortedBlockMembers(b)
  {
    BlockKeysDistinct(b);
    SortByKeySorted(BlockMembers(b));
    SortedBlockMembersSorted(b);
    SortedBlockMembersPermutation(b);
    SortedUnique(SortByKey(BlockMembers(b)), SortedBlockMembers(b));
  }

  /** The text of a transaction dict, spelled out:
      `{"amount": A, "recipient": "R", "sender": "S"}`. */
  function TransactionText(t: Transaction): string {
    "{" + Join([ Quote("amount") + ": " + Decimal.IntText(t.amount),
                 Quote("recipient") + ": " + Quote(t.recipient),
                 Quote("sender") + ": " + Quote(t.sender) ], ", ") + "}"
  }

  function PreviousHashText(p: PreviousHash): string {
    match p
    case IntHash(n) => Decimal.IntText(n)
    case TextHash(s) => Quote(s)
  }

  /** The text of a block dict, spelled out:
      `{"index": I, "previous_hash": H, "proof": P, "timestamp": T, "transactions": [...]}`. */
  function BlockText(b: Block): string {
    "{" + Join([ Quote("index") + ": " + Decimal.IntText(b.index),
                 Quote("previous_hash") + ": " + PreviousHashText(b.previousHash),
                 Quote("proof") + ": " + Decimal.IntText(b.proof),
                 Quote("timestamp") + ": " + b.timestamp,
                 Quote("transactions") + ": " + ("[" + Join(TransactionTexts(b.transactions), ", ") + "]") ], ", ") + "}"
  }

  lemma TransactionMembersSortByKey(t: Transaction)
    ensures SortByKey(TransactionMembers(t)) == [TransactionMembers(t)[2], TransactionMembers(t)[1], TransactionMembers(t)[0]]
  {
    var m := TransactionMembers(t);
    var s := [m[2], m[1], m[0]];
    assert KeyLess("amount", "recipient") && KeyLess("amount", "sender") && KeyLess("recipient", "sender");
    assert SortedByKey(s);
    assert multiset(s) == multiset(m) by {
      assert m == [m[0], m[1], m[2]];
    }
    assert DistinctKeys(m);
    SortByKeySorted(m);
    SortedUnique(SortByKey(m), s);
  }

  /** json.dumps of a transaction dict is the spelled-out text, keys sorted. */
  lemma TransactionTextLayout(t: Transaction)
    ensures Dumps(TransactionJson(t)) == TransactionText(t)
  {
    var m := TransactionMembers(t);
    TransactionMembersSortByKey(t);
    ObjectDumps(m);
    MemberTextsOfThree(m[2], m[1], m[0]);
    assert MemberTexts([m[2], m[1], m[0]]) == [ Quote("amount") + ": " + Decimal.IntText(t.amount),
                      Quote("recipient") + ": " + Quote(t.recipient),
                      Quote("sender") + ": " + Quote(t.sender) ];
  }

  /** The texts of the sealed transactions, in order. */
  function TransactionTexts(txs: seq<Transaction>): (r: seq<string>)
    ensures |r| == |txs|
  {
    seq(|txs|, k requires 0 <= k < |txs| => TransactionText(txs[k]))
  }

  lemma TransactionsTextLayout(b: Block)
    ensures Dumps(BlockMembers(b)[2].1) == "[" + Join(TransactionTexts(b.transactions), ", ") + "]"
  {
    var items := BlockMembers(b)[2].1.items;
    ArrayDumps(items);
    var dumped := seq(|items|, k requires 0 <= k < |items| => Dumps(items[k]));
    forall k | 0 <= k < |items| ensures dumped[k] == TransactionTexts(b.transactions)[k] {
      TransactionTextLayout(b.transactions[k]);
    }
    assert dumped == TransactionTexts(b.transactions);
  }

  lemma PreviousHashTextLayout(p: PreviousHash)
    ensures Dumps(PreviousHashJson(p)) == PreviousHashText(p)
  {
    match p
    case IntHash(_) =>
    case TextHash(_) =>
  }

  lemma BlockMemberTexts(b: Block)
    ensures MemberTexts(SortedBlockMembers(b)) ==
      [ Quote("index") + ": " + Decimal.IntText(b.index),
        Quote("previous_hash") + ": " + PreviousHashText(b.previousHash),
        Quote("proof") + ": " + Decimal.IntText(b.proof),
        Quote("timestamp") + ": " + b.timestamp,
        Quote("transactions") + ": " + ("[" + Join(TransactionTexts(b.transactions), ", ") + "]") ]
  {
    TransactionsTextLayout(b);
    PreviousHashTextLayout(b.previousHash);
    var m := BlockMembers(b);
    MemberTextsOfFive(m[0], m[4], m[3], m[1], m[2]);
  }

  /** json.dumps of a block dict is the spelled-out text: keys in alphabetical
      order, ", " between members and ": " after each key. */
  lemma BlockTextLayout(b: Block)
    ensures Dumps(BlockJson(b)) == BlockText(b)
  {
    BlockMembersSortByKey(b);
    ObjectDumps(BlockMembers(b));
    BlockMemberTexts(b);
  }

  /** The bytes hashed are exactly the character codes of the block's text. */
  lemma BlockBytesAreTextCodes(b: Block)
    ensures IsAscii(Dumps(BlockJson(b)))
    ensures BlockBytes(b) == AsciiCodes(Dumps(BlockJson(b)))
  {
    DumpsIsAscii(BlockJson(b));
    Utf8OfAscii(Dumps(BlockJson(b)));
  }

  // ---------------------------------------------------------------------------
  // Determinism

  /** The digest does not depend on the order in which the block's keys were
      inserted into the dict: any reordering of its members hashes the same. */
  lemma HashIgnoresKeyOrder(sha: Sha256, b: Block, members: seq<Member>)
    requires DistinctKeys(members)
    requires multiset(members) == multiset(BlockMembers(b))
    ensures sha(Utf8(Dumps(JObject(members)))) == Hash(sha, b)
  {
    DumpsIgnoresInsertionOrder(members, BlockMembers(b));
  }

  /** The digest does not depend on the order of dict members at any depth:
      a value that differs from the block's dict only in the order of the
      members of it or of its transaction dicts hashes the same. */
  lemma HashIgnoresNestedKeyOrder(sha: Sha256, b: Block, j: Json)
    requires SameUpToOrder(j, BlockJson(b))
    ensures sha(Utf8(Dumps(j))) == Hash(sha, b)
  {
    DumpsIgnoresNestedOrder(j, BlockJson(b));
  }

  /** A transaction dict built with its keys in alphabetical order. */
  function TransactionJsonAlphabetical(t: Transaction): Json {
    JObject([("amount", JInt(t.amount)), ("recipient", JString(t.recipient)), ("sender", JString(t.sender))])
  }

  lemma TransactionJsonAlphabeticalSame(t: Transaction)
    ensures SameUpToOrder(TransactionJsonAlphabetical(t), TransactionJson(t))
  {
    var q := TransactionMembers(t);
    ReversedThreeSame(q[0], q[1], q[2]);
  }

  /** The block dict with its transaction dicts built alphabetically. */
  function BlockJsonAlphabeticalTransactions(b: Block): Json {
    var m := BlockMembers(b);
    JObject([ m[0], m[1],
              ("transactions", JArray(seq(|b.transactions|, k requires 0 <= k < |b.transactions| =>
                                            TransactionJsonAlphabetical(b.transactions[k])))),
              m[3], m[4] ])
  }

  lemma BlockJsonAlphabeticalTransactionsSame(b: Block)
    ensures SameUpToOrder(BlockJsonAlphabeticalTransactions(b), BlockJson(b))
  {
    var p := BlockJsonAlphabeticalTransactions(b).fields;
    var q := BlockMembers(b);
    BlockKeysDistinct(b);
    forall k | 0 <= k < |b.transactions| ensures SameUpToOrder(p[2].1.items[k], q[2].1.items[k]) {
      TransactionJsonAlphabeticalSame(b.transactions[k]);
    }
    forall i | 0 <= i < |p| ensures p[i].0 == q[i].0 && SameUpToOrder(p[i].1, q[i].1) {
      if i != 2 {
        assert WellFormed(q[i].1) by {
          match b.previousHash
          case IntHash(_) =>
          case TextHash(_) =>
        }
        SameUpToOrderReflexive(q[i].1);
      }
    }
    ObjectsPointwiseSame(p, q);
  }

  /** Building the transaction dicts of a block in another key order gives
      the same digest. */
  lemma ReorderedTransactionsHashTheSame(sha: Sha256, b: Block)
    ensures sha(Utf8(Dumps(BlockJsonAlphabeticalTransactions(b)))) == Hash(sha, b)
  {
    BlockJsonAlphabeticalTransactionsSame(b);
    HashIgnoresNestedKeyOrder(sha, b, BlockJsonAlphabeticalTransactions(b));
  }
}
