/** The ledger's records and the JSON objects they are stored as. A block and a
    transaction are Python dicts; the key order below is the order of their
    dict literals, which `json.dumps(sort_keys=True)` then discards. */
module Blocks {
  import opened Json

  /** One pending or sealed transfer. The fields are taken as given; nothing
      about them is checked. */
  datatype Transaction = Transaction(sender: string, recipient: string, amount: int)

  /** What a block stores as `previous_hash`: the genesis block stores the
      integer 1, every other block the int or text it was given, or the hex
      digest of its predecessor. */
  datatype PreviousHash = IntHash(n: int) | TextHash(text: string)

  datatype Block = Block(
    index: int,
    timestamp: FloatText,
    transactions: seq<Transaction>,
    proof: int,
    previousHash: PreviousHash)

  function TransactionMembers(t: Transaction): seq<Member> {
    [("sender", JString(t.sender)), ("recipient", JString(t.recipient)), ("amount", JInt(t.amount))]
  }

  function TransactionJson(t: Transaction): Json {
    JObject(TransactionMembers(t))
  }

  function PreviousHashJson(p: PreviousHash): Json {
    match p
    case IntHash(n) => JInt(n)
    case TextHash(s) => JString(s)
  }

  /** The members of a block dict, in the order the dict literal inserts them. */
  function BlockMembers(b: Block): seq<Member> {
    [ ("index", JInt(b.index)),
      ("timestamp", JFloat(b.timestamp)),
      ("transactions", JArray(seq(|b.transactions|, k requires 0 <= k < |b.transactions| => TransactionJson(b.transactions[k])))),
      ("proof", JInt(b.proof)),
      ("previous_hash", PreviousHashJson(b.previousHash)) ]
  }

  function BlockJson(b: Block): Json {
    JObject(BlockMembers(b))
  }

  /** Different blocks are different JSON values: the conversion loses nothing. */
  lemma BlockJsonInjective(b: Block, c: Block)
    requires BlockJson(b) == BlockJson(c)
    ensures b == c
  {
    var tb := BlockMembers(b)[2].1.items;
    var tc := BlockMembers(c)[2].1.items;
    assert |b.transactions| == |tb| == |tc| == |c.transactions|;
    forall k | 0 <= k < |b.transactions| ensures b.transactions[k] == c.transactions[k] {
      assert TransactionJson(b.transactions[k]) == tb[k] == tc[k] == TransactionJson(c.transactions[k]);
    }
    match b.previousHash
    case IntHash(_) =>
    case TextHash(_) =>
  }
}
