/** The `Blockchain` class: a chain of blocks that only grows, and a pool of
    transactions waiting to be sealed into the next block. */
module Ledger {
  import opened Json
  import opened Blocks
  import opened Hasher
  import opened ProofOfWork

  /** The `previous_hash` argument of `new_block`, as Python may receive it:
      `None`, an int (the constructor passes 1) or a string (a hex digest). */
  datatype PreviousHashArg = NoneArg | IntArg(n: int) | TextArg(text: string)

  /** Python truthiness: `None`, `0` and `""` are false. */
  predicate Truthy(a: PreviousHashArg) {
    match a
    case NoneArg => false
    case IntArg(n) => n != 0
    case TextArg(s) => s != ""
  }

  /** A truthy argument is stored as it was given. */
  function Stored(a: PreviousHashArg): PreviousHash
    requires Truthy(a)
  {
    match a
    case IntArg(n) => IntHash(n)
    case TextArg(s) => TextHash(s)
  }

  /** `new_block` with a falsy `previous_hash` on an empty chain fails on
      `self.chain[-1]`. */
  datatype Error = IndexError

  datatype Result<T> = Ok(value: T) | Err(error: Error)

  /** The genesis block's sentinels. */
  const GenesisProof := 100
  const GenesisPreviousHash := IntArg(1)

  predicate IsGenesis(b: Block) {
    b.index == 1 && b.transactions == [] && b.proof == GenesisProof && b.previousHash == IntHash(1)
  }

  // ---------------------------------------------------------------------------
  // The chain and its invariants

  /** Each block's index is its 1-based position. */
  predicate IndexedFromOne(chain: seq<Block>) {
    forall i :: 0 <= i < |chain| ==> chain[i].index == i + 1
  }

  /** Every block after the first stores the hash of its predecessor. */
  predicate HashLinked(sha: Sha256, chain: seq<Block>) {
    forall i :: 0 < i < |chain| ==> chain[i].previousHash == TextHash(Hash(sha, chain[i - 1]))
  }

  /** All sealed transactions, block after block, in order. */
  function Sealed(chain: seq<Block>): seq<Transaction> {
    if chain == [] then [] else chain[0].transactions + Sealed(chain[1..])
  }

  lemma {:induction false} SealedAppend(chain: seq<Block>, b: Block)
    ensures Sealed(chain + [b]) == Sealed(chain) + b.transactions
  {
    if chain != [] {
      assert (chain + [b])[1..] == chain[1..] + [b];
      SealedAppend(chain[1..], b);
    } else {
      assert ([b])[1..] == [];
    }
  }

  /** The block `new_block(proof, previous_hash)` builds from the chain and the
      pool, or the IndexError it raises. */
  function NextBlock(sha: Sha256, chain: seq<Block>, pending: seq<Transaction>,
                     proof: int, previousHash: PreviousHashArg, timestamp: FloatText): (r: Result<Block>)
    ensures r.Err? <==> chain == [] && !Truthy(previousHash)
  {
    if Truthy(previousHash) then
      Ok(Block(|chain| + 1, timestamp, pending, proof, Stored(previousHash)))
    else if chain == [] then
      Err(IndexError)
    else
      Ok(Block(|chain| + 1, timestamp, pending, proof, TextHash(Hash(sha, chain[|chain| - 1]))))
  }

  /** The new block takes the next index, so indexes stay positions. */
  lemma NextBlockKeepsIndexing(sha: Sha256, chain: seq<Block>, pending: seq<Transaction>,
                               proof: int, previousHash: PreviousHashArg, timestamp: FloatText)
    requires IndexedFromOne(chain)
    requires chain != [] || Truthy(previousHash)
    ensures IndexedFromOne(chain + [NextBlock(sha, chain, pending, proof, previousHash, timestamp).value])
  {
    var c := chain + [NextBlock(sha, chain, pending, proof, previousHash, timestamp).value];
    forall i | 0 <= i < |c| ensures c[i].index == i + 1 {
      if i < |chain| {
        assert c[i] == chain[i];
      }
    }
  }

  /** The new block seals the whole pool, in order: nothing is lost or
      sealed twice. */
  lemma NextBlockSealsPool(sha: Sha256, chain: seq<Block>, pending: seq<Transaction>,
                           proof: int, previousHash: PreviousHashArg, timestamp: FloatText)
    requires chain != [] || Truthy(previousHash)
    ensures Sealed(chain + [NextBlock(sha, chain, pending, proof, previousHash, timestamp).value])
            == Sealed(chain) + pending
  {
    SealedAppend(chain, NextBlock(sha, chain, pending, proof, previousHash, timestamp).value);
  }

  /** A block that stores the hash of the last block extends a hash-linked
      chain to a hash-linked chain. */
  lemma HashLinkedAppend(sha: Sha256, chain: seq<Block>, b: Block)
    requires HashLinked(sha, chain) && chain != []
    requires b.previousHash == TextHash(Hash(sha, chain[|chain| - 1]))
    ensures HashLinked(sha, chain + [b])
  {
    var c := chain + [b];
    forall i | 0 < i < |c| ensures c[i].previousHash == TextHash(Hash(sha, c[i - 1])) {
      if i < |chain| {
        assert c[i] == chain[i] && c[i - 1] == chain[i - 1];
      } else {
        assert c[i] == b && c[i - 1] == chain[|chain| - 1];
      }
    }
  }

  /** With a falsy `previous_hash` the new block stores the hash of the block
      that was last, so a hash-linked chain stays hash-linked. */
  lemma NextBlockKeepsLinks(sha: Sha256, chain: seq<Block>, pending: seq<Transaction>,
                            proof: int, previousHash: PreviousHashArg, timestamp: FloatText)
    requires HashLinked(sha, chain) && chain != [] && !Truthy(previousHash)
    ensures NextBlock(sha, chain, pending, proof, previousHash, timestamp).Ok?
    ensures HashLinked(sha, chain + [NextBlock(sha, chain, pending, proof, previousHash, timestamp).value])
  {
    HashLinkedAppend(sha, chain, NextBlock(sha, chain, pending, proof, previousHash, timestamp).value);
  }

  /** A truthy `previous_hash` is stored unchecked: a caller passing text that
      is not a digest breaks the hash link on any non-empty chain. */
  lemma TruthyArgumentCanBreakLinks(sha: Sha256, chain: seq<Block>, pending: seq<Transaction>,
                                    proof: int, timestamp: FloatText)
    requires chain != []
    ensures NextBlock(sha, chain, pending, proof, TextArg("abc"), timestamp).Ok?
    ensures !HashLinked(sha, chain + [NextBlock(sha, chain, pending, proof, TextArg("abc"), timestamp).value])
  {
    var c := chain + [NextBlock(sha, chain, pending, proof, TextArg("abc"), timestamp).value];
    assert c[|chain|].previousHash == TextHash("abc");
    assert |Hash(sha, c[|chain| - 1])| == 64;
  }

  // ---------------------------------------------------------------------------
  // The ledger object

  class Blockchain {
    /** `hashlib.sha256(...).hexdigest()` */
    const sha256: Sha256
    var chain: seq<Block>
    var currentTransactions: seq<Transaction>
    /** Every transaction ever added, in the order it was added. */
    ghost var submitted: seq<Transaction>

    /** What holds at every step, also while the constructor runs. */
    ghost predicate Consistent()
      reads this
    {
      IndexedFromOne(chain) && Sealed(chain) + currentTransactions == submitted
    }

    /** The object invariant: a non-empty chain that starts with the genesis
        block. */
    ghost predicate Valid()
      reads this
    {
      Consistent() && chain != [] && IsGenesis(chain[0])
    }

    /** `Blockchain()`: an empty pool and a chain holding only the genesis
        block. */
    constructor (sha256: Sha256, timestamp: FloatText)
      ensures Valid()
      ensures this.sha256 == sha256
      ensures chain == [Block(1, timestamp, [], GenesisProof, IntHash(1))]
      ensures currentTransactions == [] && submitted == []
    {
      this.sha256 := sha256;
      chain := [];
      currentTransactions := [];
      submitted := [];
      new;
      var genesis := NewBlock(GenesisProof, GenesisPreviousHash, timestamp);
    }

    /** `new_block(proof, previous_hash)`: appends the block NextBlock
        describes and empties the pool, or raises and changes nothing. */
    method NewBlock(proof: int, previousHash: PreviousHashArg, timestamp: FloatText) returns (r: Result<Block>)
      requires Consistent()
      modifies this
      ensures r == NextBlock(sha256, old(chain), old(currentTransactions), proof, previousHash, timestamp)
      ensures r.Ok? ==> chain == old(chain) + [r.value] && currentTransactions == []
      ensures r.Err? ==> chain == old(chain) && currentTransactions == old(currentTransactions)
      ensures submitted == old(submitted)
      ensures Consistent()
      ensures old(Valid()) ==> r.Ok? && Valid()
      ensures old(HashLinked(sha256, chain)) && !Truthy(previousHash) ==> HashLinked(sha256, chain)
    {
      var link: PreviousHash;
      if Truthy(previousHash) {
        link := Stored(previousHash);
      } else if chain == [] {
        return Err(IndexError);
      } else {
        link := TextHash(Hash(sha256, chain[|chain| - 1]));
      }
      var block := Block(|chain| + 1, timestamp, currentTransactions, proof, link);
      NextBlockKeepsIndexing(sha256, chain, currentTransactions, proof, previousHash, timestamp);
      NextBlockSealsPool(sha256, chain, currentTransactions, proof, previousHash, timestamp);
      if !Truthy(previousHash) && HashLinked(sha256, chain) {
        NextBlockKeepsLinks(sha256, chain, currentTransactions, proof, previousHash, timestamp);
      }
      currentTransactions := [];
      chain := chain + [block];
      r := Ok(block);
    }

    /** `new_transaction(sender, recipient, amount)`: queues the transaction
        and returns the index of the block that will seal it. */
    method NewTransaction(sender: string, recipient: string, amount: int) returns (index: int)
      requires Valid()
      modifies this
      ensures Valid()
      ensures chain == old(chain)
      ensures currentTransactions == old(currentTransactions) + [Transaction(sender, recipient, amount)]
      ensures submitted == old(submitted) + [Transaction(sender, recipient, amount)]
      ensures index == old(LastBlock()).index + 1 == |chain| + 1
    {
      currentTransactions := currentTransactions + [Transaction(sender, recipient, amount)];
      submitted := submitted + [Transaction(sender, recipient, amount)];
      index := LastBlock().index + 1;
    }

    /** `last_block`: the block with the highest index, which is the chain's
        length. */
    function LastBlock(): (b: Block)
      reads this
      requires Valid()
      ensures b == chain[|chain| - 1]
      ensures b.index == |chain|
      ensures forall i :: 0 <= i < |chain| - 1 ==> chain[i].index < b.index
    {
      chain[|chain| - 1]
    }

    /** `proof_of_work(last_proof)`: counts up from 0 to the first valid proof.
        The Python method loops forever when there is none; the model asks for one. */
    method ProofOfWork(lastProof: int) returns (proof: nat)
      requires exists p: nat :: ValidProof(sha256, lastProof, p)
      ensures ValidProof(sha256, lastProof, proof)
      ensures forall q: nat :: q < proof ==> !ValidProof(sha256, lastProof, q)
    {
      ghost var bound: nat :| ValidProof(sha256, lastProof, bound);
      proof := 0;
      while !ValidProof(sha256, lastProof, proof)
        invariant proof <= bound
        invariant forall q: nat :: q < proof ==> !ValidProof(sha256, lastProof, q)
        decreases bound - proof
      {
        proof := proof + 1;
      }
    }
  }

  /** A client's run: construct the ledger, submit one transaction, search a
      proof against the genesis proof and seal the next block with it. The
      index `new_transaction` announced is the index of the block that seals
      the transaction, and that block is linked to the genesis block by its
      hash. */
  method SubmitAndMine(sha: Sha256, t0: FloatText, t1: FloatText,
                       sender: string, recipient: string, amount: int)
    returns (announced: int, sealed: Block, length: nat, pending: seq<Transaction>)
    requires exists p: nat :: ValidProof(sha, GenesisProof, p)
    ensures announced == 2 && sealed.index == announced
    ensures sealed.transactions == [Transaction(sender, recipient, amount)]
    ensures ValidProof(sha, GenesisProof, sealed.proof) && sealed.timestamp == t1
    ensures sealed.previousHash == TextHash(Hash(sha, Block(1, t0, [], GenesisProof, IntHash(1))))
    ensures length == 2 && pending == []
  {
    var ledger := new Blockchain(sha, t0);
    announced := ledger.NewTransaction(sender, recipient, amount);
    var proof := ledger.ProofOfWork(ledger.LastBlock().proof);
    var r := ledger.NewBlock(proof, NoneArg, t1);
    sealed := r.value;
    length := |ledger.chain|;
    pending := ledger.currentTransactions;
  }
}
