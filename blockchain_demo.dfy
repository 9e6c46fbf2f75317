/** The hash-linked chain of blockchain-demo.py: every block caches the
    SHA-256 of its own fields, and addBlock rewires a passed-in block to the
    latest one before appending it.

    SHA-256 is a foreign library call; it enters the model as the
    function-valued parameter HexDigest, about which nothing is assumed. */
module BlockchainDemo {
  import opened Decimal

  /** hashlib.sha256(text.encode('utf-8')).hexdigest(). */
  type HexDigest = string -> string

  /** The text calculateHash digests: str(index), preHash, timestamp and
      data, back to back with no separator. */
  function HashInput(index: int, preHash: string, timestamp: string, data: string): string {
    IntToDecimal(index) + preHash + timestamp + data
  }

  class Block {
    var index: int
    var timestamp: string
    var data: string
    var preHash: string
    var hash: string

    /** __init__: stores the four fields, then caches calculateHash(). */
    constructor (index: int, timestamp: string, data: string, preHash: string, digest: HexDigest)
      ensures this.index == index && this.timestamp == timestamp
      ensures this.data == data && this.preHash == preHash
      ensures HashIsCurrent(digest)
    {
      this.index := index;
      this.timestamp := timestamp;
      this.data := data;
      this.preHash := preHash;
      new;
      hash := CalculateHash(digest);
    }

    /** calculateHash: the digest of the block's current fields. */
    function CalculateHash(digest: HexDigest): string
      reads this
    {
      digest(HashInput(index, preHash, timestamp, data))
    }

    /** The cached hash agrees with the block's current fields. */
    predicate HashIsCurrent(digest: HexDigest)
      reads this
    {
      hash == CalculateHash(digest)
    }
  }

  /** calculateHash depends on the four fields only: blocks that agree on
      them agree on the hash, whatever their cached hash fields hold. */
  lemma SameFieldsSameHash(a: Block, b: Block, digest: HexDigest)
    requires a.index == b.index && a.preHash == b.preHash
    requires a.timestamp == b.timestamp && a.data == b.data
    ensures a.CalculateHash(digest) == b.CalculateHash(digest)
  {
  }

  /** With no separator between the fields, distinct field values can give
      the same hash input: index 1 with preHash "2x" and index 12 with
      preHash "x". */
  lemma HashInputIsAmbiguous(timestamp: string, data: string)
    ensures HashInput(1, "2x", timestamp, data) == HashInput(12, "x", timestamp, data)
  {
    assert IntToDecimal(12) == NatToDecimal(1) + [DigitChar(2)];
    assert IntToDecimal(1) + "2x" == IntToDecimal(12) + "x";
  }

  /** The BlockChain class: a non-empty list of Block objects. */
  class BlockChain {
    const digest: HexDigest
    var chain: seq<Block>

    /** Every cached hash is current and every block points at its
        predecessor's cached hash. */
    ghost predicate Valid()
      reads this, chain
    {
      && chain != []
      && (forall i :: 0 <= i < |chain| ==> chain[i].HashIsCurrent(digest))
      && (forall i :: 1 <= i < |chain| ==> chain[i].preHash == chain[i - 1].hash)
    }

    /** __init__: a chain holding only the genesis block. */
    constructor (digest: HexDigest)
      ensures this.digest == digest && Valid() && |chain| == 1 && fresh(chain[0])
      ensures chain[0].index == 0 && chain[0].timestamp == "01/01/2018"
      ensures chain[0].data == "Genesis block" && chain[0].preHash == "0"
    {
      this.digest := digest;
      new;
      var genesis := CreateGenesisBlock();
      chain := [genesis];
    }

    /** createBenesisBlock: the fixed first block. */
    method CreateGenesisBlock() returns (b: Block)
      ensures fresh(b) && b.HashIsCurrent(digest)
      ensures b.index == 0 && b.timestamp == "01/01/2018"
      ensures b.data == "Genesis block" && b.preHash == "0"
    {
      b := new Block(0, "01/01/2018", "Genesis block", "0", digest);
    }

    /** getLatestBlock: the last element of the chain; on a valid chain its
        cached hash, which addBlock links the next block to, is current. */
    function GetLatestBlock(): (b: Block)
      reads this, chain
      requires chain != []
      ensures b == chain[|chain| - 1]
      ensures Valid() ==> b.HashIsCurrent(digest)
    {
      chain[|chain| - 1]
    }

    /** addBlock: points newBlock at the latest block's hash, recomputes its
        cached hash and appends it. Only preHash and hash of newBlock change;
        the chain stays valid when newBlock was not already in it. */
    method AddBlock(newBlock: Block)
      requires chain != []
      modifies this`chain, newBlock`preHash, newBlock`hash
      ensures chain == old(chain) + [newBlock]
      ensures newBlock.preHash == old(GetLatestBlock().hash)
      ensures newBlock.HashIsCurrent(digest)
      ensures newBlock.index == old(newBlock.index) && newBlock.timestamp == old(newBlock.timestamp)
      ensures newBlock.data == old(newBlock.data)
      ensures old(Valid()) && newBlock !in old(chain) ==> Valid()
    {
      newBlock.preHash := GetLatestBlock().hash;
      newBlock.hash := newBlock.CalculateHash(digest);
      chain := chain + [newBlock];
    }
  }

  /** The script at the end of blockchain-demo.py, without display(): one
      block added after genesis, keeping the caller's index 1. */
  method RunDemo(digest: HexDigest) returns (coin: BlockChain)
    ensures fresh(coin) && coin.Valid() && |coin.chain| == 2
    ensures coin.chain[1].index == 1 && coin.chain[1].data == "data-1"
    ensures coin.chain[1].preHash == coin.chain[0].hash
  {
    coin := new BlockChain(digest);
    var b := new Block(1, "20/03/2018", "data-1", "", digest);
    coin.AddBlock(b);
  }
}
