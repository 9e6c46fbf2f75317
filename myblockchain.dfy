/** The proof-of-work ledger of myblockchain.py: a chain of block records, a
    queue of pending transactions, a peer set, the proof search, whole-chain
    validation and longest-valid-chain conflict resolution.

    SHA-256 over the canonical JSON of a block, and SHA-256 over the proof
    guess, are foreign library calls; they enter the model as the
    function-valued parameters BlockHasher and HexDigest, about which nothing
    is assumed. */
module MyBlockchain {
  import opened Decimal

  datatype Option<T> = None | Some(value: T)

  /** The Python exceptions that the modelled code can raise. */
  datatype Fault = IndexError | NameError

  datatype Result<T> = Ok(value: T) | Err(fault: Fault)

  datatype Transaction = Transaction(sender: string, recipient: string, amount: int)

  /** A previous_hash value. Genesis stores the integer 1; every other block
      stores a hex digest string, or whatever its caller passed in. */
  datatype Link = IntLink(n: int) | StrLink(s: string)

  datatype Block = Block(
    index: int,
    timestamp: real,
    transactions: seq<Transaction>,
    proof: int,
    previousHash: Link)

  /** hash(block): SHA-256 of json.dumps(block, sort_keys=True), as hex. */
  type BlockHasher = Block -> string

  /** hashlib.sha256(text).hexdigest(). */
  type HexDigest = string -> string

  /** Python truthiness of the previous_hash argument: None, 0 and "" are falsy. */
  predicate Truthy(previousHash: Option<Link>) {
    match previousHash
    case None => false
    case Some(IntLink(n)) => n != 0
    case Some(StrLink(s)) => s != ""
  }

  /** The text whose digest valid_proof inspects: both proofs in decimal, back to back. */
  function Guess(lastProof: int, proof: int): string {
    IntToDecimal(lastProof) + IntToDecimal(proof)
  }

  /** valid_proof: the first four hex characters of the digest are "0000".
      A digest shorter than four characters never matches. */
  predicate ValidProof(digest: HexDigest, lastProof: int, proof: int) {
    var h := digest(Guess(lastProof, proof));
    |h| >= 4 && h[..4] == "0000"
  }

  /** The pairwise check valid_chain makes between neighbouring blocks. */
  predicate Linked(blockHash: BlockHasher, digest: HexDigest, prev: Block, next: Block) {
    && next.previousHash == StrLink(blockHash(prev))
    && ValidProof(digest, prev.proof, next.proof)
  }

  predicate IsValidChain(blockHash: BlockHasher, digest: HexDigest, chain: seq<Block>) {
    forall i :: 1 <= i < |chain| ==> Linked(blockHash, digest, chain[i - 1], chain[i])
  }

  /** Every block's index is its position plus one. valid_chain does not check this. */
  predicate IndexedChain(chain: seq<Block>) {
    forall i :: 0 <= i < |chain| ==> chain[i].index == i + 1
  }

  /** proof_of_work: linear search from 0 for the first proof that valid_proof
      accepts. The source loops forever when there is none; the ghost bound
      names one valid proof, which makes the search terminate. */
  method ProofOfWork(digest: HexDigest, lastProof: int, ghost bound: nat) returns (proof: nat)
    requires ValidProof(digest, lastProof, bound)
    ensures ValidProof(digest, lastProof, proof)
    ensures forall r: nat :: r < proof ==> !ValidProof(digest, lastProof, r)
  {
    proof := 0;
    while !ValidProof(digest, lastProof, proof)
      invariant proof <= bound
      invariant forall r: nat :: r < proof ==> !ValidProof(digest, lastProof, r)
      decreases bound - proof
    {
      proof := proof + 1;
    }
  }

  /** valid_chain, as intended. Line 130 of the source hashes the undefined
      name lash_block, which raises NameError; the model hashes last_block,
      the block examined just before (see ValidChainAsWritten). An empty
      chain raises IndexError at chain[0]. */
  method ValidChain(blockHash: BlockHasher, digest: HexDigest, chain: seq<Block>) returns (r: Result<bool>)
    ensures chain == [] ==> r == Err(IndexError)
    ensures chain != [] ==> r == Ok(IsValidChain(blockHash, digest, chain))
  {
    if chain == [] {
      return Err(IndexError);
    }
    var lastBlock := chain[0];
    var currentIndex := 1;
    while currentIndex < |chain|
      invariant 1 <= currentIndex <= |chain|
      invariant lastBlock == chain[currentIndex - 1]
      invariant forall j :: 1 <= j < currentIndex ==> Linked(blockHash, digest, chain[j - 1], chain[j])
    {
      var block := chain[currentIndex];
      if block.previousHash != StrLink(blockHash(lastBlock)) {
        assert !Linked(blockHash, digest, chain[currentIndex - 1], chain[currentIndex]);
        return Ok(false);
      }
      if !ValidProof(digest, lastBlock.proof, block.proof) {
        assert !Linked(blockHash, digest, chain[currentIndex - 1], chain[currentIndex]);
        return Ok(false);
      }
      lastBlock := block;
      currentIndex := currentIndex + 1;
    }
    return Ok(true);
  }

  /** valid_chain exactly as written: chain[0] fails on an empty list, a
      single block passes, and any longer chain reaches lash_block. */
  function ValidChainAsWritten(chain: seq<Block>): Result<bool> {
    if chain == [] then Err(IndexError)
    else if |chain| == 1 then Ok(true)
    else Err(NameError)
  }

  /** The code as written gives the intended outcome (IndexError on an
      empty chain, otherwise the verdict of IsValidChain) exactly on chains of
      at most one block; on every longer chain it raises instead. */
  lemma AsWrittenAgreesIff(blockHash: BlockHasher, digest: HexDigest, chain: seq<Block>)
    ensures ValidChainAsWritten(chain)
            == (if chain == [] then Err(IndexError) else Ok(IsValidChain(blockHash, digest, chain)))
            <==> |chain| <= 1
    ensures |chain| >= 2 ==> ValidChainAsWritten(chain) == Err(NameError)
  {
  }

  /** A well-linked two-block chain that the code as written rejects with a
      NameError while the intended check accepts it. */
  lemma LashBlockRejectsValidChain()
    ensures var c := [Block(1, 0.0, [], 100, IntLink(1)), Block(2, 0.0, [], 0, StrLink("h"))];
            && IsValidChain(_ => "h", _ => "0000", c)
            && ValidChainAsWritten(c) == Err(NameError)
  {
    var c := [Block(1, 0.0, [], 100, IntLink(1)), Block(2, 0.0, [], 0, StrLink("h"))];
    var digest: HexDigest := _ => "0000";
    assert ValidProof(digest, c[0].proof, c[1].proof);
  }

  /** One peer's answer to GET /chain: the status code and the body's
      'length' and 'chain' fields. The length is the peer's own claim. */
  datatype PeerResponse = PeerResponse(statusCode: int, length: int, chain: seq<Block>)

  /** A response resolve_confilicts would adopt over the running maximum m. */
  predicate Candidate(blockHash: BlockHasher, digest: HexDigest, m: int, p: PeerResponse) {
    && p.statusCode == 200
    && p.length > m
    && p.chain != []
    && IsValidChain(blockHash, digest, p.chain)
  }

  /** The loop of resolve_confilicts from a running maximum and a best chain
      so far: Ok(Some(c)) replaces the chain by c, Ok(None) keeps it, and
      Err is an exception raised by valid_chain. Chains are checked by the
      intended valid_chain (IsValidChain), so the NameError of line 130 as
      written does not arise here. */
  function Resolve(blockHash: BlockHasher, digest: HexDigest, maxLength: int,
                   best: Option<seq<Block>>, responses: seq<PeerResponse>): (r: Result<Option<seq<Block>>>)
    ensures r.Err? ==> r.fault == IndexError
    ensures r.Ok? && best.Some? ==> r.value.Some?
    ensures r.Ok? && r.value.Some? && r.value != best
            ==> r.value.value != [] && IsValidChain(blockHash, digest, r.value.value)
    decreases |responses|
  {
    if responses == [] then Ok(best)
    else
      var p := responses[0];
      if p.statusCode == 200 && p.length > maxLength then
        if p.chain == [] then Err(IndexError)
        else if IsValidChain(blockHash, digest, p.chain) then
          Resolve(blockHash, digest, p.length, Some(p.chain), responses[1..])
        else
          Resolve(blockHash, digest, maxLength, best, responses[1..])
      else
        Resolve(blockHash, digest, maxLength, best, responses[1..])
  }

  /** A replacement is found exactly when some response is a candidate. */
  lemma {:induction false} ResolveFindsIff(blockHash: BlockHasher, digest: HexDigest, m: int,
                                           best: Option<seq<Block>>, rs: seq<PeerResponse>)
    requires Resolve(blockHash, digest, m, best, rs).Ok?
    ensures Resolve(blockHash, digest, m, best, rs).value.Some?
            <==> best.Some? || exists j :: 0 <= j < |rs| && Candidate(blockHash, digest, m, rs[j])
    decreases |rs|
  {
    if rs != [] {
      var p := rs[0];
      if Candidate(blockHash, digest, m, p) {
        ResolveFindsIff(blockHash, digest, p.length, Some(p.chain), rs[1..]);
      } else {
        ResolveFindsIff(blockHash, digest, m, best, rs[1..]);
        if exists j :: 0 <= j < |rs| && Candidate(blockHash, digest, m, rs[j]) {
          var j :| 0 <= j < |rs| && Candidate(blockHash, digest, m, rs[j]);
          assert rs[1..][j - 1] == rs[j];
        }
        if exists j :: 0 <= j < |rs[1..]| && Candidate(blockHash, digest, m, rs[1..][j]) {
          var j :| 0 <= j < |rs[1..]| && Candidate(blockHash, digest, m, rs[1..][j]);
          assert rs[j + 1] == rs[1..][j];
        }
      }
    }
  }

  /** The adopted chain belongs to the first response of greatest reported
      length among the candidates, or is the best chain carried in when no
      response is a candidate. */
  ghost predicate FirstLongest(blockHash: BlockHasher, digest: HexDigest, m: int,
                               rs: seq<PeerResponse>, j: int)
  {
    && 0 <= j < |rs|
    && Candidate(blockHash, digest, m, rs[j])
    && (forall k :: 0 <= k < |rs| && Candidate(blockHash, digest, m, rs[k]) ==> rs[k].length <= rs[j].length)
    && (forall k :: 0 <= k < j && Candidate(blockHash, digest, m, rs[k]) ==> rs[k].length < rs[j].length)
  }

  /** Helper: a candidate in front raises the maximum, and the first longest
      candidate after it is the first longest of the whole sequence. */
  lemma FirstLongestAfterCandidate(blockHash: BlockHasher, digest: HexDigest, m: int,
                                   rs: seq<PeerResponse>, j: int)
    requires rs != [] && Candidate(blockHash, digest, m, rs[0])
    requires FirstLongest(blockHash, digest, rs[0].length, rs[1..], j)
    ensures FirstLongest(blockHash, digest, m, rs, j + 1)
  {
    var rest, top := rs[1..], rs[0].length;
    assert rs[j + 1] == rest[j];
    forall k | 0 <= k < |rs| && Candidate(blockHash, digest, m, rs[k])
      ensures rs[k].length <= rs[j + 1].length
      ensures k < j + 1 ==> rs[k].length < rs[j + 1].length
    {
      if k > 0 && rs[k].length > top {
        assert rest[k - 1] == rs[k];
        assert Candidate(blockHash, digest, top, rest[k - 1]);
      }
    }
  }

  /** Helper: a non-candidate in front changes nothing. */
  lemma FirstLongestAfterSkip(blockHash: BlockHasher, digest: HexDigest, m: int,
                              rs: seq<PeerResponse>, j: int)
    requires rs != [] && !Candidate(blockHash, digest, m, rs[0])
    requires FirstLongest(blockHash, digest, m, rs[1..], j)
    ensures FirstLongest(blockHash, digest, m, rs, j + 1)
  {
    var rest := rs[1..];
    assert rs[j + 1] == rest[j];
    forall k | 0 <= k < |rs| && Candidate(blockHash, digest, m, rs[k])
      ensures rs[k].length <= rs[j + 1].length
      ensures k < j + 1 ==> rs[k].length < rs[j + 1].length
    {
      assert k > 0;
      assert rest[k - 1] == rs[k];
    }
  }

  /** Helper: a candidate in front that nothing after it outgrows is the first longest. */
  lemma FirstLongestAtFront(blockHash: BlockHasher, digest: HexDigest, m: int, rs: seq<PeerResponse>)
    requires rs != [] && Candidate(blockHash, digest, m, rs[0])
    requires forall k :: 0 <= k < |rs[1..]| ==> !Candidate(blockHash, digest, rs[0].length, rs[1..][k])
    ensures FirstLongest(blockHash, digest, m, rs, 0)
  {
    var rest := rs[1..];
    forall k | 0 <= k < |rs| && Candidate(blockHash, digest, m, rs[k])
      ensures rs[k].length <= rs[0].length
    {
      if k > 0 {
        assert rest[k - 1] == rs[k];
      }
    }
  }

  lemma {:induction false} ResolveChoosesFirstLongest(blockHash: BlockHasher, digest: HexDigest, m: int,
                                                      best: Option<seq<Block>>, rs: seq<PeerResponse>, c: seq<Block>)
    requires Resolve(blockHash, digest, m, best, rs) == Ok(Some(c))
    ensures || (best == Some(c) && forall k :: 0 <= k < |rs| ==> !Candidate(blockHash, digest, m, rs[k]))
            || (exists j :: FirstLongest(blockHash, digest, m, rs, j) && rs[j].chain == c)
    decreases |rs|
  {
    if rs != [] {
      var p, rest := rs[0], rs[1..];
      if Candidate(blockHash, digest, m, p) {
        ResolveChoosesFirstLongest(blockHash, digest, p.length, Some(p.chain), rest, c);
        if exists j :: FirstLongest(blockHash, digest, p.length, rest, j) && rest[j].chain == c {
          var j :| FirstLongest(blockHash, digest, p.length, rest, j) && rest[j].chain == c;
          FirstLongestAfterCandidate(blockHash, digest, m, rs, j);
          assert rs[j + 1] == rest[j];
        } else {
          FirstLongestAtFront(blockHash, digest, m, rs);
        }
      } else {
        ResolveChoosesFirstLongest(blockHash, digest, m, best, rest, c);
        if exists j :: FirstLongest(blockHash, digest, m, rest, j) && rest[j].chain == c {
          var j :| FirstLongest(blockHash, digest, m, rest, j) && rest[j].chain == c;
          FirstLongestAfterSkip(blockHash, digest, m, rs, j);
          assert rs[j + 1] == rest[j];
        } else {
          forall k | 0 <= k < |rs|
            ensures !Candidate(blockHash, digest, m, rs[k])
          {
            if k > 0 {
              assert rest[k - 1] == rs[k];
            }
          }
        }
      }
    }
  }

  /** An exception escapes only from a 200 response that claims a length
      above the starting maximum but carries an empty chain. */
  lemma {:induction false} ResolveFaultsOnEmptyChain(blockHash: BlockHasher, digest: HexDigest, m: int,
                                                     best: Option<seq<Block>>, rs: seq<PeerResponse>)
    requires Resolve(blockHash, digest, m, best, rs).Err?
    ensures Resolve(blockHash, digest, m, best, rs).fault == IndexError
    ensures exists j :: 0 <= j < |rs| && rs[j].statusCode == 200 && rs[j].length > m && rs[j].chain == []
    decreases |rs|
  {
    var p, rest := rs[0], rs[1..];
    if p.statusCode == 200 && p.length > m && p.chain == [] {
      assert rs[0] == p;
    } else {
      var m' := if p.statusCode == 200 && p.length > m && IsValidChain(blockHash, digest, p.chain) then p.length else m;
      var best' := if m' == m then best else Some(p.chain);
      ResolveFaultsOnEmptyChain(blockHash, digest, m', best', rest);
      var j :| 0 <= j < |rest| && rest[j].statusCode == 200 && rest[j].length > m' && rest[j].chain == [];
      assert rs[j + 1] == rest[j];
    }
  }

  /** When every peer reports its true length, an adopted chain is strictly
      longer than the local one. */
  lemma ResolveHonestGrows(blockHash: BlockHasher, digest: HexDigest, m: int,
                           rs: seq<PeerResponse>, c: seq<Block>)
    requires forall j :: 0 <= j < |rs| ==> rs[j].length == |rs[j].chain|
    requires Resolve(blockHash, digest, m, None, rs) == Ok(Some(c))
    ensures |c| > m && c != [] && IsValidChain(blockHash, digest, c)
  {
    ResolveChoosesFirstLongest(blockHash, digest, m, None, rs, c);
  }

  /** The source trusts the reported length: a peer that claims 5 blocks
      while sending a single valid block replaces a 3-block chain. */
  lemma DishonestPeerShrinksChain(blockHash: BlockHasher, digest: HexDigest, g: Block)
    ensures Resolve(blockHash, digest, 3, None, [PeerResponse(200, 5, [g])]) == Ok(Some([g]))
  {
    var rs := [PeerResponse(200, 5, [g])];
    assert IsValidChain(blockHash, digest, rs[0].chain);
    assert rs[1..] == [];
  }

  /** Appending a block keeps a chain valid exactly when the block is linked
      to the old last block. */
  lemma ValidExtendIff(blockHash: BlockHasher, digest: HexDigest, chain: seq<Block>, b: Block)
    requires chain != []
    ensures IsValidChain(blockHash, digest, chain + [b])
            <==> IsValidChain(blockHash, digest, chain) && Linked(blockHash, digest, chain[|chain| - 1], b)
  {
    var c := chain + [b];
    if IsValidChain(blockHash, digest, c) {
      forall i | 1 <= i < |chain|
        ensures Linked(blockHash, digest, chain[i - 1], chain[i])
      {
        assert c[i - 1] == chain[i - 1] && c[i] == chain[i];
      }
      assert c[|chain| - 1] == chain[|chain| - 1] && c[|chain|] == b;
      assert Linked(blockHash, digest, c[|chain| - 1], c[|chain|]);
    }
    if IsValidChain(blockHash, digest, chain) && Linked(blockHash, digest, chain[|chain| - 1], b) {
      forall i | 1 <= i < |c|
        ensures Linked(blockHash, digest, c[i - 1], c[i])
      {
        if i < |chain| {
          assert c[i - 1] == chain[i - 1] && c[i] == chain[i];
        } else {
          assert c[i - 1] == chain[|chain| - 1] && c[i] == b;
        }
      }
    }
  }

  /** Tamper detection: replacing a non-last block by one with a different
      hash breaks the link from its successor. */
  lemma TamperBreaksChain(blockHash: BlockHasher, digest: HexDigest, chain: seq<Block>, i: nat, b: Block)
    requires IsValidChain(blockHash, digest, chain)
    requires i + 1 < |chain|
    requires blockHash(b) != blockHash(chain[i])
    ensures !IsValidChain(blockHash, digest, chain[i := b])
  {
    var c := chain[i := b];
    assert Linked(blockHash, digest, chain[i], chain[i + 1]);
    assert c[i + 1] == chain[i + 1] && c[i] == b;
    assert !Linked(blockHash, digest, c[i], c[i + 1]);
  }

  /** With the last proof fixed, distinct proofs give distinct guess texts,
      so every step of the proof_of_work search digests a new text. */
  lemma GuessInjective(lastProof: int, proof: int, other: int)
    ensures Guess(lastProof, proof) == Guess(lastProof, other) ==> proof == other
  {
    if Guess(lastProof, proof) == Guess(lastProof, other) {
      var k := |IntToDecimal(lastProof)|;
      assert IntToDecimal(proof) == Guess(lastProof, proof)[k..];
      assert IntToDecimal(other) == Guess(lastProof, other)[k..];
      IntToDecimalInjective(proof, other);
    }
  }

  /** valid_proof sees only the concatenated text: the pairs (1, 23) and
      (12, 3) get the same verdict under every digest. */
  lemma GuessIsAmbiguous(digest: HexDigest)
    ensures ValidProof(digest, 1, 23) == ValidProof(digest, 12, 3)
  {
    assert NatToDecimal(23) == NatToDecimal(2) + [DigitChar(3)];
    assert NatToDecimal(12) == NatToDecimal(1) + [DigitChar(2)];
    assert Guess(1, 23) == Guess(12, 3);
  }

  /** The BlockChain class: the chain, the pending transactions and the peers. */
  class BlockChain {
    const blockHash: BlockHasher
    const digest: HexDigest
    var chain: seq<Block>
    var currentTransactions: seq<Transaction>
    var nodes: set<string>

    /** The chain is never empty once the genesis block exists. */
    predicate Valid()
      reads this
    {
      chain != []
    }

    /** __init__: empty state, then the genesis block through new_block with
        previous_hash 1 and proof 100. */
    constructor (blockHash: BlockHasher, digest: HexDigest, timestamp: real)
      ensures this.blockHash == blockHash && this.digest == digest
      ensures chain == [Block(1, timestamp, [], 100, IntLink(1))]
      ensures currentTransactions == [] && nodes == {}
      ensures Valid() && IndexedChain(chain)
    {
      this.blockHash := blockHash;
      this.digest := digest;
      chain := [];
      currentTransactions := [];
      nodes := {};
      new;
      var genesis := NewBlock(100, Some(IntLink(1)), timestamp);
    }

    /** new_block: seals the pending transactions into a new block and
        appends it. A falsy previous_hash falls back to the hash of the last
        block, which needs a last block. */
    method NewBlock(proof: int, previousHash: Option<Link>, timestamp: real) returns (block: Block)
      requires chain != [] || Truthy(previousHash)
      modifies this`chain, this`currentTransactions
      ensures block.index == |old(chain)| + 1
      ensures block.timestamp == timestamp && block.proof == proof
      ensures block.transactions == old(currentTransactions)
      ensures block.previousHash
              == if Truthy(previousHash) then previousHash.value
                 else StrLink(blockHash(old(chain)[|old(chain)| - 1]))
      ensures chain == old(chain) + [block] && Valid()
      ensures currentTransactions == []
      ensures chain[|chain| - 1].index == |chain|
      ensures IndexedChain(old(chain)) ==> IndexedChain(chain)
      ensures && old(chain) != [] && !Truthy(previousHash)
              && IsValidChain(blockHash, digest, old(chain))
              && ValidProof(digest, old(chain)[|old(chain)| - 1].proof, proof)
              ==> IsValidChain(blockHash, digest, chain)
    {
      var link := if Truthy(previousHash) then previousHash.value else StrLink(blockHash(chain[|chain| - 1]));
      block := Block(|chain| + 1, timestamp, currentTransactions, proof, link);
      if chain != [] && !Truthy(previousHash) {
        ValidExtendIff(blockHash, digest, chain, block);
      }
      currentTransactions := [];
      chain := chain + [block];
    }

    /** new_transaction: queues a transaction and returns the index of the
        block that will hold it. */
    method NewTransaction(sender: string, recipient: string, amount: int) returns (index: int)
      requires Valid()
      modifies this`currentTransactions
      ensures currentTransactions == old(currentTransactions) + [Transaction(sender, recipient, amount)]
      ensures index == chain[|chain| - 1].index + 1
      ensures IndexedChain(chain) ==> index == |chain| + 1
    {
      currentTransactions := currentTransactions + [Transaction(sender, recipient, amount)];
      index := LastBlock().index + 1;
    }

    /** last_block: the final block; on an indexed chain its index is the length. */
    function LastBlock(): (b: Block)
      reads this
      requires Valid()
      ensures b == chain[|chain| - 1]
      ensures IndexedChain(chain) ==> b.index == |chain|
    {
      chain[|chain| - 1]
    }

    /** register_node: the peer set gains urlparse(address).netloc, which the
        caller supplies. */
    method RegisterNode(netloc: string)
      modifies this`nodes
      ensures nodes == old(nodes) + {netloc}
    {
      nodes := nodes + {netloc};
    }

    /** resolve_confilicts over the peers' answers, one per registered peer,
        in the order the peer set is iterated. An exception from valid_chain
        leaves the chain as it was. */
    method ResolveConflicts(responses: seq<PeerResponse>) returns (r: Result<bool>)
      requires Valid()
      requires |responses| == |nodes|
      modifies this`chain
      ensures Valid()
      ensures match Resolve(blockHash, digest, |old(chain)|, None, responses)
              case Err(f) => r == Err(f) && chain == old(chain)
              case Ok(None) => r == Ok(false) && chain == old(chain)
              case Ok(Some(c)) => r == Ok(true) && chain == c
      ensures r == Ok(true) ==> IsValidChain(blockHash, digest, chain)
      ensures (forall j :: 0 <= j < |responses| ==> responses[j].length == |responses[j].chain|)
              ==> |chain| >= |old(chain)|
    {
      var newChain: Option<seq<Block>> := None;
      var maxLength := |chain|;
      var i := 0;
      while i < |responses|
        invariant 0 <= i <= |responses|
        invariant chain == old(chain)
        invariant Resolve(blockHash, digest, |chain|, None, responses)
                  == Resolve(blockHash, digest, maxLength, newChain, responses[i..])
      {
        var p := responses[i];
        assert responses[i..][1..] == responses[i + 1..];
        if p.statusCode == 200 && p.length > maxLength {
          var valid := ValidChain(blockHash, digest, p.chain);
          if valid.Err? {
            return Err(valid.fault);
          }
          if valid.value {
            maxLength := p.length;
            newChain := Some(p.chain);
          }
        }
        i := i + 1;
      }
      assert responses[i..] == [];
      if newChain.Some? {
        ResolveChoosesFirstLongest(blockHash, digest, |chain|, None, responses, newChain.value);
        if (forall j :: 0 <= j < |responses| ==> responses[j].length == |responses[j].chain|) {
          ResolveHonestGrows(blockHash, digest, |chain|, responses, newChain.value);
        }
      }
      // `if new_chain:` tests list truthiness; an adopted chain is never empty.
      if newChain.Some? && newChain.value != [] {
        chain := newChain.value;
        return Ok(true);
      }
      return Ok(false);
    }
  }
}
