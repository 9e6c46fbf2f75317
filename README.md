# Hash-linked ledgers, modelled in Dafny

This project models the two small ledgers of the blockchain-demo repository.

**myblockchain.py** (module `MyBlockchain`). A `BlockChain` object holds:
- a chain of block records (index, timestamp, transactions, proof, previous_hash);
- a queue of pending transactions;
- a set of peer addresses.

`new_block` seals the queue into a block, `new_transaction` queues a transaction, `proof_of_work` searches for the next proof, `valid_chain` checks a whole chain pairwise, and `resolve_confilicts` adopts the first longest valid chain offered by the peers. The class is a Dafny `class` whose methods reassign the `chain`, `currentTransactions` and `nodes` fields. `proof_of_work` and `valid_chain` use no instance state, so they are module-level methods with loops, proved against the specification predicates `ValidProof` and `IsValidChain`. The loop of `resolve_confilicts` is specified by the function `Resolve`, a left-to-right reduction over the peers' responses. Lemmas state what it chooses.

**blockchain-demo.py** (module `BlockchainDemo`). `Block` objects cache the SHA-256 of their own fields. `BlockChain.addBlock` rewrites a passed-in block's `preHash` and `hash` fields in place before appending it. Both are Dafny classes. The invariant "every cached hash is current and every block points at its predecessor's hash" is the ghost predicate `BlockChain.Valid`.

**Shared** (module `Decimal`). Python's `str()` of an integer, which both programs feed to SHA-256, is written out with a parser as its partner. A round-trip lemma shows the rendering is injective.

SHA-256 (with `json.dumps(..., sort_keys=True)` for whole blocks) is a foreign library call. It is a function-valued parameter: `BlockHasher` for `hash(block)`, and `HexDigest` for `sha256(text).hexdigest()`. Nothing is assumed about either function. The only concrete test kept is valid_proof's "first four characters are `0000`".

## Behaviour that follows the code

- The genesis block's `previous_hash` is the integer 1 (myblockchain.py:24). It is not a string. `Link` has an `IntLink` case for it.
- A new block's index is `len(chain) + 1` (myblockchain.py:33), not the last block's index plus one. `new_transaction` returns `last_block['index'] + 1` (myblockchain.py:58). The two agree exactly when the last block's index equals the chain's length. That holds after the constructor and after every `new_block` (`NewBlock` ensures it), and on every `IndexedChain`. It can fail only after `resolve_confilicts` adopts a peer chain: `valid_chain` never checks indices.
- `previous_hash or hash(last)` falls back on any falsy argument: `None`, `0` or `""` (`Truthy`).
- `valid_chain` raises IndexError on an empty chain (myblockchain.py:121). An empty chain is not treated as invalid. `resolve_confilicts` lets that exception escape and keeps its chain.
- `resolve_confilicts` compares the peer-reported `length`, not the length of the chain the peer sent.

## Model

| member | source | states |
|---|---|---|
| `Decimal.NatToDecimal` | myblockchain.py:100 | str(n) of a natural number is a non-empty string of digits whose first digit is 0 only for n = 0 |
| `Decimal.IntToDecimal` | myblockchain.py:100 | str(n) of an integer starts with a minus sign exactly when n is negative, and otherwise is all digits |
| `Decimal.NatRoundTrip` | myblockchain.py:100 | reading the decimal rendering of n back gives n |
| `Decimal.IntRoundTrip` | blockchain-demo.py:17 | parsing str(n) of any integer gives n back, sign included |
| `Decimal.IntToDecimalInjective` | blockchain-demo.py:17 | distinct integers have distinct str() renderings |
| `MyBlockchain.GuessInjective` | myblockchain.py:85-89 | with the last proof fixed, two proofs whose guess texts str(last_proof) + str(proof) coincide are equal, so each step of the proof_of_work search digests a text not tried before |
| `MyBlockchain.ProofOfWork` | myblockchain.py:78-89 | returns a proof that valid_proof accepts, and valid_proof rejects every smaller non-negative proof (the least valid proof) |
| `MyBlockchain.GuessIsAmbiguous` | myblockchain.py:100-102 | valid_proof digests only the concatenated text, so (1, 23) and (12, 3) get the same verdict under every hash |
| `MyBlockchain.ValidChain` | myblockchain.py:114-138 | an empty chain raises IndexError; otherwise the result is true iff every block from position 1 on holds the hash of its predecessor and a proof valid_proof accepts after its predecessor's proof |
| `MyBlockchain.AsWrittenAgreesIff` | myblockchain.py:121-138 | valid_chain as written gives the intended outcome (IndexError on an empty chain, otherwise the pairwise check's verdict) exactly when the chain has at most one block; on every longer chain it raises NameError from `lash_block` |
| `MyBlockchain.LashBlockRejectsValidChain` | myblockchain.py:130 | as written, valid_chain raises NameError on a correctly linked two-block chain that the intended check accepts |
| `MyBlockchain.ValidExtendIff` | myblockchain.py:121-138 | appending a block to a non-empty chain keeps it valid iff the old chain was valid and the block is linked to the old last block |
| `MyBlockchain.TamperBreaksChain` | myblockchain.py:130-134 | replacing any non-last block of a valid chain by a block with a different hash makes the chain invalid |
| `MyBlockchain.Resolve` | myblockchain.py:146-163 | the loop of resolve_confilicts from a running maximum and best chain: with valid_chain as intended (see ## Findings), the only escaping exception is IndexError, a best chain once found is never dropped, and any chain it adopts in place of the one carried in is non-empty and valid |
| `MyBlockchain.ResolveFindsIff` | myblockchain.py:146-166 | when no exception escapes, a replacement is found iff some response is a 200 with a reported length above the local length and a non-empty valid chain |
| `MyBlockchain.ResolveChoosesFirstLongest` | myblockchain.py:151-160 | the adopted chain comes from a candidate response whose reported length is the greatest among all candidates and strictly greater than every earlier candidate's (first seen wins ties) |
| `MyBlockchain.ResolveFaultsOnEmptyChain` | myblockchain.py:154-158 | an exception escapes only as IndexError, and only when some 200 response claims a length above the local length but carries an empty chain |
| `MyBlockchain.ResolveHonestGrows` | myblockchain.py:155-160 | when every peer reports its true length, an adopted chain is non-empty, valid and strictly longer than the local one |
| `MyBlockchain.DishonestPeerShrinksChain` | myblockchain.py:155-163 | a peer that claims length 5 while sending one block replaces a 3-block chain, so the chain can shrink |
| `MyBlockchain.BlockChain.constructor` | myblockchain.py:18-24 | a new ledger holds exactly the genesis block (index 1, proof 100, previous_hash the integer 1, no transactions), an empty queue and no peers |
| `MyBlockchain.BlockChain.NewBlock` | myblockchain.py:26-42 | appends exactly one block with index old length + 1, carrying the old queue in order, with the given previous_hash if truthy and else the hash of the old last block; earlier blocks are unchanged, the new last block's index equals the new length, the queue is emptied, the index invariant and (for a hash-defaulted block with a valid proof) chain validity are preserved |
| `MyBlockchain.BlockChain.NewTransaction` | myblockchain.py:44-58 | appends exactly one transaction to the end of the queue, leaves the chain unchanged, and returns the last block's index plus one, which is length + 1 on an indexed chain |
| `MyBlockchain.BlockChain.LastBlock` | myblockchain.py:71-76 | the final block of the chain, whose index is the chain length on an indexed chain |
| `MyBlockchain.BlockChain.RegisterNode` | myblockchain.py:104-112 | the peer set gains the given netloc (`urlparse(address).netloc`) and nothing else |
| `MyBlockchain.BlockChain.ResolveConflicts` | myblockchain.py:140-166 | given one response per registered peer, replaces the chain by the first longest valid candidate and returns true, or keeps the chain and returns false, or keeps it and reports the escaping exception; an adopted chain is valid; with honest peers the length never decreases |
| `BlockchainDemo.Block.constructor` | blockchain-demo.py:8-13 | stores the four fields as given, and the cached hash equals calculateHash over them |
| `BlockchainDemo.SameFieldsSameHash` | blockchain-demo.py:15-19 | calculateHash depends only on index, preHash, timestamp and data: blocks equal on these have equal hashes |
| `BlockchainDemo.HashInputIsAmbiguous` | blockchain-demo.py:16-17 | without separators, index 1 with preHash "2x" and index 12 with preHash "x" digest the same text |
| `BlockchainDemo.BlockChain.constructor` | blockchain-demo.py:27-31 | a new chain holds exactly one block: index 0, timestamp "01/01/2018", data "Genesis block", preHash "0", and satisfies the chain invariant |
| `BlockchainDemo.BlockChain.CreateGenesisBlock` | blockchain-demo.py:30-31 | a fresh block with the fixed genesis fields and a current cached hash |
| `BlockchainDemo.BlockChain.GetLatestBlock` | blockchain-demo.py:33-34 | the last element of the chain; when the chain invariant holds, its cached hash agrees with its fields, so addBlock links to a current hash |
| `BlockchainDemo.BlockChain.AddBlock` | blockchain-demo.py:36-39 | the chain grows by newBlock alone; newBlock.preHash becomes the previous latest block's hash and its cached hash is recomputed; its index, timestamp and data, and every other block, are unchanged; the chain invariant is preserved when newBlock was not already in the chain |
| `BlockchainDemo.RunDemo` | blockchain-demo.py:47-50 | the demo script yields a valid two-block chain whose second block keeps the caller's index 1 and points at the genesis hash |

## Findings

| source | as written | input that shows it | evidently intended | confidence | as-written member | corrected member |
|---|---|---|---|---|---|---|
| myblockchain.py:130 | hashes the undefined name `lash_block`, so valid_chain raises NameError on every chain of two or more blocks (modelled by `ValidChainAsWritten`) | a two-block chain whose second block holds the first block's hash and a valid proof | hash `last_block`, the block examined just before, updated at line 136 | high (not executed) | `MyBlockchain.ValidChainAsWritten`, `MyBlockchain.LashBlockRejectsValidChain` | `MyBlockchain.ValidChain` |

## Left out

- Flask routes, the app object and its startup (myblockchain.py:169-262) are not modelled. This includes the `/mime` handler, which only composes `proof_of_work`, `new_transaction` and `new_block`, and the missing-field check of `/transactions/new`. They are HTTP adapters.
- SHA-256 and `json.dumps(..., sort_keys=True)` are not modelled. They are foreign library calls and enter as the parameters `BlockHasher` and `HexDigest`.
- `node_identifier` from `uuid4` is not modelled, because it is library randomness.
- URL parsing in `register_node` is not modelled, because it is library behaviour. `RegisterNode` receives `urlparse(address).netloc`. That is host:port only when the address carries a scheme such as `http://`. For a bare ip:port, the form the docstring documents, `netloc` is `""`, so the source adds the empty string to the peer set.
- The network fetch in `resolve_confilicts` is not modelled, because it is I/O. The module never imports `requests`, so `resolve_confilicts` as written raises NameError at myblockchain.py:152 whenever it is called with a non-empty peer set. `ResolveConflicts` instead receives each peer's status code, reported length and chain, in the peer set's iteration order. Exceptions from the fetch or from JSON decoding are not modelled.
- Transaction fields are typed: `amount` is an integer and `sender` and `recipient` are strings. The source passes request values through unchecked (myblockchain.py:210), so an amount can be any JSON number. Amounts are only stored and hashed through `BlockHasher`, so no modelled behaviour depends on their type.
- Peer chains are typed block records. Missing keys or non-integer proofs in a peer's JSON are not modelled.
- `time()` timestamps are not modelled, because they are floating point and nondeterministic. `NewBlock` takes the timestamp as a parameter.
- Debug `print`s in `valid_chain`, `display` and `__str__` are not modelled, because they only produce output.
- MyBlockchain.ProofOfWork: requires a ghost bound, a proof known to be valid. The source search runs forever when no valid proof exists.
- MyBlockchain.BlockChain.ResolveConflicts: chain length is proved not to decrease only when every peer reports its true length. The source trusts the reported length (see `DishonestPeerShrinksChain`).
- BlockchainDemo.BlockChain.AddBlock: the chain invariant is promised only when newBlock is not already in the chain. The source accepts such a block, and re-adding one rewrites a block that is already linked.
- Object identity of lists is not modelled. `new_block` stores the queue list itself and then rebinds the queue, and `resolve_confilicts` adopts the peer's list. Both are modelled as sequence values, which loses nothing here because no list is mutated after being shared.
