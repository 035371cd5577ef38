/** The ledger object: the chain of blocks, the pending transactions, the
    block hash and the proof-of-work puzzle.

    Library code enters as function values. `hash` needs two library
    functions, the plain JSON serialiser and SHA-256, and takes both as
    `Primitives`; `valid_proof` and `proof_of_work` digest only a decimal
    text and take SHA-256 alone, as a `Sha256`.

    The body of `new_block` is not part of this model. It enters as a
    `NewBlock` function from the ledger's two fields, taken together as a
    `Ledger` value, to their new values; the class `Blockchain` keeps the
    same two fields as mutable state. */
module Chain {
  import opened PyValues
  import opened CanonicalJson
  import opened Text

  /** `hashlib.sha256(data).hexdigest()`. */
  type Sha256 = seq<byte> -> HexDigest

  /** The two library functions the hash is built from: `json.dumps` without
      `sort_keys` (it writes a dict's items in the order given) and SHA-256. */
  datatype Primitives = Primitives(dumps: Json -> Ascii, sha256: Sha256)

  /** The ledger's two fields, as one value. */
  datatype Ledger = Ledger(chain: seq<Json>, pending: seq<Json>)

  /** The effect of a call `new_block(proof=..., previous_hash=...)` on the
      ledger; the reading of the clock is folded into the function. */
  type NewBlock = (Ledger, Json, Json) -> Ledger

  /** The arguments of the genesis call. */
  const GenesisProof := 100
  const GenesisPreviousHash := 1

  /** A digest solves the puzzle when it starts with this many zeros. */
  const Difficulty := 4

  /** The transaction dict `new_transaction` builds, keys in this order. */
  function TransactionRecord(sender: Json, recipient: Json, amount: Json): (t: Json)
    ensures Subscript(t, "sender") == Ok(sender)
    ensures Subscript(t, "recipient") == Ok(recipient)
    ensures Subscript(t, "amount") == Ok(amount)
    ensures t.JDict? && |t.members| == 3
    ensures WellFormed(sender) && WellFormed(recipient) && WellFormed(amount) ==> WellFormed(t)
  {
    var ms := [Member("sender", sender), Member("recipient", recipient), Member("amount", amount)];
    SubscriptFindsMember(ms, "sender", sender);
    SubscriptFindsMember(ms, "recipient", recipient);
    SubscriptFindsMember(ms, "amount", amount);
    JDict(ms)
  }

  /** `Blockchain.hash(block)`: SHA-256 of the encoded sorted-key JSON text. */
  function Hash(p: Primitives, block: Json): (d: HexDigest)
    ensures forall b2 :: WellFormed(block) && WellFormed(b2) && SameUpToOrder(block, b2)
                         ==> d == p.sha256(Encode(p.dumps(SortKeys(b2))))
  {
    OneCanonicalForm(block);
    p.sha256(Encode(p.dumps(SortKeys(block))))
  }

  /** Every value holding the same data as `a` has the canonical form of `a`. */
  lemma OneCanonicalForm(a: Json)
    ensures forall b :: WellFormed(a) && WellFormed(b) && SameUpToOrder(a, b)
                        ==> SortKeys(a) == SortKeys(b)
  {
    forall b | WellFormed(a) && WellFormed(b) && SameUpToOrder(a, b)
      ensures SortKeys(a) == SortKeys(b)
    {
      SortKeysIgnoresInsertionOrder(a, b);
    }
  }

  /** Two blocks that hold the same data hash alike, whatever order the
      items of the block, or of any dict inside it, were inserted in. */
  lemma HashIgnoresKeyOrder(p: Primitives, b1: Json, b2: Json)
    requires WellFormed(b1) && WellFormed(b2)
    requires SameUpToOrder(b1, b2)
    ensures Hash(p, b1) == Hash(p, b2)
  {
    SortKeysIgnoresInsertionOrder(b1, b2);
  }

  /** A block whose transaction record was built with its keys in another
      order (amount first) hashes like the block holding the record
      `new_transaction` makes. */
  lemma HashIgnoresRecordKeyOrder(p: Primitives, head: seq<Member>,
                                  sender: string, recipient: string, amount: int)
    requires DistinctKeys(head + [Member("transactions", JNull)])
    requires forall i :: 0 <= i < |head| ==> WellFormed(head[i].value)
    ensures var t := TransactionRecord(JStr(sender), JStr(recipient), JInt(amount));
      var u := JDict([Member("amount", JInt(amount)), Member("sender", JStr(sender)),
                      Member("recipient", JStr(recipient))]);
      Hash(p, JDict(head + [Member("transactions", JList([t]))]))
        == Hash(p, JDict(head + [Member("transactions", JList([u]))]))
  {
    var t := TransactionRecord(JStr(sender), JStr(recipient), JInt(amount));
    var u := JDict([Member("amount", JInt(amount)), Member("sender", JStr(sender)),
                    Member("recipient", JStr(recipient))]);
    RecordBlocksSame(head, sender, recipient, amount);
    HashIgnoresKeyOrder(p, JDict(head + [Member("transactions", JList([t]))]),
                        JDict(head + [Member("transactions", JList([u]))]));
  }

  lemma RecordBlocksSame(head: seq<Member>, sender: string, recipient: string, amount: int)
    requires DistinctKeys(head + [Member("transactions", JNull)])
    requires forall i :: 0 <= i < |head| ==> WellFormed(head[i].value)
    ensures var t := TransactionRecord(JStr(sender), JStr(recipient), JInt(amount));
      var u := JDict([Member("amount", JInt(amount)), Member("sender", JStr(sender)),
                      Member("recipient", JStr(recipient))]);
      && WellFormed(JDict(head + [Member("transactions", JList([t]))]))
      && WellFormed(JDict(head + [Member("transactions", JList([u]))]))
      && SameUpToOrder(JDict(head + [Member("transactions", JList([t]))]),
                       JDict(head + [Member("transactions", JList([u]))]))
  {
    var t := TransactionRecord(JStr(sender), JStr(recipient), JInt(amount));
    var u := JDict([Member("amount", JInt(amount)), Member("sender", JStr(sender)),
                    Member("recipient", JStr(recipient))]);
    RecordReordered(sender, recipient, amount);
    BlockWellFormed(head, JList([t]));
    BlockWellFormed(head, JList([u]));
    TransactionsSame(head, t, u);
  }

  /** The record with its items inserted amount first holds the same data. */
  lemma RecordReordered(sender: string, recipient: string, amount: int)
    ensures var t := TransactionRecord(JStr(sender), JStr(recipient), JInt(amount));
      var u := JDict([Member("amount", JInt(amount)), Member("sender", JStr(sender)),
                      Member("recipient", JStr(recipient))]);
      WellFormed(t) && WellFormed(u) && SameUpToOrder(t, u)
  {
    var a, sd, rc := Member("amount", JInt(amount)), Member("sender", JStr(sender)),
                     Member("recipient", JStr(recipient));
    var t := TransactionRecord(JStr(sender), JStr(recipient), JInt(amount));
    assert t.members == [sd, rc, a];
    RotatedItems(sd, rc, a);
    PermutedDictSame(t.members, [a, sd, rc]);
    AmountFirstWellFormed(a, sd, rc);
  }

  /** Blocks that differ only in one transaction, held as the same data. */
  lemma TransactionsSame(head: seq<Member>, t: Json, u: Json)
    requires SameUpToOrder(t, u)
    ensures SameUpToOrder(JDict(head + [Member("transactions", JList([t]))]),
                          JDict(head + [Member("transactions", JList([u]))]))
  {
    ListItemCongruence([t], 0, u);
    assert [t][0 := u] == [u];
    var ms := head + [Member("transactions", JList([t]))];
    DictValueCongruence(ms, |head|, JList([u]));
    assert ms[|head| := Member("transactions", JList([u]))]
      == head + [Member("transactions", JList([u]))];
  }

  lemma RotatedItems(x: Member, y: Member, z: Member)
    ensures multiset([x, y, z]) == multiset([z, x, y])
  {
    assert multiset([x, y, z]) == multiset{x, y, z} == multiset([z, x, y]);
  }

  lemma AmountFirstWellFormed(a: Member, sd: Member, rc: Member)
    requires a.key == "amount" && sd.key == "sender" && rc.key == "recipient"
    requires WellFormed(a.value) && WellFormed(sd.value) && WellFormed(rc.value)
    ensures WellFormed(JDict([a, sd, rc]))
  {
    var ms := [a, sd, rc];
    assert ms[0].key[0] == 'a' && ms[1].key[0] == 's' && ms[2].key[0] == 'r';
  }

  lemma BlockWellFormed(head: seq<Member>, v: Json)
    requires DistinctKeys(head + [Member("transactions", JNull)])
    requires forall i :: 0 <= i < |head| ==> WellFormed(head[i].value)
    requires WellFormed(v)
    ensures WellFormed(JDict(head + [Member("transactions", v)]))
  {
    var ms := head + [Member("transactions", v)];
    var n := head + [Member("transactions", JNull)];
    assert forall i :: 0 <= i < |ms| ==> ms[i].key == n[i].key;
  }

  /** Hashing a block already in canonical form gives its own hash. */
  lemma HashOfCanonical(p: Primitives, block: Json)
    requires WellFormed(block)
    ensures Hash(p, SortKeys(block)) == Hash(p, block)
  {
    SortKeysIdempotent(block);
  }

  /** The text `f'{last_proof}{proof}'` that is digested: both decimals,
      with no separator. */
  function Guess(lastProof: int, proof: int): (g: Ascii)
    ensures |g| == |Decimal(lastProof)| + |Decimal(proof)|
  {
    DecimalRoundTrip(lastProof);
    DecimalRoundTrip(proof);
    Decimal(lastProof) + Decimal(proof)
  }

  /** `g` is the decimal text of `a` followed by the decimal text of `b`:
      cut after the digits of `a`, both halves read back as the two ints. */
  predicate SplitsInto(g: string, a: int, b: int) {
    var n := |Decimal(a)|;
    && n <= |g| && IsDecimal(g[..n]) && IsDecimal(g[n..])
    && ParseDecimal(g[..n]) == a && ParseDecimal(g[n..]) == b
  }

  /** The guess text reads back as its two ints once it is cut after the
      digits of the last proof. */
  lemma GuessSplits(lastProof: int, proof: int)
    ensures SplitsInto(Guess(lastProof, proof), lastProof, proof)
  {
    var g, n := Guess(lastProof, proof), |Decimal(lastProof)|;
    assert g[..n] == Decimal(lastProof) && g[n..] == Decimal(proof);
    DecimalRoundTrip(lastProof);
    DecimalRoundTrip(proof);
  }

  /** `Blockchain.valid_proof(last_proof, proof)`. */
  function ValidProof(sha256: Sha256, lastProof: int, proof: int): (b: bool)
    ensures b <==> forall i :: 0 <= i < Difficulty ==> sha256(Encode(Guess(lastProof, proof)))[i] == '0'
  {
    var d := sha256(Encode(Guess(lastProof, proof)));
    FourZeros(d);
    d[..4] == "0000"
  }

  lemma FourZeros(d: string)
    requires |d| >= 4
    ensures d[..4] == "0000" <==> forall i :: 0 <= i < 4 ==> d[i] == '0'
  {
    if forall i :: 0 <= i < 4 ==> d[i] == '0' {
      assert d[..4] == "0000";
    }
  }

  /** A proof is valid exactly when the first `Difficulty` hex digits of the
      digest are all '0', that is, when the digest read as a 256-bit number
      is below 16^60. */
  lemma ValidProofMeetsTarget(sha256: Sha256, lastProof: int, proof: int)
    ensures var d := sha256(Encode(Guess(lastProof, proof)));
      && (ValidProof(sha256, lastProof, proof) <==> forall i :: 0 <= i < Difficulty ==> d[i] == '0')
      && (ValidProof(sha256, lastProof, proof) <==> HexValue(d) < Pow16(64 - Difficulty))
  {
    LeadingZerosBelowTarget(sha256(Encode(Guess(lastProof, proof))), Difficulty);
  }

  /** With no separator the guess text is ambiguous: last proof 1 with
      candidate 23 digests the same text as last proof 12 with candidate 3. */
  lemma GuessIsAmbiguous(sha256: Sha256)
    ensures Guess(1, 23) == Guess(12, 3) == "123"
    ensures ValidProof(sha256, 1, 23) == ValidProof(sha256, 12, 3)
  {
  }

  /** For a fixed last proof every candidate digests a different text, so the
      search never tests the same input twice. */
  lemma GuessDistinguishesCandidates(lastProof: int, q1: int, q2: int)
    requires Guess(lastProof, q1) == Guess(lastProof, q2)
    ensures q1 == q2
  {
    GuessSplits(lastProof, q1);
    GuessSplits(lastProof, q2);
  }

  /** The puzzle has at most one least solution, so `proof_of_work` is
      determined by its last proof and the digest function. */
  lemma LeastValidProofUnique(sha256: Sha256, lastProof: int, r1: nat, r2: nat)
    requires ValidProof(sha256, lastProof, r1) && ValidProof(sha256, lastProof, r2)
    requires forall q: nat :: q < r1 ==> !ValidProof(sha256, lastProof, q)
    requires forall q: nat :: q < r2 ==> !ValidProof(sha256, lastProof, q)
    ensures r1 == r2
  {
  }

  class Blockchain {
    var chain: seq<Json>
    var currentTransactions: seq<Json>

    /** Starts from an empty chain and an empty pending list, then makes the
        genesis block with `new_block(previous_hash=1, proof=100)`. */
    constructor (newBlock: NewBlock)
      ensures Ledger(chain, currentTransactions)
        == newBlock(Ledger([], []), JInt(GenesisProof), JInt(GenesisPreviousHash))
    {
      var genesis := newBlock(Ledger([], []), JInt(GenesisProof), JInt(GenesisPreviousHash));
      chain := genesis.chain;
      currentTransactions := genesis.pending;
    }

    /** The `last_block` property: `self.chain[-1]`. */
    function LastBlock(): (r: Result<Json>)
      reads this
      ensures r.Ok? <==> |chain| > 0
      ensures r.Ok? ==> r.value == chain[|chain| - 1]
      ensures r.Err? ==> r.error == IndexError
    {
      PyIndex(chain, -1)
    }

    /** `self.last_block['index'] + 1`, the value `new_transaction` returns. */
    function NextBlockIndex(): (r: Result<int>)
      reads this
      ensures |chain| == 0 ==> r == Err(IndexError)
      ensures |chain| > 0 && !chain[|chain| - 1].JDict? ==> r == Err(TypeError)
      ensures r.Ok? ==> |chain| > 0 && chain[|chain| - 1].JDict?
    {
      match LastBlock()
      case Err(e) => Err(e)
      case Ok(block) =>
        match Subscript(block, "index")
        case Err(e) => Err(e)
        case Ok(index) => AddOne(index)
    }

    /** `new_transaction(sender, recipient, amount)`: appends the record to
        the pending list, then reads the last block's index. The append
        happens even when that read raises. */
    method NewTransaction(sender: Json, recipient: Json, amount: Json) returns (r: Result<int>)
      modifies this`currentTransactions
      ensures currentTransactions
        == old(currentTransactions) + [TransactionRecord(sender, recipient, amount)]
      ensures chain == old(chain) && LastBlock() == old(LastBlock())
      ensures r == NextBlockIndex()
    {
      currentTransactions := currentTransactions + [TransactionRecord(sender, recipient, amount)];
      r := NextBlockIndex();
    }

    /** `proof_of_work(last_proof)`: tries 0, 1, 2, ... and returns the first
        candidate `valid_proof` accepts. The loop only ends when a valid
        candidate exists, which is what the precondition says. */
    method ProofOfWork(sha256: Sha256, lastProof: int) returns (proof: nat)
      requires exists q: nat :: ValidProof(sha256, lastProof, q)
      ensures ValidProof(sha256, lastProof, proof)
      ensures forall q: nat :: q < proof ==> !ValidProof(sha256, lastProof, q)
    {
      ghost var solution: nat :| ValidProof(sha256, lastProof, solution);
      proof := 0;
      while !ValidProof(sha256, lastProof, proof)
        invariant proof <= solution
        invariant forall q: nat :: q < proof ==> !ValidProof(sha256, lastProof, q)
        decreases solution - proof
      {
        proof := proof + 1;
      }
    }
  }

  /** When the last block is a dict whose 'index' is the int k,
      `new_transaction` reports k + 1. */
  lemma NextBlockIndexOfBlock(b: Blockchain, items: seq<Member>, k: int)
    requires |b.chain| > 0 && b.chain[|b.chain| - 1] == JDict(items)
    requires DistinctKeys(items) && Member("index", JInt(k)) in items
    ensures b.NextBlockIndex() == Ok(k + 1)
  {
  }
}
