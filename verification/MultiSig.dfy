/** Assembling the signatures of a multi-signature transaction (elements/transactions/src/sign.ts). */
module MultiSig {
  import opened Wrappers
  import opened Schema
  import opened Codec
  import opened Sorting
  import opened Transactions

  /** Mandatory keys in order, then optional keys in order. */
  function AccountKeys(mandatory: seq<bytes>, optional: seq<bytes>): seq<bytes> {
    SortKeys(mandatory) + SortKeys(optional)
  }

  /** The slots do not depend on the order in which the keys were listed. */
  lemma AccountKeysOrderIndependent(m: seq<bytes>, o: seq<bytes>, m': seq<bytes>, o': seq<bytes>)
    requires multiset(m) == multiset(m') && multiset(o) == multiset(o')
    ensures AccountKeys(m, o) == AccountKeys(m', o')
  {
    LexIsOrder();
    hide LexLe, Sort, TotalPreorder;
    SortOrderIndependent(m, m', LexLe);
    SortOrderIndependent(o, o', LexLe);
  }

  /** The first slots belong to the mandatory keys, the others to the optional ones, each in ascending order. */
  lemma AccountKeysMeans(mandatory: seq<bytes>, optional: seq<bytes>)
    ensures var keys, n := AccountKeys(mandatory, optional), |mandatory|;
            && |keys| == n + |optional|
            && multiset(keys[..n]) == multiset(mandatory) && multiset(keys[n..]) == multiset(optional)
            && Sorted(keys[..n], LexLe) && Sorted(keys[n..], LexLe)
  {
    LexIsOrder();
    hide LexLe, Sort, TotalPreorder;
    SortPermutes(mandatory, LexLe);
    SortPermutes(optional, LexLe);
    SortSorted(mandatory, LexLe);
    SortSorted(optional, LexLe);
    var keys, n := AccountKeys(mandatory, optional), |mandatory|;
    assert keys[..n] == SortKeys(mandatory) && keys[n..] == SortKeys(optional);
  }

  /** One signer's pass over the slots: fill its own, and leave empty bytes in those nobody has filled. */
  function Fill(signatures: seq<bytes>, keys: seq<bytes>, publicKey: bytes, signature: bytes): (r: seq<bytes>)
  {
    seq(if |signatures| > |keys| then |signatures| else |keys|,
        i requires 0 <= i < (if |signatures| > |keys| then |signatures| else |keys|) =>
          if i < |keys| && keys[i] == publicKey then signature
          else if i < |signatures| then signatures[i]
          else [])
  }

  /** Ed25519 and the hash: public keys and signatures are determined by the private key. */
  datatype Scheme = Scheme(publicKey: bytes -> bytes, sign: (bytes, bytes) -> bytes, hash: bytes -> bytes)

  /** The signatures after all of `signers` have signed `message`, in that order. */
  function SignAll(scheme: Scheme, keys: seq<bytes>, message: bytes, signers: seq<bytes>): seq<bytes> {
    if signers == [] then []
    else
      var front, last := signers[..|signers| - 1], signers[|signers| - 1];
      Fill(SignAll(scheme, keys, message, front), keys, scheme.publicKey(last), scheme.sign(last, message))
  }

  /** No two of the private keys have the same public key. */
  ghost predicate DistinctSigners(scheme: Scheme, signers: seq<bytes>) {
    forall a, b | a in signers && b in signers && scheme.publicKey(a) == scheme.publicKey(b) :: a == b
  }

  /** Slot `i` holds the signature of key `i` if it signed, and nothing otherwise. */
  ghost predicate Slot(scheme: Scheme, keys: seq<bytes>, message: bytes, signers: seq<bytes>, i: nat, content: bytes)
    requires i < |keys|
  {
    && (forall s | s in signers && scheme.publicKey(s) == keys[i] :: content == scheme.sign(s, message))
    && ((forall s | s in signers :: scheme.publicKey(s) != keys[i]) ==> content == [])
  }

  lemma {:induction false} SlotsAfterRun(scheme: Scheme, keys: seq<bytes>, message: bytes, signers: seq<bytes>)
    requires signers != [] && DistinctSigners(scheme, signers)
    ensures |SignAll(scheme, keys, message, signers)| == |keys|
    ensures forall i | 0 <= i < |keys| :: Slot(scheme, keys, message, signers, i, SignAll(scheme, keys, message, signers)[i])
    decreases signers
  {
    var front, last := signers[..|signers| - 1], signers[|signers| - 1];
    assert signers == front + [last];
    var before := SignAll(scheme, keys, message, front);
    if front != [] {
      SlotsAfterRun(scheme, keys, message, front);
    }
    var after := SignAll(scheme, keys, message, signers);
    forall i | 0 <= i < |keys|
      ensures Slot(scheme, keys, message, signers, i, after[i])
    {
      if scheme.publicKey(last) == keys[i] {
        forall s | s in signers && scheme.publicKey(s) == keys[i]
          ensures after[i] == scheme.sign(s, message)
        {
          assert s == last;
        }
      } else {
        assert front != [] ==> Slot(scheme, keys, message, front, i, before[i]);
        forall s | s in signers && scheme.publicKey(s) == keys[i]
          ensures s in front
        {
        }
      }
    }
  }

  /** The result depends only on who signed, not on the order or on repetitions. */
  lemma SignOrderIrrelevant(scheme: Scheme, keys: seq<bytes>, message: bytes, a: seq<bytes>, b: seq<bytes>)
    requires a != [] && b != [] && DistinctSigners(scheme, a) && forall s :: s in a <==> s in b
    ensures SignAll(scheme, keys, message, a) == SignAll(scheme, keys, message, b)
  {
    SlotsAfterRun(scheme, keys, message, a);
    SlotsAfterRun(scheme, keys, message, b);
    var x, y := SignAll(scheme, keys, message, a), SignAll(scheme, keys, message, b);
    hide SignAll;
    forall i | 0 <= i < |keys|
      ensures x[i] == y[i]
    {
      assert Slot(scheme, keys, message, a, i, x[i]) && Slot(scheme, keys, message, b, i, y[i]);
      if s :| s in a && scheme.publicKey(s) == keys[i] {
        assert s in b;
      }
    }
  }

  /** A transaction object, whose signatures are written in place. */
  class Transaction {
    const body: Props
    var signatures: seq<bytes>

    constructor (body: Props)
      ensures this.body == body && signatures == []
    {
      this.body := body;
      signatures := [];
    }

    /** The whole object as a message of the transaction schema. */
    function Contents(): Props
      reads this
    {
      WithSignatures(body, signatures)
    }

    /**
     signMultiSignatureTransaction: fails before anything is written, or sorts the caller's keys, writes one signer's
     pass and returns the id of the result.
     */
    method Sign(scheme: Scheme, chainID: bytes, privateKey: bytes, keys: MultiSignatureKeys) returns (r: Result<bytes>)
      modifies this`signatures, keys
      ensures chainID == [] || |privateKey| != 64 ==>
                && r == Err(InvalidArgument) && signatures == old(signatures)
                && keys.mandatory == old(keys.mandatory) && keys.optional == old(keys.optional)
      ensures chainID != [] && |privateKey| == 64 ==>
                keys.mandatory == SortKeys(old(keys.mandatory)) && keys.optional == SortKeys(old(keys.optional))
      ensures chainID != [] && |privateKey| == 64 && SigningBytes(body).Err? ==> r.Err? && signatures == old(signatures)
      ensures chainID != [] && |privateKey| == 64 && SigningBytes(body).Ok? ==>
                && signatures == Fill(old(signatures), AccountKeys(old(keys.mandatory), old(keys.optional)),
                                      scheme.publicKey(privateKey), scheme.sign(privateKey, SigningBytes(body).value))
                && r == if GetBytes(Contents()).Ok? then Ok(scheme.hash(GetBytes(Contents()).value))
                        else Err(GetBytes(Contents()).error)
    {
      hide SortKeys, EncodeFields;
      if chainID == [] || |privateKey| != 64 {
        return Err(InvalidArgument);
      }
      keys.mandatory := SortKeys(keys.mandatory);
      keys.optional := SortKeys(keys.optional);
      var message := SigningBytes(Contents());
      SigningBytesIgnoreSignatures(body, signatures);
      if message.Err? {
        return Err(message.error);
      }
      var signature := scheme.sign(privateKey, message.value);
      var publicKey := scheme.publicKey(privateKey);
      var accountKeys := keys.mandatory + keys.optional;
      ghost var before := signatures;
      for i := 0 to |accountKeys|
        invariant keys.mandatory == SortKeys(old(keys.mandatory)) && keys.optional == SortKeys(old(keys.optional))
        invariant |signatures| == if |before| > i then |before| else i
        invariant forall j | 0 <= j < i ::
                    signatures[j] == if accountKeys[j] == publicKey then signature
                                     else if j < |before| then before[j] else []
        invariant forall j | i <= j < |before| :: signatures[j] == before[j]
      {
        if accountKeys[i] == publicKey {
          signatures := if i < |signatures| then signatures[i := signature] else signatures + [signature];
        } else if i >= |signatures| {
          signatures := signatures + [[]];
        }
      }
      var encoded := GetBytes(Contents());
      return if encoded.Ok? then Ok(scheme.hash(encoded.value)) else Err(encoded.error);
    }
  }

  /** The key lists of an account, which signing sorts in place. */
  class MultiSignatureKeys {
    var mandatory: seq<bytes>
    var optional: seq<bytes>

    constructor (mandatory: seq<bytes>, optional: seq<bytes>)
      ensures this.mandatory == mandatory && this.optional == optional
    {
      this.mandatory, this.optional := mandatory, optional;
    }
  }

  lemma SortedKeysAgree(mandatory: seq<bytes>, optional: seq<bytes>)
    ensures AccountKeys(SortKeys(mandatory), SortKeys(optional)) == AccountKeys(mandatory, optional)
  {
    SortPermutes(mandatory, LexLe);
    SortPermutes(optional, LexLe);
    AccountKeysOrderIndependent(SortKeys(mandatory), SortKeys(optional), mandatory, optional);
  }

  /** Signers in any order leave in the transaction what `SignAll` describes. */
  method SignInTurn(tx: Transaction, scheme: Scheme, chainID: bytes, signers: seq<bytes>, keys: MultiSignatureKeys)
    requires tx.signatures == [] && chainID != [] && forall s | s in signers :: |s| == 64
    requires SigningBytes(tx.body).Ok?
    modifies tx`signatures, keys
    ensures tx.signatures == SignAll(scheme, old(AccountKeys(keys.mandatory, keys.optional)), SigningBytes(tx.body).value, signers)
  {
    hide SortKeys, EncodeFields, Fill, AccountKeys;
    ghost var slots, message := AccountKeys(keys.mandatory, keys.optional), SigningBytes(tx.body).value;
    assert signers[..0] == [];
    for i := 0 to |signers|
      invariant tx.signatures == SignAll(scheme, slots, message, signers[..i])
      invariant AccountKeys(keys.mandatory, keys.optional) == slots
    {
      assert signers[..i + 1][..i] == signers[..i];
      assert signers[i] in signers;
      SortedKeysAgree(keys.mandatory, keys.optional);
      var r := tx.Sign(scheme, chainID, signers[i], keys);
    }
    assert signers[..|signers|] == signers;
  }
}
