/**
 The backends that hold the scalar in the signing process: backend/memory and backend/awskms
 share the same fields, signing methods and zeroing Close.
 */
module LocalBackend {
  import opened Common
  import opened BlsUtil
  import Scalar

  datatype KeyPair = KeyPair(sk: Bytes, pk: Bytes)

  /** awskms.backendFromBytes: what a backend would hold, or why it refuses to start. */
  function FromBytes(bls: Bls, sk: Bytes): Result<KeyPair, Error> {
    if |sk| != Scalar.SIZE then Err(BadLength)
    else if !ValidateSecretKey(sk) then Err(BadScalar)
    else
      match PublicKey(bls, sk)
      case Err(e) => Err(e)
      case Ok(pk) => Ok(KeyPair(sk, pk))
  }

  /** It starts exactly on the valid scalars, and then with their public key. */
  lemma StartsOnValidScalars(bls: Bls, sk: Bytes)
    ensures FromBytes(bls, sk).Ok? <==> Scalar.Valid(sk)
    ensures FromBytes(bls, sk).Ok? ==> FromBytes(bls, sk).value == KeyPair(sk, bls.pkOf(sk))
  {
  }

  lemma ZeroNext(was: Bytes, i: nat)
    requires i < |was|
    ensures Scalar.ZeroPrefix(was, i)[i := 0] == Scalar.ZeroPrefix(was, i + 1)
  {
  }

  class Backend {
    const bls: Bls
    const skBytes: array<byte>
    const pkBytes: Bytes

    constructor (bls: Bls, key: KeyPair)
      ensures this.bls == bls && fresh(skBytes)
      ensures skBytes[..] == key.sk && pkBytes == key.pk
    {
      this.bls := bls;
      var sk := new byte[|key.sk|](i requires 0 <= i < |key.sk| => key.sk[i]);
      this.skBytes := sk;
      this.pkBytes := key.pk;
    }

    method PublicKey() returns (pk: Bytes)
      ensures pk == pkBytes
    {
      pk := pkBytes;
    }

    /** A message signature under the scalar the buffer holds now, or an error if it holds none. */
    method SignMessage(msg: Bytes) returns (r: Result<Bytes, Error>)
      ensures r.Ok? <==> Scalar.Valid(skBytes[..])
      ensures r.Ok? ==> r.value == bls.sigOf(skBytes[..], msg, DST_SIGN)
    {
      r := Sign(bls, skBytes[..], msg, DST_SIGN);
    }

    method SignProofOfPossession(msg: Bytes) returns (r: Result<Bytes, Error>)
      ensures r.Ok? <==> Scalar.Valid(skBytes[..])
      ensures r.Ok? ==> r.value == bls.sigOf(skBytes[..], msg, DST_POP)
    {
      r := Sign(bls, skBytes[..], msg, DST_POP);
    }

    /** trail lists the buffer before the first store and after each one. */
    method Close() returns (ghost trail: seq<Bytes>)
      modifies skBytes
      ensures skBytes[..] == Zeros(skBytes.Length)
      ensures |trail| == skBytes.Length + 1
      ensures forall k :: 0 <= k <= skBytes.Length ==> trail[k] == Scalar.ZeroPrefix(old(skBytes[..]), k)
    {
      ghost var was := skBytes[..];
      trail := [was];
      var i := 0;
      assert was == Scalar.ZeroPrefix(was, 0);
      while i < skBytes.Length
        invariant 0 <= i <= skBytes.Length
        invariant skBytes[..] == Scalar.ZeroPrefix(was, i)
        invariant |trail| == i + 1
        invariant forall k :: 0 <= k <= i ==> trail[k] == Scalar.ZeroPrefix(was, k)
      {
        skBytes[i] := 0;
        assert skBytes[..] == Scalar.ZeroPrefix(was, i)[i := 0];
        ZeroNext(was, i);
        i := i + 1;
        trail := trail + [skBytes[..]];
      }
      assert skBytes[..] == Zeros(skBytes.Length);
    }
  }

  /** After Close no signature of either kind is produced any more. */
  method SignAfterClose(b: Backend, msg: Bytes) returns (sig: Result<Bytes, Error>, pop: Result<Bytes, Error>)
    modifies b.skBytes
    ensures sig.Err? && pop.Err?
    ensures b.skBytes[..] == Zeros(b.skBytes.Length)
  {
    ghost var trail := b.Close();
    Scalar.BigEndianZero(b.skBytes[..]);
    sig := b.SignMessage(msg);
    pop := b.SignProofOfPossession(msg);
  }
}
