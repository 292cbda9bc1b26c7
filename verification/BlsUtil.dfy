/** internal/blstutil: length and validity checks around the BLS library. */
module BlsUtil {
  import opened Common
  import Scalar

  const PUBLIC_KEY_SIZE: nat := 48
  const SIGNATURE_SIZE: nat := 96

  type PublicKeyBytes = b: Bytes | |b| == PUBLIC_KEY_SIZE witness Zeros(PUBLIC_KEY_SIZE)
  type SignatureBytes = b: Bytes | |b| == SIGNATURE_SIZE witness Zeros(SIGNATURE_SIZE)

  /**
   The BLS library, uninterpreted: the compressed public key of a scalar, and the compressed
   signature of a message under a scalar and a domain separation tag.
   */
  datatype Bls = Bls(pkOf: Bytes -> PublicKeyBytes, sigOf: (Bytes, Bytes, Bytes) -> SignatureBytes)

  /**
   The tags of the proof-of-possession scheme (section 4.2.3 of
   draft-irtf-cfrg-bls-signature): one for messages, one for proofs of possession.
   */
  const DST_SIGN: Bytes := Ascii("BLS_SIG_BLS12381G2_XMD:SHA-256_SSWU_RO_POP_")
  const DST_POP: Bytes := Ascii("BLS_POP_BLS12381G2_XMD:SHA-256_SSWU_RO_POP_")

  /** The two kinds of signature every backend offers. */
  datatype Kind = Message | Possession

  function DstOf(kind: Kind): Bytes {
    match kind
    case Message => DST_SIGN
    case Possession => DST_POP
  }

  datatype Error = BadLength | BadScalar

  function Deserialize(sk: Bytes): (r: Result<Bytes, Error>)
    ensures r.Ok? <==> Scalar.Valid(sk)
    ensures r.Ok? ==> r.value == sk
  {
    if |sk| != Scalar.SIZE then Err(BadLength)
    else if !(0 < Scalar.BigEndian(sk) < Scalar.ORDER) then Err(BadScalar)
    else Ok(sk)
  }

  predicate ValidateSecretKey(sk: Bytes) {
    Deserialize(sk).Ok?
  }

  function PublicKey(bls: Bls, sk: Bytes): Result<Bytes, Error> {
    match Deserialize(sk)
    case Err(e) => Err(e)
    case Ok(k) => Ok(bls.pkOf(k))
  }

  function Sign(bls: Bls, sk: Bytes, msg: Bytes, dst: Bytes): Result<Bytes, Error> {
    match Deserialize(sk)
    case Err(e) => Err(e)
    case Ok(k) => Ok(bls.sigOf(k, msg, dst))
  }

  /** The two tags differ, so the two kinds of signature are never computed on equal inputs. */
  lemma TagsDiffer()
    ensures DST_SIGN != DST_POP
    ensures forall j, k :: DstOf(j) == DstOf(k) <==> j == k
  {
    assert DST_SIGN[4] == 'S' as int && DST_POP[4] == 'P' as int;
  }

  /** Signing while a key is being zeroed: k bytes in, it signs under the wrong key or fails. */
  lemma SignWhileZeroing(bls: Bls, sk: Bytes, k: nat, msg: Bytes, dst: Bytes)
    requires Scalar.Valid(sk) && k <= Scalar.SIZE
    ensures Sign(bls, Scalar.ZeroPrefix(sk, k), msg, dst) ==
            if exists i :: k <= i < Scalar.SIZE && sk[i] != 0
            then Ok(bls.sigOf(Scalar.ZeroPrefix(sk, k), msg, dst))
            else Err(BadScalar)
    ensures k == Scalar.SIZE ==> Sign(bls, Scalar.ZeroPrefix(sk, k), msg, dst) == Err(BadScalar)
  {
    Scalar.PartialZeroing(sk, k);
  }
}
