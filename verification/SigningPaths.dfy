/**
 The three ways a signature is made (in this process, inside the Vault plugin, inside the
 enclave) all refine one specification: Specified, below.
 */
module SigningPaths {
  import opened Common
  import opened BlsUtil
  import EnclaveProto
  import Scalar
  import VaultBackend

  /** The signature every backend owes its caller. */
  function Specified(bls: Bls, sk: Bytes, msg: Bytes, kind: Kind): Bytes {
    bls.sigOf(sk, msg, DstOf(kind))
  }

  /** memory and awskms. */
  function InProcess(bls: Bls, sk: Bytes, msg: Bytes, kind: Kind): Option<Bytes> {
    match Sign(bls, sk, msg, DstOf(kind))
    case Err(_) => None
    case Ok(sig) => Some(sig)
  }

  /** awsnitro, against an enclave holding sk; delivered says whether the vsock exchange completes. */
  function ThroughEnclave(bls: Bls, sk: Bytes, msg: Bytes, kind: Kind, delivered: bool): Option<Bytes> {
    if !delivered then None
    else
      var tag := if kind == Message then EnclaveProto.SIGN else EnclaveProto.SIGN_POP;
      var request := EnclaveProto.EncodeRequest(EnclaveProto.Request(tag, msg));
      match EnclaveProto.ReadReply(EnclaveProto.HandleConn(bls, sk, bls.pkOf(sk), Some(request)))
      case None => None
      case Some(sig) => if |sig| != SIGNATURE_SIZE then None else Some(sig)
  }

  /**
   For every valid scalar, every message and both kinds, each path gives the specified 96
   bytes whenever its transport works, and an error (never other bytes) when it does not.
   */
  lemma AllPathsRefineSpecified(bls: Bls, sk: Bytes, msg: Bytes, kind: Kind, delivered: bool,
                                vault: VaultBackend.Vault, cfg: VaultBackend.Config, net: VaultBackend.Exchange)
    requires Scalar.Valid(sk)
    requires VaultBackend.Holds(vault, cfg, sk)
    ensures |Specified(bls, sk, msg, kind)| == SIGNATURE_SIZE
    ensures InProcess(bls, sk, msg, kind) == Some(Specified(bls, sk, msg, kind))
    ensures ThroughEnclave(bls, sk, msg, kind, delivered) ==
            if delivered then Some(Specified(bls, sk, msg, kind)) else None
    ensures VaultBackend.RequestSign(bls, vault, cfg, msg, kind, net) ==
            if VaultBackend.Works(net) then Some(Specified(bls, sk, msg, kind)) else None
  {
    var tag := if kind == Message then EnclaveProto.SIGN else EnclaveProto.SIGN_POP;
    EnclaveProto.Answered(bls, sk, bls.pkOf(sk), EnclaveProto.Request(tag, msg));
    VaultBackend.SignsWithStoredKey(bls, vault, cfg, sk, msg, kind, net);
  }
}
