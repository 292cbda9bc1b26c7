/** backend/vault: the signing side of a Vault mount.  It holds no key, only a cached public key. */
module VaultBackend {
  import opened Common
  import opened BlsUtil
  import Hex
  import VaultPlugin

  /** Vault as a whole: the plugin's storage at each mount path. */
  type Vault = map<string, VaultPlugin.Entries>

  datatype Config = Config(mountPath: string, keyName: string)

  /** One HTTP exchange: whether the request arrives, whether the reply does, and Vault's storage. */
  datatype Exchange = Exchange(arrives: bool, replies: bool, storage: VaultPlugin.Storage)

  function Mount(cfg: Config): string {
    if cfg.mountPath == "" then "bls" else cfg.mountPath
  }

  /** A logical read or write: what Vault becomes, and the reply if the caller gets one. */
  function Request(bls: Bls, vault: Vault, mount: string, req: VaultPlugin.Request, net: Exchange)
    : (Vault, Option<VaultPlugin.Reply>)
  {
    if !net.arrives || mount !in vault then (vault, None)
    else
      var (entries, reply) := VaultPlugin.Step(bls, vault[mount], VaultPlugin.Call(req, net.storage));
      (vault[mount := entries], if net.replies then Some(reply) else None)
  }

  /** requestSign: hex in, hex out, and nothing but 96 bytes is accepted. */
  function RequestSign(bls: Bls, vault: Vault, cfg: Config, msg: Bytes, kind: Kind, net: Exchange): Option<Bytes> {
    var msgHex := Hex.Encode(msg);
    var req := match kind
               case Message => VaultPlugin.SignMessage(cfg.keyName, Some(msgHex), Some(Hex.Encode(DST_SIGN)))
               case Possession => VaultPlugin.SignPossession(cfg.keyName, Some(msgHex));
    match Request(bls, vault, Mount(cfg), req, net).1
    case Some(SignatureIs(sigHex)) =>
      (match Hex.DecodeString(sigHex)
       case None => None
       case Some(sig) => if |sig| != SIGNATURE_SIZE then None else Some(sig))
    case _ => None
  }

  /** The public key New caches, or None when it refuses to start. */
  function BootPublicKey(bls: Bls, vault: Vault, cfg: Config, net: Exchange): Option<Bytes> {
    match Request(bls, vault, Mount(cfg), VaultPlugin.ReadPublicKey(cfg.keyName), net).1
    case Some(PublicKeyIs(pkHex)) =>
      (match Hex.DecodeString(pkHex)
       case None => None
       case Some(pk) => if |pk| != PUBLIC_KEY_SIZE then None else Some(pk))
    case _ => None
  }

  /** The configured key is stored, at a mount whose storage the plugin alone has written. */
  ghost predicate Holds(vault: Vault, cfg: Config, sk: Bytes) {
    && Mount(cfg) in vault
    && VaultPlugin.Inv(vault[Mount(cfg)])
    && cfg.keyName in vault[Mount(cfg)]
    && VaultPlugin.WellStored(vault[Mount(cfg)][cfg.keyName])
    && VaultPlugin.Key(vault[Mount(cfg)], cfg.keyName) == sk
  }

  predicate Works(net: Exchange) {
    net.arrives && net.replies && !net.storage.getFails
  }

  /** A backend starts on a stored key whenever the exchange works, and caches that key's public key. */
  lemma BootsOnStoredKey(bls: Bls, vault: Vault, cfg: Config, sk: Bytes, net: Exchange)
    requires Holds(vault, cfg, sk)
    ensures BootPublicKey(bls, vault, cfg, net) == if Works(net) then Some(bls.pkOf(sk)) else None
  {
    var entries := vault[Mount(cfg)];
    VaultPlugin.ReadNeverFailsOnKey(bls, entries, cfg.keyName, net.storage);
    Hex.RoundTrip(bls.pkOf(sk));
  }

  /** A signature comes back whenever the exchange works: that of the stored scalar, with the tag of its kind. */
  lemma SignsWithStoredKey(bls: Bls, vault: Vault, cfg: Config, sk: Bytes, msg: Bytes, kind: Kind, net: Exchange)
    requires Holds(vault, cfg, sk)
    ensures RequestSign(bls, vault, cfg, msg, kind, net) ==
            if Works(net) then Some(bls.sigOf(sk, msg, DstOf(kind))) else None
  {
    match kind
    case Message => MessageWithStoredKey(bls, vault, cfg, sk, msg, net);
    case Possession => PossessionWithStoredKey(bls, vault, cfg, sk, msg, net);
  }

  lemma MessageWithStoredKey(bls: Bls, vault: Vault, cfg: Config, sk: Bytes, msg: Bytes, net: Exchange)
    requires Holds(vault, cfg, sk)
    ensures RequestSign(bls, vault, cfg, msg, Message, net) ==
            if Works(net) then Some(bls.sigOf(sk, msg, DST_SIGN)) else None
  {
    var msgHex, dstHex := Hex.Encode(msg), Hex.Encode(DST_SIGN);
    VaultPlugin.SignNeverFailsOnKey(bls, vault[Mount(cfg)], cfg.keyName, msgHex, Some(dstHex), net.storage);
    Hex.RoundTrip(msg);
    Hex.RoundTrip(DST_SIGN);
    Hex.RoundTrip(bls.sigOf(sk, msg, DST_SIGN));
  }

  lemma PossessionWithStoredKey(bls: Bls, vault: Vault, cfg: Config, sk: Bytes, msg: Bytes, net: Exchange)
    requires Holds(vault, cfg, sk)
    ensures RequestSign(bls, vault, cfg, msg, Possession, net) ==
            if Works(net) then Some(bls.sigOf(sk, msg, DST_POP)) else None
  {
    VaultPlugin.PossessionNeverFailsOnKey(bls, vault[Mount(cfg)], cfg.keyName, Hex.Encode(msg), net.storage);
    Hex.RoundTrip(msg);
    Hex.RoundTrip(bls.sigOf(sk, msg, DST_POP));
  }

  /** Left without a mount path, a backend boots from and signs with what is stored at the mount "bls". */
  lemma DefaultMount(bls: Bls, vault: Vault, cfg: Config, msg: Bytes, kind: Kind, net: Exchange)
    requires cfg.mountPath == "" && "bls" in vault && VaultPlugin.Inv(vault["bls"]) && cfg.keyName in vault["bls"]
    ensures VaultPlugin.WellStored(vault["bls"][cfg.keyName])
    ensures var sk := VaultPlugin.Key(vault["bls"], cfg.keyName);
            && BootPublicKey(bls, vault, cfg, net) == (if Works(net) then Some(bls.pkOf(sk)) else None)
            && RequestSign(bls, vault, cfg, msg, kind, net) ==
               if Works(net) then Some(bls.sigOf(sk, msg, DstOf(kind))) else None
  {
    VaultPlugin.ReadNeverFailsOnKey(bls, vault["bls"], cfg.keyName, net.storage);
    var sk := VaultPlugin.Key(vault["bls"], cfg.keyName);
    assert Holds(vault, cfg, sk);
    BootsOnStoredKey(bls, vault, cfg, sk, net);
    SignsWithStoredKey(bls, vault, cfg, sk, msg, kind, net);
  }

  /** A mount path that is set is used as it is. */
  lemma MountAsSet(cfg: Config)
    ensures Mount(cfg) == cfg.mountPath <==> cfg.mountPath != ""
  {
  }
}
