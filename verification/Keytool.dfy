/**
 keytool: creating and migrating keys.  Every change these commands make to the disk or to
 Vault is one step of a trail, and a crash may fall between any two steps.  Writes take
 effect in program order, one byte at a time.  Two paths are equal exactly when they name
 the same file.
 */
module Keytool {
  import opened Common
  import opened BlsUtil
  import Hex
  import LocalBackend
  import Scalar
  import VaultBackend
  import VaultPlugin
  import VaultRaces

  type Path = string

  type Files = map<Path, Bytes>

  /** A key management service; the nonce stands for whatever makes two ciphertexts differ. */
  datatype Kms = Kms(encrypt: (nat, Bytes) -> Option<Bytes>, decrypt: Bytes -> Option<Bytes>)

  /** It decrypts what it encrypted, and rejects an empty blob. */
  ghost predicate Contract(kms: Kms) {
    && (forall n, x :: kms.encrypt(n, x).Some? ==> kms.decrypt(kms.encrypt(n, x).value) == Some(x))
    && kms.decrypt([]).None?
  }

  /** What survives a crash. */
  datatype Snapshot = Snapshot(files: Files, vault: VaultBackend.Vault)

  datatype Backend = KmsKind | VaultKind | UnknownKind

  datatype Opts = Opts(backend: Backend, input: Path, output: Path, deleteInput: bool, vault: VaultBackend.Config)

  /** Where os.WriteFile fails: opening, after some bytes, or closing. */
  datatype WriteFault = WriteFault(opens: bool, written: nat, closes: bool)

  datatype WipeFault = WipeFault(opens: bool, stats: bool, written: nat, syncs: bool, removes: bool)

  datatype Env = Env(
    readable: bool, nonce: nat, generated: Option<Bytes>,
    write: WriteFault, wipe: WipeFault, net: VaultBackend.Exchange)

  function Min(a: nat, b: nat): nat {
    if a < b then a else b
  }

  /** The file truncated, then growing. */
  function WriteStates(files: Files, path: Path, data: Bytes, fault: WriteFault): seq<Files> {
    if !fault.opens then []
    else
      var n := Min(fault.written, |data|);
      seq(n + 1, k requires 0 <= k <= n => files[path := data[..k]])
  }

  predicate WriteSucceeds(data: Bytes, fault: WriteFault) {
    fault.opens && fault.written >= |data| && fault.closes
  }

  /** The file turning to zeros from the front. */
  function ZeroStates(files: Files, path: Path, n: nat): seq<Files>
    requires path in files && n <= |files[path]|
  {
    seq(n, k requires 0 <= k < n => files[path := Scalar.ZeroPrefix(files[path], k + 1)])
  }

  /** The file turning to zeros, then gone. */
  function WipeStates(files: Files, path: Path, fault: WipeFault): seq<Files> {
    if path !in files || !fault.opens || !fault.stats then []
    else
      ZeroStates(files, path, Min(fault.written, |files[path]|))
      + if WipeSucceeds(files, path, fault) then [files - {path}] else []
  }

  predicate WipeSucceeds(files: Files, path: Path, fault: WipeFault) {
    path in files && fault.opens && fault.stats && fault.written >= |files[path]| && fault.syncs && fault.removes
  }

  function WithVault(states: seq<Files>, vault: VaultBackend.Vault): seq<Snapshot> {
    seq(|states|, i requires 0 <= i < |states| => Snapshot(states[i], vault))
  }

  /** The last part of a migration: wipe the input if asked, then report the public key. */
  function DeleteRun(w: Snapshot, opts: Opts, env: Env, pkHex: string): (seq<Snapshot>, Option<string>) {
    if !opts.deleteInput then ([], Some(pkHex))
    else
      (WithVault(WipeStates(w.files, opts.input, env.wipe), w.vault),
       if WipeSucceeds(w.files, opts.input, env.wipe) then Some(pkHex) else None)
  }

  /** Importing the scalar into Vault. */
  function VaultRun(bls: Bls, w: Snapshot, opts: Opts, env: Env, sk: Bytes): (seq<Snapshot>, Option<string>) {
    var req := VaultPlugin.Import(opts.vault.keyName, Some(Hex.Encode(sk)));
    var (vault, reply) := VaultBackend.Request(bls, w.vault, VaultBackend.Mount(opts.vault), req, env.net);
    var imported := Snapshot(w.files, vault);
    if reply.None? || !reply.value.PublicKeyIs? then ([imported], None)
    else
      var (wiped, pkHex) := DeleteRun(imported, opts, env, reply.value.hex);
      ([imported] + wiped, pkHex)
  }

  /** Encrypting the scalar and writing the blob. */
  function KmsRun(bls: Bls, kms: Kms, w: Snapshot, opts: Opts, env: Env, sk: Bytes): (seq<Snapshot>, Option<string>) {
    match kms.encrypt(env.nonce, sk)
    case None => ([], None)
    case Some(blob) =>
      var written := WithVault(WriteStates(w.files, opts.output, blob, env.write), w.vault);
      if !WriteSucceeds(blob, env.write) then (written, None)
      else
        var (wiped, pkHex) :=
          DeleteRun(w.(files := w.files[opts.output := blob]), opts, env, Hex.Encode(bls.pkOf(sk)));
        (written + wiped, pkHex)
  }

  /** The states a run of Migrate goes through after w, and the public key it prints. */
  function MigrateRun(bls: Bls, kms: Kms, w: Snapshot, opts: Opts, env: Env): (seq<Snapshot>, Option<string>) {
    if !env.readable || opts.input !in w.files || !ValidateSecretKey(w.files[opts.input]) then ([], None)
    else
      match opts.backend
      case UnknownKind => ([], None)
      case VaultKind => VaultRun(bls, w, opts, env, w.files[opts.input])
      case KmsKind => KmsRun(bls, kms, w, opts, env, w.files[opts.input])
  }

  function GenerateRun(bls: Bls, kms: Kms, w: Snapshot, opts: Opts, env: Env): (seq<Snapshot>, Option<string>) {
    if opts.backend.VaultKind? then
      var req := VaultPlugin.Generate(opts.vault.keyName, env.generated);
      var (vault, reply) := VaultBackend.Request(bls, w.vault, VaultBackend.Mount(opts.vault), req, env.net);
      ([Snapshot(w.files, vault)],
       if reply.Some? && reply.value.PublicKeyIs? then Some(reply.value.hex) else None)
    else if env.generated.None? || PublicKey(bls, env.generated.value).Err? || opts.backend.UnknownKind? then ([], None)
    else
      var sk := env.generated.value;
      match kms.encrypt(env.nonce, sk)
      case None => ([], None)
      case Some(blob) =>
        (WithVault(WriteStates(w.files, opts.output, blob, env.write), w.vault),
         if WriteSucceeds(blob, env.write) then Some(Hex.Encode(bls.pkOf(sk))) else None)
  }

  /** Where a run leaves things. */
  function Final(w: Snapshot, trail: seq<Snapshot>): Snapshot {
    if trail == [] then w else trail[|trail| - 1]
  }

  // ----- the commands themselves

  lemma WriteStatesNext(files: Files, path: Path, data: Bytes, k: nat, vault: VaultBackend.Vault)
    requires k < |data|
    ensures WithVault(WriteStates(files, path, data, WriteFault(true, k + 1, true)), vault) ==
            WithVault(WriteStates(files, path, data, WriteFault(true, k, true)), vault)
            + [Snapshot(files[path := data[..k + 1]], vault)]
  {
  }

  lemma WithVaultNext(states: seq<Files>, next: Files, vault: VaultBackend.Vault)
    ensures WithVault(states + [next], vault) == WithVault(states, vault) + [Snapshot(next, vault)]
  {
  }

  lemma ZeroStatesNext(files: Files, path: Path, n: nat, vault: VaultBackend.Vault)
    requires path in files && n < |files[path]|
    ensures WithVault(ZeroStates(files, path, n + 1), vault) ==
            WithVault(ZeroStates(files, path, n), vault)
            + [Snapshot(files[path := Scalar.ZeroPrefix(files[path], n + 1)], vault)]
  {
  }

  class World {
    var files: Files
    var vault: VaultBackend.Vault
    ghost var trail: seq<Snapshot>

    /** The trail's last state is the present one. */
    ghost predicate InSync()
      reads this
    {
      trail != [] && trail[|trail| - 1] == Snapshot(files, vault)
    }

    constructor (files: Files, vault: VaultBackend.Vault)
      ensures InSync() && trail == [Snapshot(files, vault)]
    {
      this.files, this.vault := files, vault;
      trail := [Snapshot(files, vault)];
    }

    /** One byte written, one entry removed, one request served. */
    method Change(files: Files, vault: VaultBackend.Vault)
      modifies this
      ensures InSync() && this.files == files && this.vault == vault
      ensures trail == old(trail) + [Snapshot(files, vault)]
    {
      this.files, this.vault := files, vault;
      trail := trail + [Snapshot(files, vault)];
    }

    /** Truncate the file, then write the first bytes of data, as many as the write gets to. */
    method Fill(path: Path, data: Bytes, written: nat) returns (k: nat)
      requires InSync()
      modifies this
      ensures InSync() && vault == old(vault)
      ensures k == Min(written, |data|)
      ensures files == old(files)[path := data[..k]]
      ensures trail ==
              old(trail) + WithVault(WriteStates(old(files), path, data, WriteFault(true, k, true)), vault)
    {
      ghost var was := files;
      Change(files[path := []], vault);
      k := 0;
      assert trail == old(trail) + WithVault(WriteStates(was, path, data, WriteFault(true, 0, true)), vault);
      while k < |data| && k < written
        invariant 0 <= k <= |data| && k <= written
        invariant InSync() && vault == old(vault) && files == was[path := data[..k]]
        invariant trail == old(trail) + WithVault(WriteStates(was, path, data, WriteFault(true, k, true)), vault)
      {
        WriteStatesNext(was, path, data, k, vault);
        Change(files[path := data[..k + 1]], vault);
        assert files == was[path := data[..k + 1]];
        k := k + 1;
      }
    }

    method WriteFile(path: Path, data: Bytes, fault: WriteFault) returns (ok: bool)
      requires InSync()
      modifies this
      ensures InSync()
      ensures ok <==> WriteSucceeds(data, fault)
      ensures vault == old(vault)
      ensures trail == old(trail) + WithVault(WriteStates(old(files), path, data, fault), vault)
      ensures fault.opens ==> files == old(files)[path := data[..Min(fault.written, |data|)]]
      ensures !fault.opens ==> files == old(files)
    {
      if !fault.opens {
        assert trail == trail + WithVault([], vault);
        return false;
      }
      ghost var was := files;
      var k := Fill(path, data, fault.written);
      assert WriteStates(was, path, data, WriteFault(true, k, true)) == WriteStates(was, path, data, fault);
      ok := k == |data| && fault.closes;
    }

    /** Zero the first bytes of the file, as many as the write gets to. */
    method Overwrite(path: Path, written: nat) returns (n: nat)
      requires InSync() && path in files
      modifies this
      ensures InSync() && vault == old(vault)
      ensures n == Min(written, |old(files)[path]|)
      ensures files == old(files)[path := Scalar.ZeroPrefix(old(files)[path], n)]
      ensures trail == old(trail) + WithVault(ZeroStates(old(files), path, n), vault)
    {
      ghost var all := files;
      var was := files[path];
      n := 0;
      assert Scalar.ZeroPrefix(was, 0) == was;
      assert trail == old(trail) + WithVault(ZeroStates(all, path, 0), vault);
      while n < |was| && n < written
        invariant n <= |was| && n <= written
        invariant InSync() && vault == old(vault)
        invariant files == all[path := Scalar.ZeroPrefix(was, n)]
        invariant trail == old(trail) + WithVault(ZeroStates(all, path, n), vault)
      {
        ZeroStatesNext(all, path, n, vault);
        LocalBackend.ZeroNext(was, n);
        Change(files[path := files[path][n := 0]], vault);
        assert files == all[path := Scalar.ZeroPrefix(was, n + 1)];
        n := n + 1;
      }
    }

    method SecureDelete(path: Path, fault: WipeFault) returns (ok: bool)
      requires InSync()
      modifies this
      ensures InSync()
      ensures ok <==> WipeSucceeds(old(files), path, fault)
      ensures vault == old(vault)
      ensures trail == old(trail) + WithVault(WipeStates(old(files), path, fault), vault)
      ensures ok ==> files == old(files) - {path}
    {
      if path !in files || !fault.opens || !fault.stats {
        assert trail == trail + WithVault([], vault);
        return false;
      }
      ghost var all := files;
      var size := |files[path]|;
      var n := Overwrite(path, fault.written);
      ok := n == size && fault.syncs && fault.removes;
      assert ZeroStates(all, path, n) + [] == ZeroStates(all, path, n);
      if ok {
        WithVaultNext(ZeroStates(all, path, n), all - {path}, vault);
        Change(files - {path}, vault);
        assert files == all - {path};
      }
    }

    method DeleteInput(opts: Opts, env: Env, hex: string) returns (pkHex: Option<string>)
      requires InSync()
      modifies this
      ensures InSync()
      ensures trail == old(trail) + DeleteRun(old(Snapshot(files, vault)), opts, env, hex).0
      ensures pkHex == DeleteRun(old(Snapshot(files, vault)), opts, env, hex).1
    {
      if opts.deleteInput {
        var ok := SecureDelete(opts.input, env.wipe);
        if !ok {
          return None;
        }
      }
      pkHex := Some(hex);
    }

    method MigrateToVault(bls: Bls, opts: Opts, env: Env, sk: Bytes) returns (pkHex: Option<string>)
      requires InSync()
      modifies this
      ensures InSync()
      ensures trail == old(trail) + VaultRun(bls, old(Snapshot(files, vault)), opts, env, sk).0
      ensures pkHex == VaultRun(bls, old(Snapshot(files, vault)), opts, env, sk).1
    {
      var req := VaultPlugin.Import(opts.vault.keyName, Some(Hex.Encode(sk)));
      var (vault', reply) := VaultBackend.Request(bls, vault, VaultBackend.Mount(opts.vault), req, env.net);
      Change(files, vault');
      if reply.None? || !reply.value.PublicKeyIs? {
        return None;
      }
      pkHex := DeleteInput(opts, env, reply.value.hex);
    }

    method MigrateToKms(bls: Bls, kms: Kms, opts: Opts, env: Env, sk: Bytes) returns (pkHex: Option<string>)
      requires Scalar.Valid(sk)
      requires InSync()
      modifies this
      ensures InSync()
      ensures trail == old(trail) + KmsRun(bls, kms, old(Snapshot(files, vault)), opts, env, sk).0
      ensures pkHex == KmsRun(bls, kms, old(Snapshot(files, vault)), opts, env, sk).1
    {
      var pk := PublicKey(bls, sk);
      if pk.Err? {
        return None;
      }
      var blob := kms.encrypt(env.nonce, sk);
      if blob.None? {
        return None;
      }
      var written := WriteFile(opts.output, blob.value, env.write);
      if !written {
        return None;
      }
      assert blob.value[..|blob.value|] == blob.value;
      pkHex := DeleteInput(opts, env, Hex.Encode(pk.value));
    }

    method Migrate(bls: Bls, kms: Kms, opts: Opts, env: Env) returns (pkHex: Option<string>)
      requires InSync()
      modifies this
      ensures InSync()
      ensures trail == old(trail) + MigrateRun(bls, kms, old(Snapshot(files, vault)), opts, env).0
      ensures pkHex == MigrateRun(bls, kms, old(Snapshot(files, vault)), opts, env).1
    {
      if !env.readable || opts.input !in files {
        return None;
      }
      var sk := files[opts.input];
      if |sk| != Scalar.SIZE || !ValidateSecretKey(sk) {
        return None;
      }
      match opts.backend
      case UnknownKind => pkHex := None;
      case VaultKind => pkHex := MigrateToVault(bls, opts, env, sk);
      case KmsKind => pkHex := MigrateToKms(bls, kms, opts, env, sk);
    }

    method Generate(bls: Bls, kms: Kms, opts: Opts, env: Env) returns (pkHex: Option<string>)
      requires InSync()
      modifies this
      ensures InSync()
      ensures trail == old(trail) + GenerateRun(bls, kms, old(Snapshot(files, vault)), opts, env).0
      ensures pkHex == GenerateRun(bls, kms, old(Snapshot(files, vault)), opts, env).1
    {
      if opts.backend.VaultKind? {
        var req := VaultPlugin.Generate(opts.vault.keyName, env.generated);
        var (vault', reply) := VaultBackend.Request(bls, vault, VaultBackend.Mount(opts.vault), req, env.net);
        Change(files, vault');
        return if reply.Some? && reply.value.PublicKeyIs? then Some(reply.value.hex) else None;
      }
      if env.generated.None? {
        return None;
      }
      var pk := PublicKey(bls, env.generated.value);
      if pk.Err? || opts.backend.UnknownKind? {
        return None;
      }
      var blob := kms.encrypt(env.nonce, env.generated.value);
      if blob.None? {
        return None;
      }
      var written := WriteFile(opts.output, blob.value, env.write);
      pkHex := if written then Some(Hex.Encode(pk.value)) else None;
    }
  }

  // ----- no key is lost

  /** The scalar can be had from the input file, from the output blob, or from Vault. */
  ghost predicate Recoverable(kms: Kms, s: Snapshot, opts: Opts, sk: Bytes) {
    || (opts.input in s.files && s.files[opts.input] == sk)
    || (opts.output in s.files && kms.decrypt(s.files[opts.output]) == Some(sk))
    || VaultBackend.Holds(s.vault, opts.vault, sk)
  }

  ghost predicate AllRecoverable(kms: Kms, trail: seq<Snapshot>, opts: Opts, sk: Bytes) {
    forall i :: 0 <= i < |trail| ==> Recoverable(kms, trail[i], opts, sk)
  }

  /** A successful import leaves the key in Vault. */
  lemma ImportHolds(bls: Bls, vault: VaultBackend.Vault, cfg: VaultBackend.Config, sk: Bytes,
                    net: VaultBackend.Exchange)
    requires Scalar.Valid(sk)
    requires VaultBackend.Mount(cfg) in vault ==> VaultPlugin.Inv(vault[VaultBackend.Mount(cfg)])
    ensures var req := VaultPlugin.Import(cfg.keyName, Some(Hex.Encode(sk)));
            var (vault', reply) := VaultBackend.Request(bls, vault, VaultBackend.Mount(cfg), req, net);
            reply.Some? && reply.value.PublicKeyIs? ==>
              VaultBackend.Holds(vault', cfg, sk) && reply.value.hex == Hex.Encode(bls.pkOf(sk))
  {
    if VaultBackend.Mount(cfg) in vault {
      var call := VaultPlugin.Call(VaultPlugin.Import(cfg.keyName, Some(Hex.Encode(sk))), net.storage);
      VaultPlugin.StepKeeps(bls, vault[VaultBackend.Mount(cfg)], call);
      VaultPlugin.ImportStores(bls, vault[VaultBackend.Mount(cfg)], cfg.keyName, sk, net.storage);
    }
  }

  /** Writing the blob to another file leaves the input alone; once written, the blob holds the key. */
  lemma SafeToKms(bls: Bls, kms: Kms, w: Snapshot, opts: Opts, env: Env)
    requires Contract(kms) && opts.input in w.files && Scalar.Valid(w.files[opts.input])
    requires opts.backend.KmsKind? && opts.input != opts.output
    ensures AllRecoverable(kms, MigrateRun(bls, kms, w, opts, env).0, opts, w.files[opts.input])
  {
  }

  lemma SafeToVault(bls: Bls, kms: Kms, w: Snapshot, opts: Opts, env: Env)
    requires opts.input in w.files && Scalar.Valid(w.files[opts.input])
    requires opts.backend.VaultKind?
    requires VaultBackend.Mount(opts.vault) in w.vault ==> VaultPlugin.Inv(w.vault[VaultBackend.Mount(opts.vault)])
    ensures AllRecoverable(kms, MigrateRun(bls, kms, w, opts, env).0, opts, w.files[opts.input])
  {
    ImportHolds(bls, w.vault, opts.vault, w.files[opts.input], env.net);
  }

  /**
   Whatever fails and wherever the process dies, the key is recoverable: for Vault always, as
   long as no other writer of that name is in the middle of its request (the import is one
   step here; VaultMigrateNoKeyLossIff splits it); for a KMS exactly when the input and the
   output are different files or the run stops before the output is opened.
   */
  lemma NoKeyLossIff(bls: Bls, kms: Kms, w: Snapshot, opts: Opts, env: Env)
    requires Contract(kms) && opts.input in w.files && Scalar.Valid(w.files[opts.input])
    requires VaultBackend.Mount(opts.vault) in w.vault ==> VaultPlugin.Inv(w.vault[VaultBackend.Mount(opts.vault)])
    requires !VaultBackend.Holds(w.vault, opts.vault, w.files[opts.input])
    ensures AllRecoverable(kms, MigrateRun(bls, kms, w, opts, env).0, opts, w.files[opts.input]) <==>
            || !opts.backend.KmsKind?
            || opts.input != opts.output
            || !(env.readable && env.write.opens && kms.encrypt(env.nonce, w.files[opts.input]).Some?)
  {
    var sk := w.files[opts.input];
    if opts.backend.VaultKind? {
      SafeToVault(bls, kms, w, opts, env);
    } else if opts.backend.KmsKind? && opts.input != opts.output {
      SafeToKms(bls, kms, w, opts, env);
    } else if opts.backend.KmsKind? && env.readable && env.write.opens && kms.encrypt(env.nonce, sk).Some? {
      var first := MigrateRun(bls, kms, w, opts, env).0[0];
      assert first.files[opts.output] == [];
      assert !Recoverable(kms, first, opts, sk);
    }
  }

  /** With equal paths, a run that reports success keeps the key exactly when it need not delete the input. */
  lemma EqualPathsIff(bls: Bls, kms: Kms, w: Snapshot, opts: Opts, env: Env)
    requires Contract(kms) && opts.backend.KmsKind? && opts.input == opts.output
    requires opts.input in w.files
    requires !VaultBackend.Holds(w.vault, opts.vault, w.files[opts.input])
    requires MigrateRun(bls, kms, w, opts, env).1.Some?
    ensures Recoverable(kms, Final(w, MigrateRun(bls, kms, w, opts, env).0), opts, w.files[opts.input]) <==>
            !opts.deleteInput
  {
    var blob := kms.encrypt(env.nonce, w.files[opts.input]).value;
    assert blob[..|blob|] == blob;
    if !opts.deleteInput {
      assert Final(w, MigrateRun(bls, kms, w, opts, env).0).files[opts.output] == blob;
    }
  }

  // ----- a migration into Vault while other requests are served

  /** The input file, untouched and then at each step of its wiping. */
  function InputStates(files: Files, input: Path, fault: WipeFault): seq<Files> {
    [files] + WipeStates(files, input, fault)
  }

  /** The key is in the input file, or stored in Vault under the name. */
  predicate KeySomewhere(files: Files, input: Path, s: VaultRaces.State, name: string, sk: Bytes) {
    || (input in files && files[input] == sk)
    || (name in s.entries && VaultPlugin.DeserializeHex(s.entries[name]) == Some(sk))
  }

  /**
   The plugin's run, with keytool's import writing at j, seen together with keytool's disk:
   the wiping starts after that write was answered, and from then on its steps and the
   plugin's fall in any order.  At no moment is the key nowhere.
   */
  ghost predicate NeverNowhere(run: seq<VaultRaces.State>, j: nat, name: string, files: Files, input: Path, sk: Bytes) {
    forall m: nat, t: nat, fault: WipeFault ::
      m < |run| && t < |InputStates(files, input, fault)| && (t > 0 ==> j < m) ==>
        KeySomewhere(InputStates(files, input, fault)[t], input, run[m], name, sk)
  }

  const CLEAN_WIPE: WipeFault := WipeFault(true, true, Scalar.SIZE, true, true)

  lemma CleanWipeEmpties(files: Files, input: Path)
    requires input in files && |files[input]| == Scalar.SIZE
    ensures var states := InputStates(files, input, CLEAN_WIPE);
            |states| == Scalar.SIZE + 2 && input !in states[|states| - 1]
  {
  }

  /**
   Migrating into Vault with the input deleted keeps the key at every moment, however the
   wiping and the other requests interleave, exactly when every other writer of that name
   that had read storage before keytool's import wrote, and writes after it, stores the same
   scalar.
   */
  lemma VaultMigrateNoKeyLossIff(bls: Bls, reqs: seq<VaultRaces.Request>, events: seq<VaultRaces.Event>,
                                 run: seq<VaultRaces.State>, j: nat, files: Files, input: Path, sk: Bytes)
    requires VaultRaces.IsRun(bls, reqs, events, run) && VaultRaces.IsPut(reqs, events, j)
    requires Scalar.Valid(sk) && input in files && files[input] == sk
    requires reqs[events[j].p].value == Hex.Encode(sk)
    ensures NeverNowhere(run, j, reqs[events[j].p].name, files, input, sk) <==>
            forall i: nat, k: nat :: VaultRaces.InWindow(reqs, events, i, j, k) ==>
              VaultPlugin.DeserializeHex(reqs[events[k].p].value) == Some(sk)
  {
    var name, view := reqs[events[j].p].name, VaultRaces.ScalarText;
    VaultRaces.WriteKeptIff(bls, view, reqs, events, run, j);
    if forall i: nat, k: nat :: VaultRaces.InWindow(reqs, events, i, j, k) ==>
         VaultPlugin.DeserializeHex(reqs[events[k].p].value) == Some(sk)
    {
      forall i: nat, k: nat | VaultRaces.InWindow(reqs, events, i, j, k)
        ensures view(reqs[events[k].p].value) == view(reqs[events[j].p].value)
      {
        VaultRaces.SameScalarText(reqs[events[k].p].value, sk);
      }
      forall m: nat | j < m < |run|
        ensures name in run[m].entries && VaultPlugin.DeserializeHex(run[m].entries[name]) == Some(sk)
      {
        VaultRaces.SameScalarText(run[m].entries[name], sk);
      }
    }
    if NeverNowhere(run, j, name, files, input, sk) {
      CleanWipeEmpties(files, input);
      var gone := |InputStates(files, input, CLEAN_WIPE)| - 1;
      forall i: nat, k: nat | VaultRaces.InWindow(reqs, events, i, j, k)
        ensures VaultPlugin.DeserializeHex(reqs[events[k].p].value) == Some(sk)
      {
        assert KeySomewhere(InputStates(files, input, CLEAN_WIPE)[gone], input, run[k + 1], name, sk);
        assert run[k + 1] == VaultRaces.Next(bls, reqs, run[k], events[k]);
      }
    }
  }

  /** It does happen: another import of a different key, begun before, replaces the migrated one. */
  lemma VaultMigrateCanLose(bls: Bls, name: string, sk: Bytes, other: Bytes, files: Files, input: Path)
    returns (reqs: seq<VaultRaces.Request>, events: seq<VaultRaces.Event>, run: seq<VaultRaces.State>, j: nat)
    requires Scalar.Valid(sk) && Scalar.Valid(other) && sk != other && input in files && files[input] == sk
    ensures VaultRaces.IsRun(bls, reqs, events, run) && VaultRaces.IsPut(reqs, events, j)
    ensures reqs[events[j].p] == VaultRaces.Writer(name, Hex.Encode(sk))
    ensures VaultRaces.Reports(run[|events|], events[j].p, Hex.Encode(bls.pkOf(sk)))
    ensures !NeverNowhere(run, j, name, files, input, sk)
  {
    VaultPlugin.EncodedKey(sk);
    VaultPlugin.EncodedKey(other);
    reqs := [VaultRaces.Writer(name, Hex.Encode(sk)), VaultRaces.Writer(name, Hex.Encode(other))];
    events, run := VaultRaces.TwoImports(bls, name, Hex.Encode(sk), Hex.Encode(other));
    j := 2;
    CleanWipeEmpties(files, input);
    var gone := |InputStates(files, input, CLEAN_WIPE)| - 1;
    assert !KeySomewhere(InputStates(files, input, CLEAN_WIPE)[gone], input, run[4], name, sk);
  }

  // ----- when a command succeeds, and what it goes through

  /** Every call of secureDelete works on a file of this size: open, stat, write, sync, remove. */
  predicate WipeWorks(fault: WipeFault, size: nat) {
    fault.opens && fault.stats && fault.written >= size && fault.syncs && fault.removes
  }

  /** os.WriteFile opens, takes every byte and closes. */
  predicate WriteWorks(fault: WriteFault, size: nat) {
    fault.opens && fault.written >= size && fault.closes
  }

  /** The request and the reply arrive, the plugin's storage works, and the name is free. */
  predicate WriterAdmitted(w: Snapshot, cfg: VaultBackend.Config, net: VaultBackend.Exchange) {
    && net.arrives && net.replies && !net.storage.getFails && !net.storage.putFails
    && VaultBackend.Mount(cfg) in w.vault && cfg.keyName !in w.vault[VaultBackend.Mount(cfg)]
  }

  lemma ImportReply(bls: Bls, w: Snapshot, cfg: VaultBackend.Config, sk: Bytes, net: VaultBackend.Exchange)
    requires Scalar.Valid(sk)
    ensures var req := VaultPlugin.Import(cfg.keyName, Some(Hex.Encode(sk)));
            var reply := VaultBackend.Request(bls, w.vault, VaultBackend.Mount(cfg), req, net).1;
            if WriterAdmitted(w, cfg, net) then reply == Some(VaultPlugin.PublicKeyIs(Hex.Encode(bls.pkOf(sk))))
            else reply.Some? ==> !reply.value.PublicKeyIs?
  {
    VaultPlugin.EncodedKey(sk);
  }

  lemma VaultSucceedsIff(bls: Bls, w: Snapshot, opts: Opts, env: Env, sk: Bytes)
    requires opts.input in w.files && w.files[opts.input] == sk && Scalar.Valid(sk)
    ensures VaultRun(bls, w, opts, env, sk).1 ==
            if WriterAdmitted(w, opts.vault, env.net) && (opts.deleteInput ==> WipeWorks(env.wipe, 32)) then
              Some(Hex.Encode(bls.pkOf(sk)))
            else None
  {
    ImportReply(bls, w, opts.vault, sk, env.net);
  }

  lemma KmsSucceedsIff(bls: Bls, kms: Kms, w: Snapshot, opts: Opts, env: Env, sk: Bytes)
    requires opts.input in w.files && w.files[opts.input] == sk && Scalar.Valid(sk)
    ensures var blob := kms.encrypt(env.nonce, sk);
            KmsRun(bls, kms, w, opts, env, sk).1 ==
            if blob.Some? && WriteWorks(env.write, |blob.value|)
               && (opts.deleteInput ==> WipeWorks(env.wipe, if opts.input == opts.output then |blob.value| else 32))
            then Some(Hex.Encode(bls.pkOf(sk)))
            else None
  {
  }

  /**
   Migrate prints the public key exactly when the input can be read and is a valid scalar and
   every call made on the way to its backend works; the wiping, when it is asked for, is of
   what is at the input path by then: the blob, if the two paths are equal.  Otherwise it
   fails.
   */
  lemma MigrateSucceedsIff(bls: Bls, kms: Kms, w: Snapshot, opts: Opts, env: Env)
    ensures var pkHex := MigrateRun(bls, kms, w, opts, env).1;
            if env.readable && opts.input in w.files && Scalar.Valid(w.files[opts.input]) then
              var sk := w.files[opts.input];
              var blob := kms.encrypt(env.nonce, sk);
              var works :=
                match opts.backend
                case UnknownKind => false
                case VaultKind =>
                  WriterAdmitted(w, opts.vault, env.net) && (opts.deleteInput ==> WipeWorks(env.wipe, 32))
                case KmsKind =>
                  && blob.Some? && WriteWorks(env.write, |blob.value|)
                  && (opts.deleteInput ==>
                        WipeWorks(env.wipe, if opts.input == opts.output then |blob.value| else 32));
              pkHex == if works then Some(Hex.Encode(bls.pkOf(sk))) else None
            else pkHex.None?
  {
    if opts.input in w.files && Scalar.Valid(w.files[opts.input]) {
      VaultSucceedsIff(bls, w, opts, env, w.files[opts.input]);
      KmsSucceedsIff(bls, kms, w, opts, env, w.files[opts.input]);
    }
  }

  /** Likewise for Generate: it prints the key of the generated scalar exactly when every call works. */
  lemma GenerateSucceedsIff(bls: Bls, kms: Kms, w: Snapshot, opts: Opts, env: Env)
    ensures var pkHex := GenerateRun(bls, kms, w, opts, env).1;
            if env.generated.Some? && Scalar.Valid(env.generated.value) then
              var sk := env.generated.value;
              var blob := kms.encrypt(env.nonce, sk);
              var works := match opts.backend
                           case UnknownKind => false
                           case VaultKind => WriterAdmitted(w, opts.vault, env.net)
                           case KmsKind => blob.Some? && WriteWorks(env.write, |blob.value|);
              pkHex == if works then Some(Hex.Encode(bls.pkOf(sk))) else None
            else pkHex.None?
  {
    if env.generated.Some? {
      VaultPlugin.EncodedKey(env.generated.value);
    }
  }

  /**
   A wiping overwrites before it removes: its k-th state holds the original with its first k
   bytes zero, as far as the writes got, and the file is gone only in a last state that comes
   directly after one in which it is all zeros.  If the wiping fails the file is still there.
   */
  lemma WipedFirst(files: Files, path: Path, fault: WipeFault)
    requires path in files
    ensures var states, size := InputStates(files, path, fault), |files[path]|;
            var reached := if fault.opens && fault.stats then Min(fault.written, size) else 0;
            && |states| == reached + (if WipeWorks(fault, size) then 2 else 1)
            && (forall k :: 0 <= k <= reached ==> states[k] == files[path := Scalar.ZeroPrefix(files[path], k)])
            && (WipeWorks(fault, size) ==> states[size][path] == Zeros(size) && states[size + 1] == files - {path})
            && (WipeWorks(fault, size) <==> path !in states[|states| - 1])
  {
    assert Scalar.ZeroPrefix(files[path], 0) == files[path];
    assert Scalar.ZeroPrefix(files[path], |files[path]|) == Zeros(|files[path]|);
  }

  /** And secureDelete says it succeeded exactly then. */
  lemma WipeSucceedsIff(files: Files, path: Path, fault: WipeFault)
    ensures WipeSucceeds(files, path, fault) <==> path in files && WipeWorks(fault, |files[path]|)
    ensures path !in files ==> WipeStates(files, path, fault) == []
  {
  }

  /**
   What a crash of a KMS migration can leave on disk: the output a prefix of the blob, and the
   input untouched until the blob is written and closed; from then on the input is zeroed from the front
   and removed.  Nothing else on disk changes, nor does Vault.
   */
  lemma KmsCrashStates(bls: Bls, kms: Kms, w: Snapshot, opts: Opts, env: Env, i: nat)
    requires opts.backend.KmsKind? && opts.input != opts.output && i < |MigrateRun(bls, kms, w, opts, env).0|
    ensures opts.input in w.files && kms.encrypt(env.nonce, w.files[opts.input]).Some?
    ensures var sk, s := w.files[opts.input], MigrateRun(bls, kms, w, opts, env).0[i];
            var blob := kms.encrypt(env.nonce, sk).value;
            && s.vault == w.vault
            && s.files - {opts.input, opts.output} == w.files - {opts.input, opts.output}
            && opts.output in s.files
            && (i <= |blob| ==>
                  s.files[opts.output] == blob[..i] && opts.input in s.files && s.files[opts.input] == sk)
            && (i > |blob| ==>
                  && s.files[opts.output] == blob && opts.deleteInput && WriteWorks(env.write, |blob|)
                  && (i <= |blob| + 32 ==>
                        opts.input in s.files && s.files[opts.input] == Scalar.ZeroPrefix(sk, i - |blob|))
                  && (i > |blob| + 32 ==> i == |blob| + 33 && opts.input !in s.files))
  {
  }

  lemma WipeStateAt(files: Files, path: Path, fault: WipeFault, i: nat)
    requires path in files && i < |WipeStates(files, path, fault)|
    ensures var after, size := WipeStates(files, path, fault)[i], |files[path]|;
            && after - {path} == files - {path}
            && (i < size ==> path in after && after[path] == Scalar.ZeroPrefix(files[path], i + 1))
            && (i >= size ==> i == size && path !in after)
  {
  }

  lemma VaultRunFiles(bls: Bls, w: Snapshot, opts: Opts, env: Env, sk: Bytes, i: nat)
    requires Scalar.Valid(sk) && i < |VaultRun(bls, w, opts, env, sk).0|
    ensures var s := VaultRun(bls, w, opts, env, sk).0[i];
            if i == 0 then s.files == w.files
            else
              && opts.deleteInput && WriterAdmitted(w, opts.vault, env.net)
              && i - 1 < |WipeStates(w.files, opts.input, env.wipe)|
              && s.files == WipeStates(w.files, opts.input, env.wipe)[i - 1]
  {
    ImportReply(bls, w, opts.vault, sk, env.net);
  }

  lemma VaultRunHolds(bls: Bls, w: Snapshot, opts: Opts, env: Env, sk: Bytes, i: nat)
    requires Scalar.Valid(sk) && 0 < i < |VaultRun(bls, w, opts, env, sk).0|
    requires VaultBackend.Mount(opts.vault) in w.vault ==> VaultPlugin.Inv(w.vault[VaultBackend.Mount(opts.vault)])
    ensures VaultBackend.Holds(VaultRun(bls, w, opts, env, sk).0[i].vault, opts.vault, sk)
  {
    ImportHolds(bls, w.vault, opts.vault, sk, env.net);
  }

  /** What a crash of a Vault migration can leave: the input untouched until the plugin has said it has the key. */
  lemma VaultCrashStates(bls: Bls, kms: Kms, w: Snapshot, opts: Opts, env: Env, i: nat)
    requires opts.backend.VaultKind? && i < |MigrateRun(bls, kms, w, opts, env).0|
    requires VaultBackend.Mount(opts.vault) in w.vault ==> VaultPlugin.Inv(w.vault[VaultBackend.Mount(opts.vault)])
    ensures opts.input in w.files
    ensures var sk, s := w.files[opts.input], MigrateRun(bls, kms, w, opts, env).0[i];
            && s.files - {opts.input} == w.files - {opts.input}
            && (i == 0 ==> s.files == w.files)
            && (i > 0 ==>
                  && VaultBackend.Holds(s.vault, opts.vault, sk) && opts.deleteInput
                  && WriterAdmitted(w, opts.vault, env.net)
                  && (i <= 32 ==> opts.input in s.files && s.files[opts.input] == Scalar.ZeroPrefix(sk, i))
                  && (i > 32 ==> i == 33 && opts.input !in s.files))
  {
    VaultRunFiles(bls, w, opts, env, w.files[opts.input], i);
    if i > 0 {
      VaultRunHolds(bls, w, opts, env, w.files[opts.input], i);
      WipeStateAt(w.files, opts.input, env.wipe, i - 1);
    }
  }

  /** What a crash of generate can leave: nothing changed on disk but the output, a prefix of the blob. */
  lemma GenerateCrashStates(bls: Bls, kms: Kms, w: Snapshot, opts: Opts, env: Env, i: nat)
    requires !opts.backend.VaultKind? && i < |GenerateRun(bls, kms, w, opts, env).0|
    ensures env.generated.Some? && kms.encrypt(env.nonce, env.generated.value).Some?
    ensures var s, blob := GenerateRun(bls, kms, w, opts, env).0[i], kms.encrypt(env.nonce, env.generated.value).value;
            i <= |blob| && s == Snapshot(w.files[opts.output := blob[..i]], w.vault)
  {
  }

  // ----- what success means, and what a server then started finds

  /** awskms.newWithClient: read the blob, decrypt it, check it. */
  function StartServer(bls: Bls, kms: Kms, files: Files, path: Path): Option<LocalBackend.KeyPair> {
    if path !in files then None
    else
      match kms.decrypt(files[path])
      case None => None
      case Some(sk) =>
        match LocalBackend.FromBytes(bls, sk)
        case Err(_) => None
        case Ok(pair) => Some(pair)
  }

  /**
   A migration that reports success has touched nothing but the two files; it has removed
   the input exactly when asked; and a server started from the blob holds the migrated
   scalar and has the public key that was printed.
   */
  lemma MigrateThenServe(bls: Bls, kms: Kms, w: Snapshot, opts: Opts, env: Env)
    requires Contract(kms) && opts.backend.KmsKind? && opts.input != opts.output
    requires MigrateRun(bls, kms, w, opts, env).1.Some?
    ensures opts.input in w.files && Scalar.Valid(w.files[opts.input])
    ensures var (trail, pkHex) := MigrateRun(bls, kms, w, opts, env);
            var sk, after := w.files[opts.input], Final(w, trail);
            && after.vault == w.vault
            && (opts.input in after.files <==> !opts.deleteInput)
            && (!opts.deleteInput ==> after.files[opts.input] == sk)
            && (forall p :: p != opts.input && p != opts.output ==>
                  (p in after.files <==> p in w.files) && (p in w.files ==> after.files[p] == w.files[p]))
            && StartServer(bls, kms, after.files, opts.output) == Some(LocalBackend.KeyPair(sk, bls.pkOf(sk)))
            && Hex.DecodeString(pkHex.value) == Some(bls.pkOf(sk))
  {
    var sk := w.files[opts.input];
    var blob := kms.encrypt(env.nonce, sk).value;
    var trail := MigrateRun(bls, kms, w, opts, env).0;
    var files := w.files[opts.output := blob];
    assert blob[..|blob|] == blob;
    assert Final(w, trail).files == if opts.deleteInput then files - {opts.input} else files;
    Hex.RoundTrip(bls.pkOf(sk));
  }

  lemma GenerateThenServe(bls: Bls, kms: Kms, w: Snapshot, opts: Opts, env: Env)
    requires Contract(kms) && opts.backend.KmsKind?
    requires GenerateRun(bls, kms, w, opts, env).1.Some?
    ensures env.generated.Some? && Scalar.Valid(env.generated.value)
    ensures var (trail, pkHex) := GenerateRun(bls, kms, w, opts, env);
            var sk, after := env.generated.value, Final(w, trail);
            && after.vault == w.vault && after.files.Keys == w.files.Keys + {opts.output}
            && (forall p :: p in w.files && p != opts.output ==> after.files[p] == w.files[p])
            && StartServer(bls, kms, after.files, opts.output) == Some(LocalBackend.KeyPair(sk, bls.pkOf(sk)))
            && Hex.DecodeString(pkHex.value) == Some(bls.pkOf(sk))
  {
    var sk := env.generated.value;
    var blob := kms.encrypt(env.nonce, sk).value;
    assert blob[..|blob|] == blob;
    assert Final(w, GenerateRun(bls, kms, w, opts, env).0).files == w.files[opts.output := blob];
    Hex.RoundTrip(bls.pkOf(sk));
  }

  /** The server's settings lead to the same entry as the key tool's; "" and "bls" are one mount. */
  predicate SameEntry(tool: VaultBackend.Config, server: VaultBackend.Config) {
    VaultBackend.Mount(tool) == VaultBackend.Mount(server) && tool.keyName == server.keyName
  }

  /** The same through Vault: a backend started on the same mount and name caches the printed public key. */
  lemma VaultMigrateThenServe(bls: Bls, kms: Kms, w: Snapshot, opts: Opts, env: Env,
                              server: VaultBackend.Config, net: VaultBackend.Exchange)
    requires opts.backend.VaultKind? && SameEntry(opts.vault, server) && VaultBackend.Works(net)
    requires VaultBackend.Mount(opts.vault) in w.vault ==> VaultPlugin.Inv(w.vault[VaultBackend.Mount(opts.vault)])
    ensures var (trail, pkHex) := MigrateRun(bls, kms, w, opts, env);
            pkHex.Some? ==>
              var pk := bls.pkOf(w.files[opts.input]);
              && VaultBackend.BootPublicKey(bls, Final(w, trail).vault, server, net) == Some(pk)
              && Hex.DecodeString(pkHex.value) == Some(pk)
  {
    if MigrateRun(bls, kms, w, opts, env).1.Some? {
      var sk := w.files[opts.input];
      ImportHolds(bls, w.vault, opts.vault, sk, env.net);
      var vault := Final(w, MigrateRun(bls, kms, w, opts, env).0).vault;
      VaultBackend.BootsOnStoredKey(bls, vault, server, sk, net);
      Hex.RoundTrip(bls.pkOf(sk));
    }
  }

  lemma GenerateHolds(bls: Bls, vault: VaultBackend.Vault, cfg: VaultBackend.Config, sk: Bytes,
                      net: VaultBackend.Exchange)
    requires VaultBackend.Mount(cfg) in vault ==> VaultPlugin.Inv(vault[VaultBackend.Mount(cfg)])
    ensures var req := VaultPlugin.Generate(cfg.keyName, Some(sk));
            var (vault', reply) := VaultBackend.Request(bls, vault, VaultBackend.Mount(cfg), req, net);
            reply.Some? && reply.value.PublicKeyIs? ==>
              VaultBackend.Holds(vault', cfg, sk) && reply.value.hex == Hex.Encode(bls.pkOf(sk))
  {
    if VaultBackend.Mount(cfg) in vault {
      var call := VaultPlugin.Call(VaultPlugin.Generate(cfg.keyName, Some(sk)), net.storage);
      VaultPlugin.StepKeeps(bls, vault[VaultBackend.Mount(cfg)], call);
      VaultPlugin.GenerateStores(bls, vault[VaultBackend.Mount(cfg)], cfg.keyName, sk, net.storage);
    }
  }

  lemma VaultGenerateThenServe(bls: Bls, kms: Kms, w: Snapshot, opts: Opts, env: Env,
                               server: VaultBackend.Config, net: VaultBackend.Exchange)
    requires opts.backend.VaultKind? && SameEntry(opts.vault, server) && VaultBackend.Works(net)
    requires VaultBackend.Mount(opts.vault) in w.vault ==> VaultPlugin.Inv(w.vault[VaultBackend.Mount(opts.vault)])
    ensures var (trail, pkHex) := GenerateRun(bls, kms, w, opts, env);
            pkHex.Some? && env.generated.Some? ==>
              var pk := bls.pkOf(env.generated.value);
              && VaultBackend.BootPublicKey(bls, Final(w, trail).vault, server, net) == Some(pk)
              && Hex.DecodeString(pkHex.value) == Some(pk)
    ensures GenerateRun(bls, kms, w, opts, env).1.Some? ==> env.generated.Some?
  {
    if GenerateRun(bls, kms, w, opts, env).1.Some? {
      var sk := env.generated.value;
      GenerateHolds(bls, w.vault, opts.vault, sk, env.net);
      var vault := Final(w, GenerateRun(bls, kms, w, opts, env).0).vault;
      VaultBackend.BootsOnStoredKey(bls, vault, server, sk, net);
      Hex.RoundTrip(bls.pkOf(sk));
    }
  }
}
