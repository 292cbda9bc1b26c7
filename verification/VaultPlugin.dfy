/**
 The Vault secrets plugin: named scalars kept as hex text in Vault's storage, and the four
 request handlers over them.  Each handler is run here as one step; VaultRaces splits the
 writers into their Get and their Put.
 */
module VaultPlugin {
  import opened Common
  import opened BlsUtil
  import Hex
  import Scalar

  /** The plugin's own copies of the tags. */
  const PLUGIN_DST_SIGN: Bytes := Ascii("BLS_SIG_BLS12381G2_XMD:SHA-256_SSWU_RO_POP_")
  const PLUGIN_DST_POP: Bytes := Ascii("BLS_POP_BLS12381G2_XMD:SHA-256_SSWU_RO_POP_")

  /** They are those every other backend signs with. */
  lemma TagsAgree()
    ensures PLUGIN_DST_SIGN == DST_SIGN && PLUGIN_DST_POP == DST_POP
  {
  }

  /** Name to stored text; the storage prefix is left out. */
  type Entries = map<string, string>

  /**
   keygen is what key generation delivers (None when it fails); an optional argument is None
   when the caller's request has no such field, and a field holding "" is present.
   */
  datatype Request =
    | Generate(name: string, keygen: Option<Bytes>)
    | Import(name: string, key: Option<string>)
    | ReadPublicKey(name: string)
    | SignMessage(name: string, message: Option<string>, dst: Option<string>)
    | SignPossession(name: string, message: Option<string>)

  /** Which storage operations fail while a request is served. */
  datatype Storage = Storage(getFails: bool, putFails: bool)

  /** Refused is an error response, Failed an internal error. */
  datatype Reply = PublicKeyIs(hex: string) | SignatureIs(hex: string) | Refused | Failed

  datatype Call = Call(req: Request, storage: Storage)

  function DeserializeHex(skHex: string): (r: Option<Bytes>)
    ensures r.Some? ==> |skHex| == 64 && Scalar.Valid(r.value)
  {
    match Hex.DecodeString(skHex)
    case None => None
    case Some(sk) => if |sk| == Scalar.SIZE && Scalar.Valid(sk) then Some(sk) else None
  }

  function PublicKeyHex(bls: Bls, skHex: string): Option<string> {
    match DeserializeHex(skHex)
    case None => None
    case Some(sk) => Some(Hex.Encode(bls.pkOf(sk)))
  }

  function SignHex(bls: Bls, skHex: string, msgHex: string, dstHex: string): Option<string> {
    match DeserializeHex(skHex)
    case None => None
    case Some(sk) =>
      var msg, dst := Hex.DecodeString(msgHex), Hex.DecodeString(dstHex);
      if msg.None? || dst.None? then None
      else Some(Hex.Encode(bls.sigOf(sk, msg.value, dst.value)))
  }

  function LoadKey(entries: Entries, name: string): string {
    if name in entries then entries[name] else ""
  }

  function DoSign(bls: Bls, entries: Entries, name: string, msgHex: string, dstHex: string, storage: Storage): Reply {
    if storage.getFails then Failed
    else if LoadKey(entries, name) == "" then Refused
    else
      match SignHex(bls, LoadKey(entries, name), msgHex, dstHex)
      case None => Failed
      case Some(sigHex) => SignatureIs(sigHex)
  }

  /** What one request does to the storage and what it answers. */
  function Step(bls: Bls, entries: Entries, call: Call): (Entries, Reply) {
    var storage := call.storage;
    match call.req
    case Generate(name, keygen) =>
      if storage.getFails then (entries, Failed)
      else if name in entries then (entries, Refused)
      else if keygen.None? || PublicKeyHex(bls, Hex.Encode(keygen.value)).None? || storage.putFails then
        (entries, Failed)
      else
        var skHex := Hex.Encode(keygen.value);
        (entries[name := skHex], PublicKeyIs(PublicKeyHex(bls, skHex).value))
    case Import(name, key) =>
      if key.None? || |key.value| != 64 then (entries, Refused)
      else if PublicKeyHex(bls, key.value).None? || storage.getFails then (entries, Failed)
      else if name in entries then (entries, Refused)
      else if storage.putFails then (entries, Failed)
      else (entries[name := key.value], PublicKeyIs(PublicKeyHex(bls, key.value).value))
    case ReadPublicKey(name) =>
      if storage.getFails then (entries, Failed)
      else if LoadKey(entries, name) == "" then (entries, Refused)
      else
        (match PublicKeyHex(bls, LoadKey(entries, name))
         case None => (entries, Failed)
         case Some(pkHex) => (entries, PublicKeyIs(pkHex)))
    case SignMessage(name, message, dst) =>
      if message.None? then (entries, Refused)
      else
        var dstHex := if dst.None? then Hex.Encode(PLUGIN_DST_SIGN) else dst.value;
        (entries, DoSign(bls, entries, name, message.value, dstHex, storage))
    case SignPossession(name, message) =>
      if message.None? then (entries, Refused)
      else (entries, DoSign(bls, entries, name, message.value, Hex.Encode(PLUGIN_DST_POP), storage))
  }

  /** The handlers that write, in the order the plugin runs their checks. */
  class Plugin {
    const bls: Bls
    var entries: Entries

    constructor (bls: Bls)
      ensures this.bls == bls && entries == map[]
    {
      this.bls := bls;
      entries := map[];
    }

    /** Refused on a taken name; a valid generated scalar is stored and only its public key reported. */
    method HandleGenerate(name: string, keygen: Option<Bytes>, storage: Storage) returns (reply: Reply)
      modifies this`entries
      ensures var stores := name !in old(entries) && keygen.Some? && Scalar.Valid(keygen.value)
                            && !storage.getFails && !storage.putFails;
              && entries == (if stores then old(entries)[name := Hex.Encode(keygen.value)] else old(entries))
              && reply == if stores then PublicKeyIs(Hex.Encode(bls.pkOf(keygen.value)))
                          else if name in old(entries) && !storage.getFails then Refused
                          else Failed
      ensures (entries, reply) == Step(bls, old(entries), Call(Generate(name, keygen), storage))
    {
      if keygen.Some? {
        EncodedKey(keygen.value);
      }
      if storage.getFails {
        return Failed;
      }
      if name in entries {
        return Refused;
      }
      if keygen.None? {
        return Failed;
      }
      var skHex := Hex.Encode(keygen.value);
      var pkHex := PublicKeyHex(bls, skHex);
      if pkHex.None? || storage.putFails {
        return Failed;
      }
      entries := entries[name := skHex];
      reply := PublicKeyIs(pkHex.value);
    }

    /** Refused without a key of 64 characters or on a taken name; the text of a valid key is stored as sent. */
    method HandleImport(name: string, key: Option<string>, storage: Storage) returns (reply: Reply)
      modifies this`entries
      ensures var sk := if key.Some? then DeserializeHex(key.value) else None;
              var stores := sk.Some? && name !in old(entries) && !storage.getFails && !storage.putFails;
              && entries == (if stores then old(entries)[name := key.value] else old(entries))
              && reply == if stores then PublicKeyIs(Hex.Encode(bls.pkOf(sk.value)))
                          else if key.None? || |key.value| != 64 then Refused
                          else if sk.Some? && name in old(entries) && !storage.getFails then Refused
                          else Failed
      ensures (entries, reply) == Step(bls, old(entries), Call(Import(name, key), storage))
    {
      if key.None? || |key.value| != 64 {
        return Refused;
      }
      var pkHex := PublicKeyHex(bls, key.value);
      if pkHex.None? || storage.getFails {
        return Failed;
      }
      if name in entries {
        return Refused;
      }
      if storage.putFails {
        return Failed;
      }
      entries := entries[name := key.value];
      reply := PublicKeyIs(pkHex.value);
    }
  }

  // ----- what every reachable storage satisfies

  predicate WellStored(skHex: string) {
    |skHex| == 64 && DeserializeHex(skHex).Some?
  }

  ghost predicate Inv(entries: Entries) {
    forall name :: name in entries ==> WellStored(entries[name])
  }

  /** The scalar stored under a name. */
  function Key(entries: Entries, name: string): (sk: Bytes)
    requires name in entries && WellStored(entries[name])
    ensures Scalar.Valid(sk)
  {
    DeserializeHex(entries[name]).value
  }

  /** Every entry stays, and at most the requested name is added, exactly when a writer reports success. */
  lemma StepKeeps(bls: Bls, entries: Entries, call: Call)
    requires Inv(entries)
    ensures var (after, reply) := Step(bls, entries, call);
            && Inv(after)
            && (forall name :: name in entries ==> name in after && after[name] == entries[name])
            && (after != entries <==> (call.req.Generate? || call.req.Import?) && reply.PublicKeyIs?)
            && (after != entries ==> after.Keys == entries.Keys + {call.req.name} && call.req.name !in entries)
  {
    var (after, reply) := Step(bls, entries, call);
    if after != entries {
      assert after == entries[call.req.name := after[call.req.name]];
    }
  }

  /** A public-key reply of any kind is the key of what is stored under that name afterwards. */
  lemma PublicKeyReply(bls: Bls, entries: Entries, call: Call)
    requires Inv(entries)
    ensures var (after, reply) := Step(bls, entries, call);
            reply.PublicKeyIs? ==>
              && call.req.name in after && WellStored(after[call.req.name])
              && reply.hex == Hex.Encode(bls.pkOf(Key(after, call.req.name)))
  {
  }

  /** When an import succeeds, when it is refused, and that it fails on anything else. */
  lemma ImportOutcome(bls: Bls, entries: Entries, name: string, key: Option<string>, storage: Storage)
    ensures var reply := Step(bls, entries, Call(Import(name, key), storage)).1;
            var valid := key.Some? && DeserializeHex(key.value).Some?;
            && (reply.PublicKeyIs? <==> valid && name !in entries && !storage.getFails && !storage.putFails)
            && (reply.Refused? <==>
                  (key.Some? ==> |key.value| != 64) || (valid && name in entries && !storage.getFails))
            && !reply.SignatureIs?
  {
  }

  /** A taken name is refused before any key is generated; an unusable key is never stored. */
  lemma GenerateOutcome(bls: Bls, entries: Entries, name: string, keygen: Option<Bytes>, storage: Storage)
    ensures var reply := Step(bls, entries, Call(Generate(name, keygen), storage)).1;
            && (reply.PublicKeyIs? <==>
                  && name !in entries && keygen.Some? && Scalar.Valid(keygen.value)
                  && !storage.getFails && !storage.putFails)
            && (reply.Refused? <==> name in entries && !storage.getFails)
            && !reply.SignatureIs?
  {
    if keygen.Some? {
      EncodedKey(keygen.value);
    }
  }

  lemma EncodedKey(sk: Bytes)
    ensures DeserializeHex(Hex.Encode(sk)) == if Scalar.Valid(sk) then Some(sk) else None
  {
    Hex.RoundTrip(sk);
  }

  /** A successful import has stored the scalar it was sent, and reports its public key. */
  lemma ImportStores(bls: Bls, entries: Entries, name: string, sk: Bytes, storage: Storage)
    ensures var (after, reply) := Step(bls, entries, Call(Import(name, Some(Hex.Encode(sk))), storage));
            reply.PublicKeyIs? ==>
              && name in after && WellStored(after[name]) && Key(after, name) == sk
              && reply.hex == Hex.Encode(bls.pkOf(sk))
  {
    EncodedKey(sk);
  }

  /** A successful generate has stored the generated scalar, and reports its public key. */
  lemma GenerateStores(bls: Bls, entries: Entries, name: string, sk: Bytes, storage: Storage)
    ensures var (after, reply) := Step(bls, entries, Call(Generate(name, Some(sk)), storage));
            reply.PublicKeyIs? ==>
              && name in after && WellStored(after[name]) && Key(after, name) == sk
              && reply.hex == Hex.Encode(bls.pkOf(sk))
  {
    EncodedKey(sk);
  }

  /** loadKey's "" means exactly that the name is absent. */
  lemma LoadKeyEmptyIffAbsent(entries: Entries, name: string)
    requires Inv(entries)
    ensures LoadKey(entries, name) == "" <==> name !in entries
  {
    if name in entries {
      assert WellStored(entries[name]);
    }
  }

  /** An absent name is refused by every reader, unless storage fails to say that it is absent. */
  lemma AbsentNameRefused(bls: Bls, entries: Entries, name: string, message: string, dst: Option<string>,
                          storage: Storage)
    requires name !in entries
    ensures var refused := (entries, if storage.getFails then Failed else Refused);
            && Step(bls, entries, Call(ReadPublicKey(name), storage)) == refused
            && Step(bls, entries, Call(SignMessage(name, Some(message), dst), storage)) == refused
            && Step(bls, entries, Call(SignPossession(name, Some(message)), storage)) == refused
  {
  }

  /** On a stored name only the storage can make a public-key read fail. */
  lemma ReadNeverFailsOnKey(bls: Bls, entries: Entries, name: string, storage: Storage)
    requires Inv(entries) && name in entries
    ensures WellStored(entries[name])
    ensures Step(bls, entries, Call(ReadPublicKey(name), storage)).1 ==
            if storage.getFails then Failed else PublicKeyIs(Hex.Encode(bls.pkOf(Key(entries, name))))
  {
    LoadKeyEmptyIffAbsent(entries, name);
  }

  lemma DoSignOnKey(bls: Bls, entries: Entries, name: string, msgHex: string, dstHex: string, storage: Storage)
    requires Inv(entries) && name in entries
    ensures WellStored(entries[name])
    ensures var msg, dst := Hex.DecodeString(msgHex), Hex.DecodeString(dstHex);
            DoSign(bls, entries, name, msgHex, dstHex, storage) ==
            if storage.getFails || msg.None? || dst.None? then Failed
            else SignatureIs(Hex.Encode(bls.sigOf(Key(entries, name), msg.value, dst.value)))
  {
    LoadKeyEmptyIffAbsent(entries, name);
  }

  lemma DoSignWithTag(bls: Bls, entries: Entries, name: string, msgHex: string, dst: Bytes, storage: Storage)
    requires Inv(entries) && name in entries
    ensures WellStored(entries[name])
    ensures var msg := Hex.DecodeString(msgHex);
            DoSign(bls, entries, name, msgHex, Hex.Encode(dst), storage) ==
            if storage.getFails || msg.None? then Failed
            else SignatureIs(Hex.Encode(bls.sigOf(Key(entries, name), msg.value, dst)))
  {
    Hex.RoundTrip(dst);
    DoSignOnKey(bls, entries, name, msgHex, Hex.Encode(dst), storage);
  }

  /**
   On a stored name a signature comes back exactly when storage answers, the message is hex
   and so is the tag if one is given; without one the message tag is used.  It is the
   signature of the decoded message under the stored scalar.
   */
  lemma SignNeverFailsOnKey(bls: Bls, entries: Entries, name: string, msgHex: string, dst: Option<string>,
                            storage: Storage)
    requires Inv(entries) && name in entries
    ensures WellStored(entries[name])
    ensures var msg, tag := Hex.DecodeString(msgHex), TagOf(dst);
            Step(bls, entries, Call(SignMessage(name, Some(msgHex), dst), storage)).1 ==
            if storage.getFails || msg.None? || tag.None? then Failed
            else SignatureIs(Hex.Encode(bls.sigOf(Key(entries, name), msg.value, tag.value)))
  {
    if dst.None? {
      TagsAgree();
      DoSignWithTag(bls, entries, name, msgHex, DST_SIGN, storage);
    } else {
      DoSignOnKey(bls, entries, name, msgHex, dst.value, storage);
    }
  }

  /** The tag a sign request asks for, if it can be read. */
  function TagOf(dst: Option<string>): Option<Bytes> {
    match dst
    case None => Some(DST_SIGN)
    case Some(hex) => Hex.DecodeString(hex)
  }

  /** Likewise for a proof of possession, whose tag the plugin supplies. */
  lemma PossessionNeverFailsOnKey(bls: Bls, entries: Entries, name: string, msgHex: string, storage: Storage)
    requires Inv(entries) && name in entries
    ensures WellStored(entries[name])
    ensures var msg := Hex.DecodeString(msgHex);
            Step(bls, entries, Call(SignPossession(name, Some(msgHex)), storage)).1 ==
            if storage.getFails || msg.None? then Failed
            else SignatureIs(Hex.Encode(bls.sigOf(Key(entries, name), msg.value, DST_POP)))
  {
    TagsAgree();
    DoSignWithTag(bls, entries, name, msgHex, DST_POP, storage);
  }

  /**
   When there is a signature at all, for any request: it was a sign request with a message, on
   a stored name, message and tag are hex, and storage answered.
   */
  lemma SignedIff(bls: Bls, entries: Entries, call: Call)
    requires Inv(entries)
    ensures Step(bls, entries, call).1.SignatureIs? <==>
            && (call.req.SignMessage? || call.req.SignPossession?)
            && call.req.message.Some? && Hex.DecodeString(call.req.message.value).Some?
            && (call.req.SignMessage? && call.req.dst.Some? ==> Hex.DecodeString(call.req.dst.value).Some?)
            && call.req.name in entries && !call.storage.getFails
    ensures (call.req.SignMessage? || call.req.SignPossession?) && call.req.message.None? ==>
              Step(bls, entries, call) == (entries, Refused)
  {
    match call.req
    case SignMessage(name, Some(msgHex), dst) =>
      if name in entries {
        SignNeverFailsOnKey(bls, entries, name, msgHex, dst, call.storage);
      }
    case SignPossession(name, Some(msgHex)) =>
      if name in entries {
        PossessionNeverFailsOnKey(bls, entries, name, msgHex, call.storage);
      }
    case _ =>
  }

  // ----- any number of requests, one after the other

  function Exec(bls: Bls, entries: Entries, calls: seq<Call>): Entries {
    if calls == [] then entries
    else Step(bls, Exec(bls, entries, calls[..|calls| - 1]), calls[|calls| - 1]).0
  }

  /** The storage just before request i, and the reply to it. */
  function Before(bls: Bls, entries: Entries, calls: seq<Call>, i: nat): Entries
    requires i <= |calls|
  {
    Exec(bls, entries, calls[..i])
  }

  function ReplyTo(bls: Bls, entries: Entries, calls: seq<Call>, i: nat): Reply
    requires i < |calls|
  {
    Step(bls, Before(bls, entries, calls, i), calls[i]).1
  }

  lemma BeforeNext(bls: Bls, entries: Entries, calls: seq<Call>, i: nat)
    requires i < |calls|
    ensures Before(bls, entries, calls, i + 1) == Step(bls, Before(bls, entries, calls, i), calls[i]).0
  {
    assert calls[..i + 1][..i] == calls[..i];
  }

  lemma {:induction false} InvAlways(bls: Bls, entries: Entries, calls: seq<Call>, i: nat)
    requires Inv(entries) && i <= |calls|
    ensures Inv(Before(bls, entries, calls, i))
  {
    if i > 0 {
      InvAlways(bls, entries, calls, i - 1);
      BeforeNext(bls, entries, calls, i - 1);
      StepKeeps(bls, Before(bls, entries, calls, i - 1), calls[i - 1]);
    }
  }

  /** Nothing stored in a is missing from b or different there. */
  ghost predicate Kept(a: Entries, b: Entries) {
    forall name :: name in a ==> name in b && b[name] == a[name]
  }

  lemma KeptByOne(bls: Bls, entries: Entries, calls: seq<Call>, i: nat)
    requires Inv(entries) && i < |calls|
    ensures Kept(Before(bls, entries, calls, i), Before(bls, entries, calls, i + 1))
  {
    InvAlways(bls, entries, calls, i);
    BeforeNext(bls, entries, calls, i);
    StepKeeps(bls, Before(bls, entries, calls, i), calls[i]);
  }

  lemma {:induction false} KeptAlong(states: seq<Entries>, i: nat, j: nat)
    requires i <= j < |states|
    requires forall k :: 0 <= k < |states| - 1 ==> Kept(states[k], states[k + 1])
    ensures Kept(states[i], states[j])
    decreases j
  {
    if i < j {
      KeptAlong(states, i, j - 1);
      assert Kept(states[j - 1], states[j - 1 + 1]);
    }
  }

  /** Once stored, a name keeps its value through every later request. */
  lemma WriteOnce(bls: Bls, entries: Entries, calls: seq<Call>, i: nat, j: nat)
    requires Inv(entries) && i <= j <= |calls|
    ensures Kept(Before(bls, entries, calls, i), Before(bls, entries, calls, j))
  {
    var states := seq(|calls| + 1, k requires 0 <= k <= |calls| => Before(bls, entries, calls, k));
    forall k | 0 <= k < |states| - 1 ensures Kept(states[k], states[k + 1]) {
      KeptByOne(bls, entries, calls, k);
    }
    KeptAlong(states, i, j);
  }

  /** All public keys ever reported for one name, by any kind of request, are the same. */
  lemma PublicKeyNeverChanges(bls: Bls, entries: Entries, calls: seq<Call>, i: nat, j: nat)
    requires Inv(entries) && i <= j < |calls|
    requires calls[i].req.name == calls[j].req.name
    requires ReplyTo(bls, entries, calls, i).PublicKeyIs? && ReplyTo(bls, entries, calls, j).PublicKeyIs?
    ensures ReplyTo(bls, entries, calls, i) == ReplyTo(bls, entries, calls, j)
  {
    InvAlways(bls, entries, calls, i);
    InvAlways(bls, entries, calls, j);
    BeforeNext(bls, entries, calls, i);
    BeforeNext(bls, entries, calls, j);
    PublicKeyReply(bls, Before(bls, entries, calls, i), calls[i]);
    PublicKeyReply(bls, Before(bls, entries, calls, j), calls[j]);
    WriteOnce(bls, entries, calls, i + 1, j + 1);
  }
}
