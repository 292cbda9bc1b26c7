/**
 internal/enclaveproto and the connection handler of enclave/main.go: what the two sides of
 the vsock link write, read and answer.  A byte-slice field travels as base64 text, and an
 empty one is omitted from the JSON object.
 */
module EnclaveProto {
  import opened Common
  import opened BlsUtil
  import Base64

  const SIGN: string := "sign"
  const SIGN_POP: string := "sign_pop"
  const PUBLIC_KEY: string := "public_key"

  /** enclave/main.go's own copies of the tags. */
  const ENCLAVE_DST_SIGN: Bytes := Ascii("BLS_SIG_BLS12381G2_XMD:SHA-256_SSWU_RO_POP_")
  const ENCLAVE_DST_POP: Bytes := Ascii("BLS_POP_BLS12381G2_XMD:SHA-256_SSWU_RO_POP_")

  /** They are those every other backend signs with. */
  lemma TagsAgree()
    ensures ENCLAVE_DST_SIGN == DST_SIGN && ENCLAVE_DST_POP == DST_POP
  {
  }

  datatype Request = Request(kind: string, message: Bytes)

  datatype Response = Response(result: Bytes, error: string)

  /** The JSON objects; None is an omitted field. */
  datatype WireRequest = WireRequest(kind: string, message: Option<string>)

  datatype WireResponse = WireResponse(result: Option<string>, error: Option<string>)

  function BytesField(b: Bytes): Option<string> {
    if b == [] then None else Some(Base64.Encode(b))
  }

  function ReadBytesField(f: Option<string>): Option<Bytes> {
    if f.None? then Some([]) else Base64.Decode(f.value)
  }

  function StringField(s: string): Option<string> {
    if s == "" then None else Some(s)
  }

  function ReadStringField(f: Option<string>): string {
    if f.None? then "" else f.value
  }

  function EncodeRequest(q: Request): WireRequest {
    WireRequest(q.kind, BytesField(q.message))
  }

  function DecodeRequest(w: WireRequest): Option<Request> {
    match ReadBytesField(w.message)
    case None => None
    case Some(m) => Some(Request(w.kind, m))
  }

  function EncodeResponse(p: Response): WireResponse {
    WireResponse(BytesField(p.result), StringField(p.error))
  }

  function DecodeResponse(w: WireResponse): Option<Response> {
    match ReadBytesField(w.result)
    case None => None
    case Some(r) => Some(Response(r, ReadStringField(w.error)))
  }

  /** What is sent is what is read, for every message: omitting the empty one included. */
  lemma WireRoundTrip(q: Request, p: Response)
    ensures DecodeRequest(EncodeRequest(q)) == Some(q)
    ensures DecodeResponse(EncodeResponse(p)) == Some(p)
  {
    Base64.RoundTrip(q.message);
    Base64.RoundTrip(p.result);
  }

  /** handleConn: None is a connection on which no request could be decoded. */
  function HandleConn(bls: Bls, sk: Bytes, pk: Bytes, incoming: Option<WireRequest>): WireResponse {
    var decoded := if incoming.None? then None else DecodeRequest(incoming.value);
    match decoded
    case None => EncodeResponse(Response([], "decode"))
    case Some(req) =>
      if req.kind == PUBLIC_KEY then EncodeResponse(Response(pk, ""))
      else if req.kind == SIGN then EncodeResponse(Response(bls.sigOf(sk, req.message, ENCLAVE_DST_SIGN), ""))
      else if req.kind == SIGN_POP then EncodeResponse(Response(bls.sigOf(sk, req.message, ENCLAVE_DST_POP), ""))
      else EncodeResponse(Response([], "unknown request type"))
  }

  /** Backend.send: a reply that does not decode, or carries an error, is an error. */
  function ReadReply(w: WireResponse): Option<Bytes> {
    match DecodeResponse(w)
    case None => None
    case Some(p) => if p.error != "" then None else Some(p.result)
  }

  /** What a host reads back when the enclave answers a request of each kind, or none that decodes. */
  lemma Answered(bls: Bls, sk: Bytes, pk: Bytes, q: Request)
    ensures ReadReply(HandleConn(bls, sk, pk, Some(EncodeRequest(q)))) ==
            if q.kind == PUBLIC_KEY then Some(pk)
            else if q.kind == SIGN then Some(bls.sigOf(sk, q.message, DST_SIGN))
            else if q.kind == SIGN_POP then Some(bls.sigOf(sk, q.message, DST_POP))
            else None
    ensures ReadReply(HandleConn(bls, sk, pk, None)) == None
  {
    var result := if q.kind == PUBLIC_KEY then pk
                  else if q.kind == SIGN then bls.sigOf(sk, q.message, DST_SIGN)
                  else bls.sigOf(sk, q.message, DST_POP);
    TagsAgree();
    WireRoundTrip(q, Response(result, ""));
  }
}
