/**
 Signed tokens: base64url(payload) "." base64url(signature). JSON and base64url
 are inverse pairs, signatures are ideal Ed25519 (RFC 8032), and a public key
 is represented by its base64url text, which is what payloads carry.
 */
module Tokens {
  import opened Basics
  import opened Primitives
  import opened Names
  import opened Json

  /** Payload bytes: the JSON they parse to, if any; which of the spellings of that JSON; their length. */
  datatype Body = Body(json: Option<Json>, spelling: nat, size: nat)

  datatype Signature =
    | Signed(key: Bytes, body: Body)
    | NotSigned  // bytes that no signing operation produced, of whatever length

  datatype Token =
    | NotAToken  // not a string of two base64url parts whose first part decodes
    | Token(body: Body, signature: Option<Signature>)

  /** What the protocol takes from its environment. */
  datatype Env = Env(canon: string -> string, publicKey: Bytes -> string, isBase64url: string -> bool)

  ghost predicate EnvOk(env: Env) {
    && CanonOk(env.canon)
    && (forall k: Bytes :: env.publicKey(k) != "" && env.isBase64url(env.publicKey(k)))
    && (forall k: Bytes, k': Bytes :: env.publicKey(k) == env.publicKey(k') ==> k == k')
  }

  /** JSON.stringify and TextEncoder; the length of the text is an input. */
  function Stringify(j: Json, size: nat): Body {
    Body(Some(j), 0, size)
  }

  function Sign(key: Bytes, body: Body): Token {
    Token(body, Some(Signed(key, body)))
  }

  predicate Verify(env: Env, signature: Signature, body: Body, publicKey: string) {
    signature.Signed? && signature.body == body && env.publicKey(signature.key) == publicKey
  }

  /** The holder of the private key of this public key signed exactly these bytes. */
  predicate SignedBy(env: Env, t: Token, publicKey: string) {
    t.Token? && t.signature.Some? && Verify(env, t.signature.value, t.body, publicKey)
  }
}
