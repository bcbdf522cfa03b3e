/** Identity and Handle objects: capabilities over a private-key buffer that dispose() zeroes. */
module Entities {
  import opened Basics
  import opened Errors
  import opened Primitives
  import opened Names
  import opened Tokens
  import opened Keys
  import opened Attestation
  import opened Issuers

  const DISPOSED_ERROR := AttestationError(DISPOSED, FORMAT)

  class Identity {
    var privateKey: array<Byte>
    const publicKey: string
    var disposed: bool
    /** The key the object was made with, and the buffer that held it. */
    ghost const secret: Bytes
    ghost const buffer: array<Byte>

    ghost predicate Valid(env: Env)
      reads this, buffer
    {
      && publicKey == env.publicKey(secret)
      && (!disposed ==> privateKey == buffer && buffer[..] == secret)
      && (disposed ==> IsZero(buffer[..]) && privateKey.Length == 0)
    }

    constructor (env: Env, key: Bytes)
      ensures Valid(env) && fresh(buffer) && secret == key && !disposed
    {
      var copy := Alloc(key);
      privateKey, buffer, secret, disposed := copy, copy, key, false;
      publicKey := env.publicKey(key);
    }

    /** The seed is only read. */
    static method FromSeed(env: Env, seed: array<Byte>) returns (r: Result<Identity, Error>)
      ensures if seed.Length != 64 then r == Err(MALFORMED_ERROR)
              else r.Ok? && fresh(r.value) && fresh(r.value.buffer) && r.value.Valid(env) && !r.value.disposed
                   && r.value.secret == DeriveRootKey(seed[..])
    {
      if seed.Length != 64 { return Err(MALFORMED_ERROR); }
      var identity := new Identity(env, DeriveRootKey(seed[..]));
      return Ok(identity);
    }

    method DeriveHandle(env: Env, name: string) returns (r: Result<HandleValue, Error>)
      requires Valid(env)
      ensures r == if disposed then Err(DISPOSED_ERROR) else Keys.DeriveHandle(env, secret, name)
    {
      if disposed { return Err(DISPOSED_ERROR); }
      var n := NormalizeName(env.canon, name);
      if n.Err? { return Err(n.error); }
      var key := DeriveHandleKey(env, privateKey[..], n.value);
      if key.Err? { return Err(key.error); }
      return Ok(HandleValue(key.value, n.value, None));
    }

    method AttestHandle(env: Env, name: string, grant: Grant, opts: IssueOpts, amb: Ambient)
      returns (r: Result<Attested, Error>)
      requires Valid(env)
      ensures r == if disposed then Err(DISPOSED_ERROR) else Issuers.AttestHandle(env, secret, name, grant, opts, amb)
    {
      if disposed { return Err(DISPOSED_ERROR); }
      var handle := DeriveHandle(env, name);
      if handle.Err? { return Err(handle.error); }
      r := Issue(env, privateKey[..], env.publicKey(handle.value.key), handle.value.name, grant, opts, amb);
    }

    /** Zeroes the key and keeps the public key; a second call does nothing. */
    method Dispose(ghost env: Env)
      requires Valid(env)
      modifies this, privateKey
      ensures Valid(env) && disposed
    {
      if disposed { return; }
      for k := 0 to privateKey.Length
        invariant privateKey == buffer && !disposed
        invariant forall j :: 0 <= j < k ==> buffer[j] == Lit(0)
      {
        privateKey[k] := Lit(0);
      }
      privateKey := new Byte[0];
      disposed := true;
    }
  }

  class Handle {
    const privateKey: array<Byte>
    const publicKey: string
    const name: string
    const path: Option<(string, string)>
    var disposed: bool
    ghost const secret: Bytes

    ghost predicate Valid(env: Env)
      reads this, privateKey
    {
      && publicKey == env.publicKey(secret)
      && (if disposed then IsZero(privateKey[..]) else privateKey[..] == secret)
    }

    ghost function Value(): HandleValue {
      HandleValue(secret, name, path)
    }

    /** The key is copied on input. */
    constructor (env: Env, h: HandleValue)
      ensures Valid(env) && fresh(privateKey) && Value() == h && !disposed
    {
      var copy := Alloc(h.key);
      privateKey := copy;
      publicKey := env.publicKey(h.key);
      name, path, secret, disposed := h.name, h.path, h.key, false;
    }

    method DeriveSubHandle(env: Env, subName: string) returns (r: Result<HandleValue, Error>)
      requires Valid(env)
      ensures r == if path.Some? then Err(AttestationError(MAX_DEPTH_EXCEEDED, FORMAT))
                   else if disposed then Err(DISPOSED_ERROR)
                   else Keys.DeriveSubHandle(env, Value(), subName)
    {
      if path.Some? { return Err(AttestationError(MAX_DEPTH_EXCEEDED, FORMAT)); }
      if disposed { return Err(DISPOSED_ERROR); }
      r := Keys.DeriveSubHandle(env, HandleValue(privateKey[..], name, None), subName);
    }

    method AttestSubHandle(env: Env, subName: string, grant: Grant, opts: IssueOpts, amb: Ambient)
      returns (r: Result<Attested, Error>)
      requires Valid(env)
      ensures r == if disposed then Err(DISPOSED_ERROR)
                   else Issuers.AttestSubHandle(env, Value(), subName, grant, opts, amb)
    {
      if disposed { return Err(DISPOSED_ERROR); }
      var sub := DeriveSubHandle(env, subName);
      if sub.Err? { return Err(sub.error); }
      r := Issue(env, privateKey[..], env.publicKey(sub.value.key), sub.value.name, grant, opts, amb);
    }

    method SignBody(env: Env, body: Body) returns (r: Result<Token, Error>)
      requires Valid(env)
      ensures r == if disposed then Err(DISPOSED_ERROR) else Ok(Tokens.Sign(secret, body))
    {
      if disposed { return Err(DISPOSED_ERROR); }
      return Ok(Tokens.Sign(privateKey[..], body));
    }

    method Dispose(ghost env: Env)
      requires Valid(env)
      modifies this, privateKey
      ensures Valid(env) && disposed
    {
      if disposed { return; }
      for k := 0 to privateKey.Length
        invariant !disposed && forall j :: 0 <= j < k ==> privateKey[j] == Lit(0)
      {
        privateKey[k] := Lit(0);
      }
      disposed := true;
    }
  }
}
