/** Issuing by an identity or a handle: the subject key is always derived by the issuer itself. */
module Issuers {
  import opened Basics
  import opened Errors
  import opened Primitives
  import opened Names
  import opened DerivationPaths
  import opened Tokens
  import opened Keys
  import opened Attestation

  function AttestHandle(env: Env, rootKey: Bytes, name: string, grant: Grant, opts: IssueOpts, amb: Ambient)
    : Result<Attested, Error>
  {
    match DeriveHandle(env, rootKey, name)
    case Err(e) => Err(e)
    case Ok(handle) => Issue(env, rootKey, env.publicKey(handle.key), handle.name, grant, opts, amb)
  }

  function AttestSubHandle(env: Env, handle: HandleValue, subName: string, grant: Grant, opts: IssueOpts, amb: Ambient)
    : Result<Attested, Error>
  {
    match DeriveSubHandle(env, handle, subName)
    case Err(e) => Err(e)
    case Ok(sub) => Issue(env, handle.key, env.publicKey(sub.key), sub.name, grant, opts, amb)
  }

  /** A handle is attested exactly for a name that normalizes, under a grant and options that can be issued. */
  lemma AttestHandleExactly(env: Env, rootKey: Bytes, name: string, grant: Grant, opts: IssueOpts, amb: Ambient)
    requires EnvOk(env)
    ensures var r := AttestHandle(env, rootKey, name, grant, opts, amb);
            && (r.Ok? <==> NamePattern(env.canon(name)) && Issuable(grant, opts, amb))
            && (r.Err? ==> r.error == MALFORMED_ERROR)
            && (r.Ok? ==> r.value.payload.subjectName == env.canon(name)
                          && r.value.payload.subjectId == env.publicKey(Derive(rootKey, HandleKey(env.canon(name)))))
  {
    var handle := DeriveHandle(env, rootKey, name);
    if handle.Ok? {
      IssueExactly(env, rootKey, env.publicKey(handle.value.key), handle.value.name, grant, opts, amb);
    }
  }

  /** So is a sub-handle, by a handle and not by a sub-handle. */
  lemma AttestSubHandleExactly(env: Env, handle: HandleValue, subName: string, grant: Grant, opts: IssueOpts,
                               amb: Ambient)
    requires EnvOk(env) && NamePattern(handle.name)
    ensures var r, s := AttestSubHandle(env, handle, subName, grant, opts, amb), env.canon(subName);
            && (r.Ok? <==> handle.path.None? && NamePattern(s) && Issuable(grant, opts, amb))
            && (r.Err? ==> r.error == if handle.path.Some? then AttestationError(MAX_DEPTH_EXCEEDED, FORMAT)
                                      else MALFORMED_ERROR)
            && (r.Ok? ==> r.value.payload.subjectName == s
                          && r.value.payload.subjectId
                             == env.publicKey(Derive(handle.key, SubHandleKey(handle.name, s))))
  {
    var sub := DeriveSubHandle(env, handle, subName);
    DerivedFromHandle(env, handle, subName);
    if sub.Ok? {
      IssueExactly(env, handle.key, env.publicKey(sub.value.key), sub.value.name, grant, opts, amb);
    }
  }
}
