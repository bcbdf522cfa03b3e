/** Session tokens: creation and the two verifiers. */
module Session {
  import opened Basics
  import opened Errors
  import opened Primitives
  import opened Names
  import opened Json
  import opened Tokens
  import opened Keys
  import opened Attestation

  const MAX_PAYLOAD_SIZE: nat := 4096
  const CLOCK_SKEW_SECONDS: real := 30.0

  datatype SessionPayload = SessionPayload(
    hId: string, hNm: string, hPath: Option<(string, string)>,
    aud: string, scp: seq<string>, exp: real, iat: real, jti: string)

  /** A verified or freshly issued session. */
  datatype Session = Session(
    handleId: string, handleName: string, audience: string, scopes: seq<string>,
    expiresAt: real, token: Token, path: Option<(string, string)>, sessionId: string)

  function SessionOf(p: SessionPayload, token: Token): Session {
    Session(p.hId, p.hNm, p.aud, p.scp, p.exp, token, p.hPath, p.jti)
  }

  // ----- Serialisation -----

  function PathJson(path: Option<(string, string)>): Option<Json> {
    match path case Some((h, s)) => Some(JStrings([h, s])) case None => None
  }

  function SessionToJson(p: SessionPayload): Json {
    JObj(With(map[HId := JStr(p.hId), HNm := JStr(p.hNm), Aud := JStr(p.aud), Scp := JStrings(p.scp),
                  Exp := JNum(p.exp), Iat := JNum(p.iat), Jti := JStr(p.jti)],
              HPath, PathJson(p.hPath)))
  }

  predicate NonEmpty(s: Option<string>) {
    s.Some? && s.value != ""
  }

  /** Absent, or exactly two strings. */
  function ReadPath(j: Json): Field<(string, string)> {
    match OptStrings(j, HPath)
    case Absent => Absent
    case Present(ss) => if |ss| == 2 then Present((ss[0], ss[1])) else IllTyped
    case IllTyped => IllTyped
  }

  function ReadSession(j: Json): Option<SessionPayload> {
    var hId, hNm, aud, jti := GetString(j, HId), GetString(j, HNm), GetString(j, Aud), GetString(j, Jti);
    var scp, exp, iat := GetStrings(j, Scp), GetNumber(j, Exp), GetNumber(j, Iat);
    if !(NonEmpty(hId) && NonEmpty(hNm) && NonEmpty(aud) && NonEmpty(jti)) then None
    else if scp.None? || exp.None? || iat.None? || exp.value <= iat.value then None
    else
      var path := ReadPath(j);
      if path.IllTyped? then None
      else Some(SessionPayload(hId.value, hNm.value, AsOption(path), aud.value, scp.value, exp.value, iat.value,
          jti.value))
  }

  datatype Parsed = Parsed(payload: SessionPayload, body: Body, signature: Signature)

  function ParseSessionToken(t: Token): Result<Parsed, Error> {
    match t
    case NotAToken => Err(MALFORMED_ERROR)
    case Token(body, signature) =>
      if body.size > MAX_PAYLOAD_SIZE || body.json.None? then Err(MALFORMED_ERROR)
      else if body.json.value.JNull? then Err(TypeError)
      else match ReadSession(body.json.value)
        case None => Err(MALFORMED_ERROR)
        case Some(p) => if signature.None? then Err(MALFORMED_ERROR) else Ok(Parsed(p, body, signature.value))
  }

  // ----- Creation -----

  datatype SessionOptions = SessionOptions(audience: string, scopes: seq<string>, ttl: real, sessionId: Option<string>)

  /** The constraints a sub-handle carries locally; a handle carries none. */
  datatype Constraints = Constraints(
    allowedAudiences: Option<seq<string>>, allowedScopes: Option<seq<string>>,
    maxSessionTtl: Option<real>, expiresAt: Option<real>)

  function Forbidden(scopes: seq<string>, allowed: seq<string>): seq<string> {
    if scopes == [] then []
    else (if scopes[0] in allowed then [] else [scopes[0]]) + Forbidden(scopes[1..], allowed)
  }

  function ValidateSessionOptions(c: Constraints, o: SessionOptions, clock: int): Option<Error> {
    if c.allowedAudiences.Some? && o.audience !in c.allowedAudiences.value
    then Some(AttestationError(AUDIENCE_NOT_PERMITTED, SESSION))
    else if c.allowedScopes.Some? && Forbidden(o.scopes, c.allowedScopes.value) != []
    then Some(AttestationError(SCOPE_EXCEEDED, SESSION))
    else if c.maxSessionTtl.Some? && o.ttl > c.maxSessionTtl.value
    then Some(AttestationError(TTL_EXCEEDED, SESSION))
    else if c.expiresAt.Some? && clock as real >= c.expiresAt.value
    then Some(AttestationError(EXPIRED, SESSION))
    else None
  }

  function Create(env: Env, handle: HandleValue, c: Constraints, o: SessionOptions, clock: int, uuid: string, size: nat)
    : Result<Session, Error>
  {
    if o.ttl.Floor as real != o.ttl || o.ttl <= 0.0 then Err(MALFORMED_ERROR)
    else
      var violation := if handle.path.Some? then ValidateSessionOptions(c, o, clock) else None;
      if violation.Some? then Err(violation.value)
      else
        var now := clock as real;
        var payload := SessionPayload(env.publicKey(handle.key), handle.name, handle.path, o.audience, o.scopes,
                                      now + o.ttl, now, GetOr(o.sessionId, uuid));
        Ok(SessionOf(payload, Sign(handle.key, Stringify(SessionToJson(payload), size))))
  }

  // ----- Mode 1: the verifier holds the identity -----

  function TimeError(now: int, iat: real, exp: real, level: Level): Option<Error> {
    if now as real > exp + CLOCK_SKEW_SECONDS then Some(AttestationError(EXPIRED, level))
    else if (now as real) < iat - CLOCK_SKEW_SECONDS then Some(AttestationError(NOT_YET_VALID, level))
    else None
  }

  /** The application's revocation store, when there is one. */
  type Revocations = Option<set<string>>

  predicate Revoked(rev: Revocations, jti: string) {
    rev.Some? && jti in rev.value
  }

  function VerifyStateless(env: Env, token: Token, rootKey: Bytes, audience: string, now: int, rev: Revocations)
    : Result<Session, Error>
  {
    match ParseSessionToken(token)
    case Err(e) => Err(e)
    case Ok(Parsed(p, body, signature)) =>
      if p.aud != audience then Err(AttestationError(AUDIENCE_NOT_PERMITTED, SESSION))
      else
        var late := TimeError(now, p.iat, p.exp, SESSION);
        if late.Some? then Err(late.value)
        else
          var handle := match p.hPath
            case Some((h, s)) => DeriveSubHandleAtOnce(env, rootKey, h, s)
            case None => DeriveHandle(env, rootKey, p.hNm);
          if handle.Err? then Err(handle.error)
          else
            var publicKey := env.publicKey(handle.value.key);
            if !Verify(env, signature, body, publicKey) then Err(AttestationError(BAD_SIGNATURE, SESSION))
            else if publicKey != p.hId then Err(AttestationError(SUBJECT_MISMATCH, SESSION))
            else if Revoked(rev, p.jti) then Err(AttestationError(REVOKED, SESSION))
            else Ok(SessionOf(p, token))
  }

  // ----- Mode 2: the verifier holds the root public key and a chain -----

  /** Whether this is a sub-handle session; the chain must have the matching length. */
  function VerifyChainStructure(p: SessionPayload, chain: seq<Token>): Result<bool, Error> {
    if |chain| != (if p.hPath.Some? then 2 else 1)
    then Err(AttestationError(CHAIN_INCOMPLETE, FORMAT))
    else Ok(p.hPath.Some?)
  }

  function VerifyRootAttestation(env: Env, tokenA: Token, rootPublicKey: string, now: int, rev: Revocations)
    : Result<Payload, Error>
  {
    match Decode(tokenA)
    case Err(e) => Err(e)
    case Ok(A) =>
      if !SignedBy(env, tokenA, rootPublicKey) then Err(AttestationError(BAD_SIGNATURE, ROOT))
      else
        var late := TimeError(now, A.iat, A.exp, ROOT);
        if late.Some? then Err(late.value)
        else if Revoked(rev, A.jti) then Err(AttestationError(REVOKED, ROOT))
        else Ok(A)
  }

  function VerifyHandleAttestation(env: Env, tokenB: Token, A: Payload, p: SessionPayload, now: int, rev: Revocations)
    : Result<Payload, Error>
    requires p.hPath.Some?
  {
    match Decode(tokenB)
    case Err(e) => Err(e)
    case Ok(B) =>
      if !env.isBase64url(A.subjectId) then Err(MALFORMED_ERROR)
      else if !SignedBy(env, tokenB, A.subjectId) then Err(AttestationError(BAD_SIGNATURE, HANDLE_ATTESTATION))
      else
        var late := TimeError(now, B.iat, B.exp, HANDLE_ATTESTATION);
        if late.Some? then Err(late.value)
        else if Revoked(rev, B.jti) then Err(AttestationError(REVOKED, HANDLE_ATTESTATION))
        else if B.subjectName != p.hPath.value.1 then Err(AttestationError(PATH_MISMATCH, HANDLE_ATTESTATION))
        else if A.subjectName != p.hPath.value.0 then Err(AttestationError(PATH_MISMATCH, ROOT))
        else if A.grant.subNamePatterns.Some? && !MatchNamePattern(B.subjectName, A.grant.subNamePatterns.value)
        then Err(AttestationError(NAME_NOT_PERMITTED, ROOT))
        else if p.hId != B.subjectId then Err(AttestationError(SUBJECT_MISMATCH, SUB_ATTESTATION))
        else if Forbidden(B.grant.scopes, A.grant.scopes) != [] then Err(AttestationError(SCOPE_EXCEEDED, ROOT))
        else if B.grant.maxSessionTtl > A.grant.maxSessionTtl then Err(AttestationError(TTL_EXCEEDED, ROOT))
        else Ok(B)
  }

  function Min(x: real, y: real): real {
    if x <= y then x else y
  }

  function Max(x: real, y: real): real {
    if x >= y then x else y
  }

  function VerifySessionAgainstGrant(p: SessionPayload, grant: Grant, earliestExp: real): Option<Error> {
    if Forbidden(p.scp, grant.scopes) != [] then Some(AttestationError(SCOPE_EXCEEDED, SESSION))
    else if grant.audiences.Some? && p.aud !in grant.audiences.value
    then Some(AttestationError(AUDIENCE_NOT_PERMITTED, SESSION))
    else if p.exp - p.iat > grant.maxSessionTtl then Some(AttestationError(TTL_EXCEEDED, SESSION))
    else if p.exp > earliestExp + CLOCK_SKEW_SECONDS then Some(AttestationError(SESSION_OUTLIVES_ATTESTATION, SESSION))
    else None
  }

  function VerifySessionSignature(env: Env, parsed: Parsed): Option<Error> {
    if env.isBase64url(parsed.payload.hId) && Verify(env, parsed.signature, parsed.body, parsed.payload.hId) then None
    else Some(AttestationError(BAD_SIGNATURE, SESSION))
  }

  /** The grant in force and the earliest expiry of the chain. */
  function VerifyChain(env: Env, p: SessionPayload, rootPublicKey: string, chain: seq<Token>, now: int,
                       rev: Revocations)
    : Result<(Grant, real), Error>
  {
    match VerifyChainStructure(p, chain)
    case Err(e) => Err(e)
    case Ok(isSubSession) =>
      match VerifyRootAttestation(env, chain[0], rootPublicKey, now, rev)
      case Err(e) => Err(e)
      case Ok(A) =>
        if isSubSession then
          match VerifyHandleAttestation(env, chain[1], A, p, now, rev)
          case Err(e) => Err(e)
          case Ok(B) => Ok((B.grant, Min(A.exp, B.exp)))
        else if !env.isBase64url(A.subjectId) then Err(MALFORMED_ERROR)
        else if p.hId != A.subjectId then Err(AttestationError(SUBJECT_MISMATCH, ROOT))
        else Ok((A.grant, A.exp))
  }

  /** Everything after parsing. */
  function VerifyParsed(env: Env, token: Token, parsed: Parsed, rootPublicKey: string, chain: seq<Token>,
                        audience: string, now: int, rev: Revocations): Result<Session, Error>
  {
    var p := parsed.payload;
    if p.aud != audience then Err(AttestationError(AUDIENCE_NOT_PERMITTED, SESSION))
    else
      var late := TimeError(now, p.iat, p.exp, SESSION);
      if late.Some? then Err(late.value)
      else match VerifyChain(env, p, rootPublicKey, chain, now, rev)
        case Err(e) => Err(e)
        case Ok((grant, earliestExp)) =>
          var excess := VerifySessionAgainstGrant(p, grant, earliestExp);
          if excess.Some? then Err(excess.value)
          else
            var forged := VerifySessionSignature(env, parsed);
            if forged.Some? then Err(forged.value)
            else if Revoked(rev, p.jti) then Err(AttestationError(REVOKED, SESSION))
            else Ok(SessionOf(p, token))
  }

  function VerifyAttested(env: Env, token: Token, rootPublicKey: string, chain: seq<Token>, audience: string,
                          now: int, rev: Revocations): Result<Session, Error>
  {
    match ParseSessionToken(token)
    case Err(e) => Err(e)
    case Ok(parsed) => VerifyParsed(env, token, parsed, rootPublicKey, chain, audience, now, rev)
  }
}
