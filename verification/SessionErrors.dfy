/** What errors mean: every one that creation or a verifier reports is true of the input. */
module SessionErrors {
  import opened Basics
  import opened Errors
  import opened Primitives
  import opened Tokens
  import opened Keys
  import opened Attestation
  import opened Session
  import opened SessionTheorems

  ghost predicate TooLate(now: int, exp: real) {
    now as real > exp + CLOCK_SKEW_SECONDS
  }

  ghost predicate TooEarly(now: int, iat: real) {
    (now as real) < iat - CLOCK_SKEW_SECONDS
  }

  ghost predicate TrueOfLink(env: Env, t: Token, signer: string, now: int, rev: Revocations, p: Payload, code: Code) {
    match code
    case BAD_SIGNATURE => !SignedBy(env, t, signer)
    case EXPIRED => TooLate(now, p.exp)
    case NOT_YET_VALID => TooEarly(now, p.iat)
    case REVOKED => Revoked(rev, p.jti)
    case _ => false
  }

  /** The root stage blames the root level, or passes on why the token does not decode. */
  lemma RootErrorIsTrue(env: Env, tokenA: Token, rootPublicKey: string, now: int, rev: Revocations)
    ensures var r := VerifyRootAttestation(env, tokenA, rootPublicKey, now, rev);
            r.Err? ==>
              match Decode(tokenA)
              case Err(e) => r.error == e
              case Ok(A) => r.error.AttestationError? && r.error.level == ROOT
                            && TrueOfLink(env, tokenA, rootPublicKey, now, rev, A, r.error.code)
  {
  }

  ghost predicate TrueOfHandleStage(env: Env, tokenB: Token, A: Payload, p: SessionPayload, now: int, rev: Revocations,
                                    B: Payload, code: Code, level: Level)
    requires p.hPath.Some?
  {
    match level
    case HANDLE_ATTESTATION =>
      if code == PATH_MISMATCH then B.subjectName != p.hPath.value.1
      else TrueOfLink(env, tokenB, A.subjectId, now, rev, B, code)
    case ROOT =>
      (match code
       case PATH_MISMATCH => A.subjectName != p.hPath.value.0
       case NAME_NOT_PERMITTED => !PatternsPermit(A.grant, B.subjectName)
       case SCOPE_EXCEEDED => !(Elements(B.grant.scopes) <= Elements(A.grant.scopes))
       case TTL_EXCEEDED => B.grant.maxSessionTtl > A.grant.maxSessionTtl
       case _ => false)
    case SUB_ATTESTATION => code == SUBJECT_MISMATCH && p.hId != B.subjectId
    case FORMAT => code == MALFORMED && !env.isBase64url(A.subjectId)
    case SESSION => false
  }

  /** The second stage blames the handle's attestation, the root's grant, or the subject key. */
  lemma HandleErrorIsTrue(env: Env, tokenB: Token, A: Payload, p: SessionPayload, now: int, rev: Revocations)
    requires p.hPath.Some?
    ensures var r := VerifyHandleAttestation(env, tokenB, A, p, now, rev);
            r.Err? ==>
              match Decode(tokenB)
              case Err(e) => r.error == e
              case Ok(B) => r.error.AttestationError?
                            && TrueOfHandleStage(env, tokenB, A, p, now, rev, B, r.error.code, r.error.level)
  {
    if Decode(tokenB).Ok? {
      var B := Decode(tokenB).value;
      NothingForbidden(B.grant.scopes, A.grant.scopes);
      if A.grant.subNamePatterns.Some? {
        MatchMeansPermitted(B.subjectName, A.grant.subNamePatterns.value);
      }
    }
  }

  /** The last link decodes; its grant is the one in force. */
  ghost predicate InForce(chain: seq<Token>, grant: Grant) {
    chain != [] && Decode(chain[|chain| - 1]).Ok? && Decode(chain[|chain| - 1]).value.grant == grant
  }

  ghost predicate EndsBefore(chain: seq<Token>, exp: real) {
    exists i :: 0 <= i < |chain| && Decode(chain[i]).Ok? && exp > Decode(chain[i]).value.exp + CLOCK_SKEW_SECONDS
  }

  ghost predicate TrueOfSession(env: Env, parsed: Parsed, chain: seq<Token>, audience: string, now: int,
                                rev: Revocations, code: Code)
  {
    var p := parsed.payload;
    match code
    case EXPIRED => TooLate(now, p.exp)
    case NOT_YET_VALID => TooEarly(now, p.iat)
    case AUDIENCE_NOT_PERMITTED =>
      p.aud != audience || exists g :: InForce(chain, g) && g.audiences.Some? && p.aud !in g.audiences.value
    case SCOPE_EXCEEDED => exists g :: InForce(chain, g) && !(Elements(p.scp) <= Elements(g.scopes))
    case TTL_EXCEEDED => exists g :: InForce(chain, g) && p.exp - p.iat > g.maxSessionTtl
    case SESSION_OUTLIVES_ATTESTATION => EndsBefore(chain, p.exp)
    case BAD_SIGNATURE => !(env.isBase64url(p.hId) && Verify(env, parsed.signature, parsed.body, p.hId))
    case REVOKED => Revoked(rev, p.jti)
    case _ => false
  }

  lemma DecodeErrorKinds(t: Token)
    ensures Decode(t).Err? ==> Decode(t).error in {TypeError, MALFORMED_ERROR}
  {
  }

  /** A chain that cannot be read: of the wrong length, with a link that does not decode, or whose subject is no key. */
  ghost predicate TrueOfShape(env: Env, p: SessionPayload, chain: seq<Token>, e: Error) {
    if e == AttestationError(CHAIN_INCOMPLETE, FORMAT) then |chain| != (if p.hPath.Some? then 2 else 1)
    else
      && e in {TypeError, MALFORMED_ERROR}
      && ((exists i :: 0 <= i < |chain| && Decode(chain[i]) == Err(e))
          || (e == MALFORMED_ERROR && chain != [] && Decode(chain[0]).Ok?
              && !env.isBase64url(Decode(chain[0]).value.subjectId)))
  }

  ghost predicate TrueOfRoot(env: Env, p: SessionPayload, rootPublicKey: string, chain: seq<Token>, now: int,
                             rev: Revocations, code: Code)
  {
    && chain != [] && Decode(chain[0]).Ok?
    && (|| TrueOfLink(env, chain[0], rootPublicKey, now, rev, Decode(chain[0]).value, code)
        || (p.hPath.None? && code == SUBJECT_MISMATCH && p.hId != Decode(chain[0]).value.subjectId))
  }

  ghost predicate TrueOfSecond(env: Env, p: SessionPayload, chain: seq<Token>, now: int, rev: Revocations, code: Code,
                               level: Level)
  {
    && p.hPath.Some? && |chain| == 2 && Decode(chain[0]).Ok? && Decode(chain[1]).Ok?
    && TrueOfHandleStage(env, chain[1], Decode(chain[0]).value, p, now, rev, Decode(chain[1]).value, code, level)
  }

  /** What may be reported of a chain. */
  ghost predicate TrueOfChain(env: Env, p: SessionPayload, rootPublicKey: string, chain: seq<Token>, now: int,
                              rev: Revocations, e: Error)
  {
    if e.TypeError? || e.level == FORMAT then TrueOfShape(env, p, chain, e)
    else
      && e.level != SESSION
      && (|| (e.level == ROOT && TrueOfRoot(env, p, rootPublicKey, chain, now, rev, e.code))
          || TrueOfSecond(env, p, chain, now, rev, e.code, e.level))
  }

  /** The chain stage yields the grant of the last link and the earliest expiry, or what is wrong with the chain. */
  lemma ChainStage(env: Env, p: SessionPayload, rootPublicKey: string, chain: seq<Token>, now: int, rev: Revocations)
    ensures match VerifyChain(env, p, rootPublicKey, chain, now, rev)
            case Ok((grant, end)) => InForce(chain, grant)
                && (p.exp > end + CLOCK_SKEW_SECONDS ==> EndsBefore(chain, p.exp))
            case Err(e) => TrueOfChain(env, p, rootPublicKey, chain, now, rev, e)
  {
    if |chain| == (if p.hPath.Some? then 2 else 1) {
      RootErrorIsTrue(env, chain[0], rootPublicKey, now, rev);
      DecodeErrorKinds(chain[0]);
      var A := VerifyRootAttestation(env, chain[0], rootPublicKey, now, rev);
      if A.Ok? {
        RootAttestationExactly(env, chain[0], rootPublicKey, now, rev, A.value);
        if p.hPath.Some? {
          HandleErrorIsTrue(env, chain[1], A.value, p, now, rev);
          DecodeErrorKinds(chain[1]);
          var B := VerifyHandleAttestation(env, chain[1], A.value, p, now, rev);
          if B.Ok? {
            HandleAttestationExactly(env, chain[1], A.value, p, now, rev, B.value);
          }
        }
      }
    }
  }

  /** An error that blames the session is true of the session, and any other is true of the chain. */
  lemma SessionErrorIsTrue(env: Env, token: Token, parsed: Parsed, rootPublicKey: string, chain: seq<Token>,
                           audience: string, now: int, rev: Revocations)
    requires ParseSessionToken(token) == Ok(parsed)
    ensures var r := VerifyAttested(env, token, rootPublicKey, chain, audience, now, rev);
            r.Err? ==>
              if r.error.AttestationError? && r.error.level == SESSION
              then TrueOfSession(env, parsed, chain, audience, now, rev, r.error.code)
              else TrueOfChain(env, parsed.payload, rootPublicKey, chain, now, rev, r.error)
  {
    ParsedErrorIsTrue(env, token, parsed, rootPublicKey, chain, audience, now, rev);
  }

  lemma ParsedErrorIsTrue(env: Env, token: Token, parsed: Parsed, rootPublicKey: string, chain: seq<Token>,
                          audience: string, now: int, rev: Revocations)
    ensures var r := VerifyParsed(env, token, parsed, rootPublicKey, chain, audience, now, rev);
            r.Err? ==>
              if r.error.AttestationError? && r.error.level == SESSION
              then TrueOfSession(env, parsed, chain, audience, now, rev, r.error.code)
              else TrueOfChain(env, parsed.payload, rootPublicKey, chain, now, rev, r.error)
  {
    var p := parsed.payload;
    ChainStage(env, p, rootPublicKey, chain, now, rev);
    match VerifyChain(env, p, rootPublicKey, chain, now, rev)
    case Ok((grant, end)) => GrantErrorIsTrue(env, parsed, chain, audience, now, rev, grant, end);
    case Err(_) =>
  }

  /** The grant stage blames the session for what exceeds the grant in force or outlives the chain. */
  lemma GrantErrorIsTrue(env: Env, parsed: Parsed, chain: seq<Token>, audience: string, now: int, rev: Revocations,
                         grant: Grant, end: real)
    requires InForce(chain, grant)
    requires parsed.payload.exp > end + CLOCK_SKEW_SECONDS ==> EndsBefore(chain, parsed.payload.exp)
    ensures var e := VerifySessionAgainstGrant(parsed.payload, grant, end);
            e.Some? ==> e.value.AttestationError? && e.value.level == SESSION
                        && TrueOfSession(env, parsed, chain, audience, now, rev, e.value.code)
  {
    NothingForbidden(parsed.payload.scp, grant.scopes);
  }

  // ----- The verifier that holds the identity, and creation -----

  /** What the identity verifier may report of a session that parses. */
  ghost predicate TrueOfClaim(env: Env, token: Token, p: SessionPayload, rootKey: Bytes, audience: string, now: int,
                              rev: Revocations, e: Error)
  {
    var key := ClaimedKey(env, rootKey, p);
    if e == MALFORMED_ERROR then key.None?
    else
      && e.AttestationError? && e.level == SESSION
      && match e.code
         case AUDIENCE_NOT_PERMITTED => p.aud != audience
         case EXPIRED => TooLate(now, p.exp)
         case NOT_YET_VALID => TooEarly(now, p.iat)
         case BAD_SIGNATURE => key.Some? && !SignedBy(env, token, env.publicKey(key.value))
         case SUBJECT_MISMATCH => key.Some? && p.hId != env.publicKey(key.value)
         case REVOKED => Revoked(rev, p.jti)
         case _ => false
  }

  /** Every error of the identity verifier is true of the session and of the key it claims. */
  lemma StatelessErrorIsTrue(env: Env, token: Token, parsed: Parsed, rootKey: Bytes, audience: string, now: int,
                             rev: Revocations)
    requires EnvOk(env) && ParseSessionToken(token) == Ok(parsed)
    ensures var r := VerifyStateless(env, token, rootKey, audience, now, rev);
            r.Err? ==> TrueOfClaim(env, token, parsed.payload, rootKey, audience, now, rev, r.error)
  {
    ClaimedKeyDerived(env, rootKey, parsed.payload);
  }

  /** Every error of creation names a ttl that is no positive whole number, or a constraint that is exceeded. */
  lemma CreateErrorIsTrue(env: Env, handle: HandleValue, c: Constraints, o: SessionOptions, clock: int, uuid: string,
                          size: nat)
    ensures var r := Create(env, handle, c, o, clock, uuid, size);
            r.Err? ==>
              if r.error == MALFORMED_ERROR then o.ttl <= 0.0 || o.ttl.Floor as real != o.ttl
              else
                && handle.path.Some? && r.error.AttestationError? && r.error.level == SESSION
                && match r.error.code
                   case AUDIENCE_NOT_PERMITTED =>
                     c.allowedAudiences.Some? && o.audience !in c.allowedAudiences.value
                   case SCOPE_EXCEEDED =>
                     c.allowedScopes.Some? && !(Elements(o.scopes) <= Elements(c.allowedScopes.value))
                   case TTL_EXCEEDED => c.maxSessionTtl.Some? && o.ttl > c.maxSessionTtl.value
                   case EXPIRED => c.expiresAt.Some? && clock as real >= c.expiresAt.value
                   case _ => false
  {
    if c.allowedScopes.Some? {
      NothingForbidden(o.scopes, c.allowedScopes.value);
    }
  }
}
