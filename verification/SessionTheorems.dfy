/** What an accepted session means, when honest sessions are accepted, and how the two verifiers relate. */
module SessionTheorems {
  import opened Basics
  import opened Errors
  import opened Primitives
  import opened Names
  import opened DerivationPaths
  import opened Json
  import opened Tokens
  import opened Keys
  import opened Attestation
  import opened Issuers
  import opened Session

  // ----- Building blocks -----

  lemma {:induction false} NothingForbidden(scopes: seq<string>, allowed: seq<string>)
    ensures Forbidden(scopes, allowed) == [] <==> Elements(scopes) <= Elements(allowed)
  {
    if scopes != [] {
      NothingForbidden(scopes[1..], allowed);
      assert scopes == [scopes[0]] + scopes[1..];
      assert Elements(scopes) == {scopes[0]} + Elements(scopes[1..]);
    }
  }

  predicate SessionWellFormed(p: SessionPayload) {
    p.hId != "" && p.hNm != "" && p.aud != "" && p.jti != "" && p.iat < p.exp
  }

  /** Every field of a session has the type and the value that the payload gives it; other fields do not matter. */
  ghost predicate DescribesSession(j: Json, p: SessionPayload) {
    && Get(j, HId) == Some(JStr(p.hId)) && Get(j, HNm) == Some(JStr(p.hNm))
    && Get(j, Aud) == Some(JStr(p.aud)) && Get(j, Jti) == Some(JStr(p.jti))
    && Get(j, Scp) == Some(JStrings(p.scp)) && Get(j, HPath) == PathJson(p.hPath)
    && Get(j, Exp) == Some(JNum(p.exp)) && Get(j, Iat) == Some(JNum(p.iat))
  }

  lemma PathExactly(j: Json, path: Option<(string, string)>)
    ensures !ReadPath(j).IllTyped? && AsOption(ReadPath(j)) == path <==> Get(j, HPath) == PathJson(path)
  {
    var strings := match path case Some((h, s)) => Some([h, s]) case None => None;
    OptStringsExactly(j, HPath, strings);
    var read := OptStrings(j, HPath);
    if read.Present? && |read.value| == 2 {
      assert read.value == [read.value[0], read.value[1]];
    }
  }

  /** A JSON value reads as a session exactly when it describes a well-formed one. */
  lemma ReadSessionExactly(j: Json, p: SessionPayload)
    ensures ReadSession(j) == Some(p)
       <==> DescribesSession(j, p) && p.iat < p.exp && "" !in [p.hId, p.hNm, p.aud, p.jti]
  {
    PathExactly(j, p.hPath);
    if Get(j, Scp).Some? {
      StringsExactly(Get(j, Scp).value, p.scp);
    }
  }

  lemma DescribesOneSession(j: Json, p: SessionPayload, q: SessionPayload)
    requires DescribesSession(j, p) && DescribesSession(j, q)
    ensures p == q
  {
    StringsRoundTrip(p.scp);
    StringsRoundTrip(q.scp);
    PathExactly(j, p.hPath);
    PathExactly(j, q.hPath);
  }

  /** A session payload survives printing and reading exactly when it is well formed. */
  lemma SessionRoundTrip(p: SessionPayload)
    ensures ReadSession(SessionToJson(p)) == if SessionWellFormed(p) then Some(p) else None
  {
    var r := ReadSession(SessionToJson(p));
    ReadSessionExactly(SessionToJson(p), p);
    if r.Some? {
      ReadSessionExactly(SessionToJson(p), r.value);
      DescribesOneSession(SessionToJson(p), p, r.value);
    }
  }

  /**
   A token parses exactly when it has two parts, the first no longer than the
   limit and JSON that describes a well-formed session. Every other token is
   malformed, but for the text "null", on which the code trips.
   */
  lemma ParseExactly(t: Token, parsed: Parsed)
    ensures ParseSessionToken(t) == Ok(parsed)
       <==> && t == Token(parsed.body, Some(parsed.signature)) && parsed.body.size <= 4096
            && parsed.body.json.Some? && DescribesSession(parsed.body.json.value, parsed.payload)
            && SessionWellFormed(parsed.payload)
    ensures ParseSessionToken(t) == Err(TypeError)
       <==> t.Token? && t.body.size <= 4096 && t.body.json == Some(JNull)
    ensures ParseSessionToken(t).Err? ==> ParseSessionToken(t).error in {TypeError, MALFORMED_ERROR}
  {
    if t.Token? && t.body.json.Some? {
      ReadSessionExactly(t.body.json.value, parsed.payload);
    }
  }

  /** The time window of a token, widened by the clock skew on both sides. */
  predicate InValidity(now: int, iat: real, exp: real) {
    iat - 30.0 <= now as real <= exp + 30.0
  }

  ghost predicate PatternsPermit(grant: Grant, name: string) {
    grant.subNamePatterns.Some? ==>
      exists i :: 0 <= i < |grant.subNamePatterns.value| && Permits(grant.subNamePatterns.value[i], name)
  }

  ghost predicate NestedGrant(child: Grant, parent: Grant) {
    Elements(child.scopes) <= Elements(parent.scopes) && child.maxSessionTtl <= parent.maxSessionTtl
  }

  ghost predicate WithinGrant(p: SessionPayload, grant: Grant) {
    && Elements(p.scp) <= Elements(grant.scopes)
    && (grant.audiences.Some? ==> p.aud in grant.audiences.value)
    && p.exp - p.iat <= grant.maxSessionTtl
  }

  /** The session's own token: addressed to this audience and signed by the key it names. */
  ghost predicate SessionHolds(env: Env, token: Token, parsed: Parsed, audience: string) {
    && ParseSessionToken(token) == Ok(parsed)
    && parsed.payload.aud == audience
    && env.isBase64url(parsed.payload.hId) && SignedBy(env, token, parsed.payload.hId)
  }

  /** The root key signed A, A's subject signed B, and B speaks of this session. */
  ghost predicate SubChainHolds(env: Env, p: SessionPayload, rootPublicKey: string,
                                tokenA: Token, A: Payload, tokenB: Token, B: Payload) {
    && Decode(tokenA) == Ok(A) && SignedBy(env, tokenA, rootPublicKey)
    && Decode(tokenB) == Ok(B) && env.isBase64url(A.subjectId) && SignedBy(env, tokenB, A.subjectId)
    && p.hPath == Some((A.subjectName, B.subjectName))
    && p.hId == B.subjectId
    && PatternsPermit(A.grant, B.subjectName)
    && NestedGrant(B.grant, A.grant)
    && WithinGrant(p, B.grant)
    && p.exp <= Min(A.exp, B.exp) + CLOCK_SKEW_SECONDS
  }

  ghost predicate HandleChainHolds(env: Env, p: SessionPayload, rootPublicKey: string, tokenA: Token, A: Payload) {
    && Decode(tokenA) == Ok(A) && SignedBy(env, tokenA, rootPublicKey)
    && env.isBase64url(A.subjectId) && p.hPath.None? && p.hId == A.subjectId
    && WithinGrant(p, A.grant)
    && p.exp <= A.exp + CLOCK_SKEW_SECONDS
  }

  // ----- Soundness and completeness of verifyAttested -----

  lemma RootAttestationExactly(env: Env, tokenA: Token, rootPublicKey: string, now: int, rev: Revocations, A: Payload)
    ensures VerifyRootAttestation(env, tokenA, rootPublicKey, now, rev) == Ok(A)
       <==> && Decode(tokenA) == Ok(A) && SignedBy(env, tokenA, rootPublicKey)
            && InValidity(now, A.iat, A.exp) && !Revoked(rev, A.jti)
  {
  }

  lemma HandleAttestationExactly(env: Env, tokenB: Token, A: Payload, p: SessionPayload, now: int, rev: Revocations,
                                 B: Payload)
    requires p.hPath.Some?
    ensures VerifyHandleAttestation(env, tokenB, A, p, now, rev) == Ok(B)
       <==> && Decode(tokenB) == Ok(B) && env.isBase64url(A.subjectId) && SignedBy(env, tokenB, A.subjectId)
            && p.hPath == Some((A.subjectName, B.subjectName)) && p.hId == B.subjectId
            && PatternsPermit(A.grant, B.subjectName) && NestedGrant(B.grant, A.grant)
            && InValidity(now, B.iat, B.exp) && !Revoked(rev, B.jti)
  {
    NothingForbidden(B.grant.scopes, A.grant.scopes);
    if A.grant.subNamePatterns.Some? {
      MatchMeansPermitted(B.subjectName, A.grant.subNamePatterns.value);
    }
  }

  lemma GrantCheckExactly(p: SessionPayload, grant: Grant, earliestExp: real)
    ensures VerifySessionAgainstGrant(p, grant, earliestExp).None?
       <==> WithinGrant(p, grant) && p.exp <= earliestExp + CLOCK_SKEW_SECONDS
  {
    NothingForbidden(p.scp, grant.scopes);
  }

  /** A SubHandle session is accepted exactly when the whole chain of trust holds at this moment. */
  lemma SubSessionExactly(env: Env, token: Token, rootPublicKey: string, tokenA: Token, tokenB: Token,
                          audience: string, now: int, rev: Revocations, parsed: Parsed, A: Payload, B: Payload)
    requires ParseSessionToken(token) == Ok(parsed) && Decode(tokenA) == Ok(A) && Decode(tokenB) == Ok(B)
    requires parsed.payload.hPath.Some?
    ensures var p := parsed.payload;
            VerifyAttested(env, token, rootPublicKey, [tokenA, tokenB], audience, now, rev).Ok?
            <==> && SessionHolds(env, token, parsed, audience)
                 && SubChainHolds(env, p, rootPublicKey, tokenA, A, tokenB, B)
                 && InValidity(now, p.iat, p.exp) && InValidity(now, A.iat, A.exp) && InValidity(now, B.iat, B.exp)
                 && !Revoked(rev, p.jti) && !Revoked(rev, A.jti) && !Revoked(rev, B.jti)
  {
    var p := parsed.payload;
    RootAttestationExactly(env, tokenA, rootPublicKey, now, rev, A);
    HandleAttestationExactly(env, tokenB, A, p, now, rev, B);
    GrantCheckExactly(p, B.grant, Min(A.exp, B.exp));
  }

  lemma HandleSessionExactly(env: Env, token: Token, rootPublicKey: string, tokenA: Token,
                             audience: string, now: int, rev: Revocations, parsed: Parsed, A: Payload)
    requires ParseSessionToken(token) == Ok(parsed) && Decode(tokenA) == Ok(A)
    requires parsed.payload.hPath.None?
    ensures var p := parsed.payload;
            VerifyAttested(env, token, rootPublicKey, [tokenA], audience, now, rev).Ok?
            <==> && SessionHolds(env, token, parsed, audience)
                 && HandleChainHolds(env, p, rootPublicKey, tokenA, A)
                 && InValidity(now, p.iat, p.exp) && InValidity(now, A.iat, A.exp)
                 && !Revoked(rev, p.jti) && !Revoked(rev, A.jti)
  {
    RootAttestationExactly(env, tokenA, rootPublicKey, now, rev, A);
    GrantCheckExactly(parsed.payload, A.grant, A.exp);
  }

  lemma ChainShape(env: Env, p: SessionPayload, rootPublicKey: string, chain: seq<Token>, now: int, rev: Revocations)
    requires VerifyChain(env, p, rootPublicKey, chain, now, rev).Ok?
    ensures |chain| == if p.hPath.Some? then 2 else 1
    ensures forall i :: 0 <= i < |chain| ==> Decode(chain[i]).Ok?
  {
    assert Decode(chain[0]).Ok?;
  }

  /** Whatever is accepted parses, has a chain of the right shape whose links decode, and is returned as claimed. */
  lemma AcceptedShape(env: Env, token: Token, rootPublicKey: string, chain: seq<Token>, audience: string,
                      now: int, rev: Revocations)
    requires VerifyAttested(env, token, rootPublicKey, chain, audience, now, rev).Ok?
    ensures ParseSessionToken(token).Ok?
    ensures var p := ParseSessionToken(token).value.payload;
            && VerifyAttested(env, token, rootPublicKey, chain, audience, now, rev).value
               == Session(p.hId, p.hNm, p.aud, p.scp, p.exp, token, p.hPath, p.jti)
            && |chain| == (if p.hPath.Some? then 2 else 1)
            && forall i :: 0 <= i < |chain| ==> Decode(chain[i]).Ok?
  {
    ChainShape(env, ParseSessionToken(token).value.payload, rootPublicKey, chain, now, rev);
  }

  /**
   Soundness and attenuation along the chain: root ⊒ handle ⊒ sub-handle ⊒ session,
   in scopes and in time, with every link signed by the subject of the one before.
   */
  lemma SubSessionSoundness(env: Env, token: Token, rootPublicKey: string, chain: seq<Token>, audience: string,
                            now: int, rev: Revocations)
    returns (rootKey: Bytes, handleKey: Bytes, subKey: Bytes, A: Payload, B: Payload)
    requires EnvOk(env)
    requires VerifyAttested(env, token, rootPublicKey, chain, audience, now, rev).Ok?
    requires VerifyAttested(env, token, rootPublicKey, chain, audience, now, rev).value.path.Some?
    ensures |chain| == 2 && Decode(chain[0]) == Ok(A) && Decode(chain[1]) == Ok(B)
    ensures env.publicKey(rootKey) == rootPublicKey && env.publicKey(handleKey) == A.subjectId
            && env.publicKey(subKey) == B.subjectId
    ensures chain[0] == Sign(rootKey, chain[0].body) && chain[1] == Sign(handleKey, chain[1].body)
            && token == Sign(subKey, token.body)
    ensures var s := VerifyAttested(env, token, rootPublicKey, chain, audience, now, rev).value;
            var p := ParseSessionToken(token).value.payload;
            && s == SessionOf(p, token) && s.handleId == B.subjectId && s.path == Some((A.subjectName, B.subjectName))
            && PatternsPermit(A.grant, B.subjectName)
            && Elements(s.scopes) <= Elements(B.grant.scopes) <= Elements(A.grant.scopes)
            && s.expiresAt - p.iat <= B.grant.maxSessionTtl <= A.grant.maxSessionTtl
            && s.audience == audience && (B.grant.audiences.Some? ==> audience in B.grant.audiences.value)
            && s.expiresAt <= A.exp + CLOCK_SKEW_SECONDS && s.expiresAt <= B.exp + CLOCK_SKEW_SECONDS
  {
    AcceptedShape(env, token, rootPublicKey, chain, audience, now, rev);
    var parsed := ParseSessionToken(token).value;
    A, B := Decode(chain[0]).value, Decode(chain[1]).value;
    assert chain == [chain[0], chain[1]];
    SubSessionExactly(env, token, rootPublicKey, chain[0], chain[1], audience, now, rev, parsed, A, B);
    rootKey, handleKey, subKey := chain[0].signature.value.key, chain[1].signature.value.key, token.signature.value.key;
  }

  // ----- Time and revocation -----

  /** The latest start and the earliest end of the validity of a session and its chain. */
  function LatestStart(p: SessionPayload, chain: seq<Token>): real
    requires forall i :: 0 <= i < |chain| ==> Decode(chain[i]).Ok?
  {
    if chain == [] then p.iat else Max(Decode(chain[|chain| - 1]).value.iat, LatestStart(p, chain[..|chain| - 1]))
  }

  function EarliestEnd(p: SessionPayload, chain: seq<Token>): real
    requires forall i :: 0 <= i < |chain| ==> Decode(chain[i]).Ok?
  {
    if chain == [] then p.exp else Min(Decode(chain[|chain| - 1]).value.exp, EarliestEnd(p, chain[..|chain| - 1]))
  }

  /** The revocation ids of a session and its chain. */
  function Ids(p: SessionPayload, chain: seq<Token>): set<string>
    requires forall i :: 0 <= i < |chain| ==> Decode(chain[i]).Ok?
  {
    if chain == [] then {p.jti} else Ids(p, chain[..|chain| - 1]) + {Decode(chain[|chain| - 1]).value.jti}
  }

  ghost predicate AvoidsAll(rev: Revocations, ids: set<string>) {
    rev.Some? ==> rev.value !! ids
  }

  lemma Bounds1(p: SessionPayload, a: Token)
    requires Decode(a).Ok?
    ensures LatestStart(p, [a]) == Max(Decode(a).value.iat, p.iat)
    ensures EarliestEnd(p, [a]) == Min(Decode(a).value.exp, p.exp)
    ensures Ids(p, [a]) == {p.jti, Decode(a).value.jti}
  {
    assert [a][..0] == [];
  }

  lemma Bounds2(p: SessionPayload, a: Token, b: Token)
    requires Decode(a).Ok? && Decode(b).Ok?
    ensures LatestStart(p, [a, b]) == Max(Decode(b).value.iat, Max(Decode(a).value.iat, p.iat))
    ensures EarliestEnd(p, [a, b]) == Min(Decode(b).value.exp, Min(Decode(a).value.exp, p.exp))
    ensures Ids(p, [a, b]) == {p.jti, Decode(a).value.jti, Decode(b).value.jti}
  {
    Bounds1(p, a);
    assert [a, b][..1] == [a];
  }

  /** Acceptance at this moment, as far as clock and revocations decide it. */
  ghost predicate InTime(p: SessionPayload, chain: seq<Token>, now: int, rev: Revocations)
    requires forall i :: 0 <= i < |chain| ==> Decode(chain[i]).Ok?
  {
    InValidity(now, LatestStart(p, chain), EarliestEnd(p, chain)) && AvoidsAll(rev, Ids(p, chain))
  }

  lemma InTime1(p: SessionPayload, a: Token, now: int, rev: Revocations)
    requires Decode(a).Ok?
    ensures var A := Decode(a).value;
            InTime(p, [a], now, rev)
            <==> && InValidity(now, p.iat, p.exp) && InValidity(now, A.iat, A.exp)
                 && !Revoked(rev, p.jti) && !Revoked(rev, A.jti)
  {
    Bounds1(p, a);
  }

  lemma InTime2(p: SessionPayload, a: Token, b: Token, now: int, rev: Revocations)
    requires Decode(a).Ok? && Decode(b).Ok?
    ensures var A, B := Decode(a).value, Decode(b).value;
            InTime(p, [a, b], now, rev)
            <==> && InValidity(now, p.iat, p.exp) && InValidity(now, A.iat, A.exp) && InValidity(now, B.iat, B.exp)
                 && !Revoked(rev, p.jti) && !Revoked(rev, A.jti) && !Revoked(rev, B.jti)
  {
    Bounds2(p, a, b);
  }

  lemma SubSessionInTime(env: Env, token: Token, rootPublicKey: string, a: Token, b: Token, audience: string,
                         now0: int, rev0: Revocations, now: int, rev: Revocations)
    requires VerifyAttested(env, token, rootPublicKey, [a, b], audience, now0, rev0).Ok?
    ensures ParseSessionToken(token).Ok? && Decode(a).Ok? && Decode(b).Ok?
    ensures VerifyAttested(env, token, rootPublicKey, [a, b], audience, now, rev).Ok?
       <==> InTime(ParseSessionToken(token).value.payload, [a, b], now, rev)
  {
    AcceptedShape(env, token, rootPublicKey, [a, b], audience, now0, rev0);
    assert [a, b][0] == a && [a, b][1] == b;
    var parsed := ParseSessionToken(token).value;
    SubSessionExactly(env, token, rootPublicKey, a, b, audience, now0, rev0, parsed, Decode(a).value, Decode(b).value);
    SubSessionExactly(env, token, rootPublicKey, a, b, audience, now, rev, parsed, Decode(a).value, Decode(b).value);
    InTime2(parsed.payload, a, b, now, rev);
  }

  lemma HandleSessionInTime(env: Env, token: Token, rootPublicKey: string, a: Token, audience: string,
                            now0: int, rev0: Revocations, now: int, rev: Revocations)
    requires VerifyAttested(env, token, rootPublicKey, [a], audience, now0, rev0).Ok?
    ensures ParseSessionToken(token).Ok? && Decode(a).Ok?
    ensures VerifyAttested(env, token, rootPublicKey, [a], audience, now, rev).Ok?
       <==> InTime(ParseSessionToken(token).value.payload, [a], now, rev)
  {
    AcceptedShape(env, token, rootPublicKey, [a], audience, now0, rev0);
    assert [a][0] == a;
    var parsed := ParseSessionToken(token).value;
    HandleSessionExactly(env, token, rootPublicKey, a, audience, now0, rev0, parsed, Decode(a).value);
    HandleSessionExactly(env, token, rootPublicKey, a, audience, now, rev, parsed, Decode(a).value);
    InTime1(parsed.payload, a, now, rev);
  }

  /**
   For fixed inputs that are accepted once, acceptance at any clock value under
   any revocation set is decided by two things only: the clock lies in the closed
   interval from the latest iat − 30 to the earliest exp + 30, and the set avoids
   every id of session and chain.
   */
  lemma ClockAndRevocationsDecide(env: Env, token: Token, rootPublicKey: string, chain: seq<Token>, audience: string,
                                  now0: int, rev0: Revocations, now: int, rev: Revocations)
    requires VerifyAttested(env, token, rootPublicKey, chain, audience, now0, rev0).Ok?
    ensures ParseSessionToken(token).Ok? && forall i :: 0 <= i < |chain| ==> Decode(chain[i]).Ok?
    ensures VerifyAttested(env, token, rootPublicKey, chain, audience, now, rev).Ok?
       <==> InTime(ParseSessionToken(token).value.payload, chain, now, rev)
  {
    AcceptedShape(env, token, rootPublicKey, chain, audience, now0, rev0);
    if |chain| == 2 {
      assert chain == [chain[0], chain[1]];
      SubSessionInTime(env, token, rootPublicKey, chain[0], chain[1], audience, now0, rev0, now, rev);
    } else {
      assert chain == [chain[0]];
      HandleSessionInTime(env, token, rootPublicKey, chain[0], audience, now0, rev0, now, rev);
    }
  }

  lemma {:induction false} IdsContain(p: SessionPayload, chain: seq<Token>, i: nat)
    requires forall i :: 0 <= i < |chain| ==> Decode(chain[i]).Ok?
    requires i < |chain|
    ensures Decode(chain[i]).value.jti in Ids(p, chain)
  {
    if i < |chain| - 1 {
      IdsContain(p, chain[..|chain| - 1], i);
    }
  }

  /** Revoking an attestation rejects every session, present or future, verified through it. */
  lemma RevokedAttestationRejectsAll(env: Env, token: Token, rootPublicKey: string, chain: seq<Token>, audience: string,
                                     now: int, rev: Revocations, i: nat)
    requires i < |chain| && Decode(chain[i]).Ok? && Revoked(rev, Decode(chain[i]).value.jti)
    ensures VerifyAttested(env, token, rootPublicKey, chain, audience, now, rev).Err?
  {
    if VerifyAttested(env, token, rootPublicKey, chain, audience, now, rev).Ok? {
      ClockAndRevocationsDecide(env, token, rootPublicKey, chain, audience, now, rev, now, rev);
      IdsContain(ParseSessionToken(token).value.payload, chain, i);
    }
  }

  lemma DecodeErrors(t: Token)
    ensures Decode(t) != Err(AttestationError(REVOKED, SESSION))
  {
  }

  ghost predicate LinkRevoked(t: Token, rev: Revocations) {
    Decode(t).Ok? && Revoked(rev, Decode(t).value.jti)
  }

  lemma RootRevocation(env: Env, tokenA: Token, rootPublicKey: string, now: int, rev: Revocations)
    ensures var r, r0 := VerifyRootAttestation(env, tokenA, rootPublicKey, now, rev),
                         VerifyRootAttestation(env, tokenA, rootPublicKey, now, None);
            && r != Err(AttestationError(REVOKED, SESSION))
            && (r0.Ok? && !LinkRevoked(tokenA, rev) <==> r.Ok?)
            && (r.Ok? ==> r == r0)
  {
    DecodeErrors(tokenA);
  }

  lemma HandleRevocation(env: Env, tokenB: Token, A: Payload, p: SessionPayload, now: int, rev: Revocations)
    requires p.hPath.Some?
    ensures var r, r0 := VerifyHandleAttestation(env, tokenB, A, p, now, rev),
                         VerifyHandleAttestation(env, tokenB, A, p, now, None);
            && r != Err(AttestationError(REVOKED, SESSION))
            && (r0.Ok? && !LinkRevoked(tokenB, rev) <==> r.Ok?)
            && (r.Ok? ==> r == r0)
  {
    DecodeErrors(tokenB);
  }

  ghost predicate NoLinkRevoked(chain: seq<Token>, rev: Revocations) {
    forall i :: 0 <= i < |chain| ==> !LinkRevoked(chain[i], rev)
  }

  lemma ChainRevocation(env: Env, p: SessionPayload, rootPublicKey: string, chain: seq<Token>, now: int,
                        rev: Revocations)
    ensures var r := VerifyChain(env, p, rootPublicKey, chain, now, rev);
            var r0 := VerifyChain(env, p, rootPublicKey, chain, now, None);
            && r != Err(AttestationError(REVOKED, SESSION))
            && (r0.Ok? && NoLinkRevoked(chain, rev) <==> r.Ok?)
            && (r.Ok? ==> r == r0)
  {
    if |chain| == (if p.hPath.Some? then 2 else 1) {
      RootRevocation(env, chain[0], rootPublicKey, now, rev);
      var A := VerifyRootAttestation(env, chain[0], rootPublicKey, now, None);
      if A.Ok? && p.hPath.Some? {
        HandleRevocation(env, chain[1], A.value, p, now, rev);
      }
    }
  }

  lemma ParsedRevokedLast(env: Env, token: Token, parsed: Parsed, rootPublicKey: string, chain: seq<Token>,
                          audience: string, now: int, rev: Revocations)
    ensures VerifyParsed(env, token, parsed, rootPublicKey, chain, audience, now, rev)
              == Err(AttestationError(REVOKED, SESSION))
            <==> && Revoked(rev, parsed.payload.jti)
                 && VerifyParsed(env, token, parsed, rootPublicKey, chain, audience, now, None).Ok?
                 && NoLinkRevoked(chain, rev)
  {
    ChainRevocation(env, parsed.payload, rootPublicKey, chain, now, rev);
  }

  /**
   A revoked session is reported as such exactly when nothing else is wrong with it
   or its chain: that check comes last.
   */
  lemma RevokedSessionReportedLast(env: Env, token: Token, rootPublicKey: string, chain: seq<Token>, audience: string,
                                   now: int, rev: Revocations)
    requires ParseSessionToken(token).Ok?
    ensures VerifyAttested(env, token, rootPublicKey, chain, audience, now, rev)
              == Err(AttestationError(REVOKED, SESSION))
            <==> && Revoked(rev, ParseSessionToken(token).value.payload.jti)
                 && VerifyAttested(env, token, rootPublicKey, chain, audience, now, None).Ok?
                 && NoLinkRevoked(chain, rev)
  {
    ParsedRevokedLast(env, token, ParseSessionToken(token).value, rootPublicKey, chain, audience, now, rev);
  }

  // ----- Completeness for honest issuers -----

  ghost predicate WithinConstraints(c: Constraints, o: SessionOptions, clock: int) {
    && (c.allowedAudiences.Some? ==> o.audience in c.allowedAudiences.value)
    && (c.allowedScopes.Some? ==> Elements(o.scopes) <= Elements(c.allowedScopes.value))
    && (c.maxSessionTtl.Some? ==> o.ttl <= c.maxSessionTtl.value)
    && (c.expiresAt.Some? ==> clock as real < c.expiresAt.value)
  }

  /** A session is created exactly for a positive whole ttl and, by a sub-handle, within its local constraints. */
  lemma CreateExactly(env: Env, handle: HandleValue, c: Constraints, o: SessionOptions, clock: int, uuid: string,
                      size: nat)
    ensures Create(env, handle, c, o, clock, uuid, size).Ok?
       <==> && o.ttl > 0.0 && o.ttl.Floor as real == o.ttl
            && (handle.path.Some? ==> WithinConstraints(c, o, clock))
  {
    if c.allowedScopes.Some? {
      NothingForbidden(o.scopes, c.allowedScopes.value);
    }
  }

  /** A session created by a handle or sub-handle, as the verifiers read it. */
  lemma CreatedParses(env: Env, handle: HandleValue, c: Constraints, o: SessionOptions, clock: int, uuid: string,
                      size: nat)
    requires EnvOk(env) && handle.name != ""
    requires Create(env, handle, c, o, clock, uuid, size).Ok?
    requires size <= MAX_PAYLOAD_SIZE && o.audience != "" && GetOr(o.sessionId, uuid) != ""
    ensures var s := Create(env, handle, c, o, clock, uuid, size).value;
            var p := SessionPayload(env.publicKey(handle.key), handle.name, handle.path, o.audience, o.scopes,
                                    clock as real + o.ttl, clock as real, GetOr(o.sessionId, uuid));
            && s == SessionOf(p, s.token) && s.token.Token?
            && ParseSessionToken(s.token) == Ok(Parsed(p, s.token.body, Signed(handle.key, s.token.body)))
            && SignedBy(env, s.token, env.publicKey(handle.key))
  {
    var s := Create(env, handle, c, o, clock, uuid, size).value;
    var p := SessionPayload(env.publicKey(handle.key), handle.name, handle.path, o.audience, o.scopes,
                            clock as real + o.ttl, clock as real, GetOr(o.sessionId, uuid));
    SessionRoundTrip(p);
    assert s.token == Sign(handle.key, Stringify(SessionToJson(p), size));
  }

  /**
   For names that normalize, grants and options that can be issued and decoded,
   nested grants, a permitted sub-handle name, and a session for a positive whole
   ttl within B's grant: both attestations are issued, the session is created, and
   it is accepted at every clock value inside all three validity windows when
   nothing is revoked.
   */
  lemma HonestSubSessionAccepted(env: Env, rootKey: Bytes, handleName: string, subName: string,
                                 grantA: Grant, optsA: IssueOpts, ambA: Ambient,
                                 grantB: Grant, optsB: IssueOpts, ambB: Ambient,
                                 c: Constraints, o: SessionOptions, clock: int, uuid: string, size: nat,
                                 now: int, rev: Revocations)
    requires EnvOk(env)
    requires NamePattern(env.canon(handleName)) && NamePattern(env.canon(subName))
    requires Issuable(grantA, optsA, ambA) && Issuable(grantB, optsB, ambB)
    requires NestedGrant(grantB, grantA) && PatternsPermit(grantA, env.canon(subName))
    requires o.ttl > 0.0 && o.ttl.Floor as real == o.ttl && WithinConstraints(c, o, clock)
    requires Elements(o.scopes) <= Elements(grantB.scopes) && o.ttl <= grantB.maxSessionTtl
             && (grantB.audiences.Some? ==> o.audience in grantB.audiences.value)
    requires Decodable(optsA, ambA) && Decodable(optsB, ambB) && size <= MAX_PAYLOAD_SIZE
    requires o.audience != "" && GetOr(o.sessionId, uuid) != ""
    requires var end := clock as real + o.ttl;
             && end <= Min(End(optsA, ambA), End(optsB, ambB)) + CLOCK_SKEW_SECONDS
             && InValidity(now, clock as real, end)
             && InValidity(now, Start(optsA, ambA), End(optsA, ambA))
             && InValidity(now, Start(optsB, ambB), End(optsB, ambB))
             && AvoidsAll(rev, {GetOr(o.sessionId, uuid), Id(optsA, ambA), Id(optsB, ambB)})
    ensures DeriveHandle(env, rootKey, handleName).Ok?
    ensures var handle := DeriveHandle(env, rootKey, handleName).value;
            var a := AttestHandle(env, rootKey, handleName, grantA, optsA, ambA);
            var b := AttestSubHandle(env, handle, subName, grantB, optsB, ambB);
            var sub := DeriveSubHandle(env, handle, subName);
            && a.Ok? && b.Ok? && sub.Ok?
            && var s := Create(env, sub.value, c, o, clock, uuid, size);
               && s.Ok?
               && VerifyAttested(env, s.value.token, env.publicKey(rootKey), [a.value.token, b.value.token],
                                 o.audience, now, rev) == s
  {
    AttestHandleExactly(env, rootKey, handleName, grantA, optsA, ambA);
    var handle := DeriveHandle(env, rootKey, handleName).value;
    AttestSubHandleExactly(env, handle, subName, grantB, optsB, ambB);
    CreateExactly(env, DeriveSubHandle(env, handle, subName).value, c, o, clock, uuid, size);
    var sub := DeriveSubHandle(env, handle, subName).value;
    var a := AttestHandle(env, rootKey, handleName, grantA, optsA, ambA).value;
    var b := AttestSubHandle(env, handle, subName, grantB, optsB, ambB).value;
    var s := Create(env, sub, c, o, clock, uuid, size).value;
    IssuedDecodes(env, rootKey, env.publicKey(handle.key), handle.name, grantA, optsA, ambA);
    IssuedDecodes(env, handle.key, env.publicKey(sub.key), sub.name, grantB, optsB, ambB);
    CreatedParses(env, sub, c, o, clock, uuid, size);
    var parsed := ParseSessionToken(s.token).value;
    SubSessionExactly(env, s.token, env.publicKey(rootKey), a.token, b.token, o.audience, now, rev, parsed,
                      a.payload, b.payload);
    AcceptedShape(env, s.token, env.publicKey(rootKey), [a.token, b.token], o.audience, now, rev);
  }

  /** Sessions of derived handles and sub-handles are accepted by the verifier that holds the identity. */
  lemma HonestSessionAcceptedStateless(env: Env, rootKey: Bytes, handleName: string, subName: Option<string>,
                                       c: Constraints, o: SessionOptions, clock: int, uuid: string, size: nat,
                                       now: int, rev: Revocations)
    requires EnvOk(env)
    requires NamePattern(env.canon(handleName)) && (subName.Some? ==> NamePattern(env.canon(subName.value)))
    requires o.ttl > 0.0 && o.ttl.Floor as real == o.ttl && (subName.Some? ==> WithinConstraints(c, o, clock))
    requires size <= MAX_PAYLOAD_SIZE && o.audience != "" && GetOr(o.sessionId, uuid) != ""
    requires InValidity(now, clock as real, clock as real + o.ttl) && !Revoked(rev, GetOr(o.sessionId, uuid))
    ensures var handle := DeriveAt(env, rootKey, handleName, subName);
            && handle.Ok?
            && var s := Create(env, handle.value, c, o, clock, uuid, size);
               s.Ok? && VerifyStateless(env, s.value.token, rootKey, o.audience, now, rev) == s
  {
    if subName.Some? {
      DerivedSubHandle(env, rootKey, handleName, subName.value);
    }
    CreateExactly(env, DeriveAt(env, rootKey, handleName, subName).value, c, o, clock, uuid, size);
    var handle := DeriveAt(env, rootKey, handleName, subName).value;
    CreatedParses(env, handle, c, o, clock, uuid, size);
    match subName
    case Some(s) =>
      DerivedSubHandle(env, rootKey, handleName, s);
      DerivedSubHandle(env, rootKey, handle.path.value.0, handle.path.value.1);
    case None =>
  }

  function DeriveAt(env: Env, rootKey: Bytes, handleName: string, subName: Option<string>): Result<HandleValue, Error> {
    match subName
    case Some(s) => DeriveSubHandleAtOnce(env, rootKey, handleName, s)
    case None => DeriveHandle(env, rootKey, handleName)
  }

  // ----- The verifier that holds the identity -----

  /** The key of the handle or sub-handle a session claims to come from, by canonical names. */
  function ClaimedKey(env: Env, rootKey: Bytes, p: SessionPayload): Option<Bytes> {
    match p.hPath
    case None =>
      var n := NormalizeName(env.canon, p.hNm);
      if n.Ok? then Some(Derive(rootKey, HandleKey(n.value))) else None
    case Some((h, s)) =>
      var a, b := NormalizeName(env.canon, h), NormalizeName(env.canon, s);
      if a.Ok? && b.Ok? then Some(Derive(Derive(rootKey, HandleKey(a.value)), SubHandleKey(a.value, b.value))) else None
  }

  /** The handle that the identity verifier derives for a session. */
  function ClaimedHandle(env: Env, rootKey: Bytes, p: SessionPayload): Result<HandleValue, Error> {
    match p.hPath
    case Some((h, s)) => DeriveSubHandleAtOnce(env, rootKey, h, s)
    case None => DeriveHandle(env, rootKey, p.hNm)
  }

  lemma ClaimedKeyDerived(env: Env, rootKey: Bytes, p: SessionPayload)
    requires EnvOk(env)
    ensures match ClaimedKey(env, rootKey, p)
            case None => ClaimedHandle(env, rootKey, p) == Err(MALFORMED_ERROR)
            case Some(key) => ClaimedHandle(env, rootKey, p).Ok? && ClaimedHandle(env, rootKey, p).value.key == key
  {
    match p.hPath
    case Some((h, s)) => DerivedSubHandle(env, rootKey, h, s);
    case None =>
  }

  /** Accepted exactly when addressed here, in time, not revoked, and signed by the very key it claims and names. */
  lemma StatelessExactly(env: Env, token: Token, parsed: Parsed, rootKey: Bytes, audience: string, now: int,
                         rev: Revocations)
    requires EnvOk(env) && ParseSessionToken(token) == Ok(parsed)
    ensures var p := parsed.payload;
            var r := VerifyStateless(env, token, rootKey, audience, now, rev);
            && (r.Ok? <==>
                  && p.aud == audience && InValidity(now, p.iat, p.exp) && !Revoked(rev, p.jti)
                  && var key := ClaimedKey(env, rootKey, p);
                     key.Some? && p.hId == env.publicKey(key.value) && token == Sign(key.value, token.body))
            && (r.Ok? ==> r.value == SessionOf(p, token))
  {
    ClaimedKeyDerived(env, rootKey, parsed.payload);
  }

  // ----- Agreement of the two verifiers -----

  /** If the root key signed this token, it did so in attestHandle. */
  ghost predicate RootSignsHonestly(env: Env, rootKey: Bytes, t: Token) {
    t.Token? && t == Sign(rootKey, t.body) ==>
      exists name, grant, opts, amb ::
        && AttestHandle(env, rootKey, name, grant, opts, amb).Ok?
        && AttestHandle(env, rootKey, name, grant, opts, amb).value.token == t
  }

  /** If the key of this handle signed this token, it did so in attestSubHandle. */
  ghost predicate HandleSignsHonestly(env: Env, handle: HandleValue, t: Token) {
    t.Token? && t == Sign(handle.key, t.body) ==>
      exists subName, grant, opts, amb ::
        && AttestSubHandle(env, handle, subName, grant, opts, amb).Ok?
        && AttestSubHandle(env, handle, subName, grant, opts, amb).value.token == t
  }

  /** A decodable attestation the root key signed honestly names a canonical handle and its derived key. */
  lemma HonestRootAttestation(env: Env, rootKey: Bytes, t: Token, A: Payload)
    requires EnvOk(env) && RootSignsHonestly(env, rootKey, t)
    requires SignedBy(env, t, env.publicKey(rootKey)) && Decode(t) == Ok(A)
    ensures NormalizeName(env.canon, A.subjectName) == Ok(A.subjectName)
    ensures A.subjectId == env.publicKey(Derive(rootKey, HandleKey(A.subjectName)))
  {
    var name, grant, opts, amb :|
      && AttestHandle(env, rootKey, name, grant, opts, amb).Ok?
      && AttestHandle(env, rootKey, name, grant, opts, amb).value.token == t;
    var handle := DeriveHandle(env, rootKey, name).value;
    NormalizeIdempotent(env.canon, name);
    IssuedDecodes(env, rootKey, env.publicKey(handle.key), handle.name, grant, opts, amb);
  }

  lemma HonestHandleAttestation(env: Env, handle: HandleValue, t: Token, B: Payload)
    requires EnvOk(env) && NormalizeName(env.canon, handle.name) == Ok(handle.name) && handle.path.None?
    requires HandleSignsHonestly(env, handle, t)
    requires SignedBy(env, t, env.publicKey(handle.key)) && Decode(t) == Ok(B)
    ensures NormalizeName(env.canon, B.subjectName) == Ok(B.subjectName)
    ensures B.subjectId == env.publicKey(Derive(handle.key, SubHandleKey(handle.name, B.subjectName)))
  {
    var subName, grant, opts, amb :|
      && AttestSubHandle(env, handle, subName, grant, opts, amb).Ok?
      && AttestSubHandle(env, handle, subName, grant, opts, amb).value.token == t;
    var sub := DeriveSubHandle(env, handle, subName).value;
    NormalizeIdempotent(env.canon, subName);
    IssuedDecodes(env, handle.key, env.publicKey(sub.key), sub.name, grant, opts, amb);
  }

  /** The handle that a decodable attestation speaks of. */
  function AttestedHandle(rootKey: Bytes, t: Token): HandleValue
    requires Decode(t).Ok?
  {
    var name := Decode(t).value.subjectName;
    HandleValue(Derive(rootKey, HandleKey(name)), name, None)
  }

  /**
   When root and handle keys sign attestations only through attestHandle and
   attestSubHandle, every SubHandle session the chain verifier accepts is
   accepted, with the same result, by the verifier that holds the identity.
   */
  lemma SubSessionAgreement(env: Env, rootKey: Bytes, token: Token, chain: seq<Token>, audience: string,
                            now: int, rev: Revocations)
    requires EnvOk(env)
    requires VerifyAttested(env, token, env.publicKey(rootKey), chain, audience, now, rev).Ok?
    requires VerifyAttested(env, token, env.publicKey(rootKey), chain, audience, now, rev).value.path.Some?
    requires |chain| == 2 && RootSignsHonestly(env, rootKey, chain[0])
    requires Decode(chain[0]).Ok? ==> HandleSignsHonestly(env, AttestedHandle(rootKey, chain[0]), chain[1])
    ensures VerifyStateless(env, token, rootKey, audience, now, rev)
         == VerifyAttested(env, token, env.publicKey(rootKey), chain, audience, now, rev)
  {
    AcceptedShape(env, token, env.publicKey(rootKey), chain, audience, now, rev);
    var parsed := ParseSessionToken(token).value;
    var A, B := Decode(chain[0]).value, Decode(chain[1]).value;
    assert chain == [chain[0], chain[1]];
    SubSessionExactly(env, token, env.publicKey(rootKey), chain[0], chain[1], audience, now, rev, parsed, A, B);
    HonestRootAttestation(env, rootKey, chain[0], A);
    HonestHandleAttestation(env, AttestedHandle(rootKey, chain[0]), chain[1], B);
    DerivedSubHandle(env, rootKey, A.subjectName, B.subjectName);
  }

  /**
   For Handle sessions the two verifiers agree exactly when the name the session
   claims is the attested one: the chain verifier does not compare them.
   */
  lemma HandleSessionAgreement(env: Env, rootKey: Bytes, token: Token, tokenA: Token, audience: string,
                               now: int, rev: Revocations)
    requires EnvOk(env)
    requires VerifyAttested(env, token, env.publicKey(rootKey), [tokenA], audience, now, rev).Ok?
    requires RootSignsHonestly(env, rootKey, tokenA)
    ensures ParseSessionToken(token).Ok? && Decode(tokenA).Ok?
    ensures VerifyStateless(env, token, rootKey, audience, now, rev).Ok?
       <==> NormalizeName(env.canon, ParseSessionToken(token).value.payload.hNm) == Ok(Decode(tokenA).value.subjectName)
  {
    AcceptedShape(env, token, env.publicKey(rootKey), [tokenA], audience, now, rev);
    assert [tokenA][0] == tokenA;
    var parsed := ParseSessionToken(token).value;
    var p, A := parsed.payload, Decode(tokenA).value;
    HandleSessionExactly(env, token, env.publicKey(rootKey), tokenA, audience, now, rev, parsed, A);
    HonestRootAttestation(env, rootKey, tokenA, A);
    var claimed := NormalizeName(env.canon, p.hNm);
    if claimed.Ok? {
      HkdfInjective(rootKey, [], Info(HandleKey(claimed.value)), rootKey, [], Info(HandleKey(A.subjectName)), 32);
      InfoInjective(HandleKey(claimed.value), HandleKey(A.subjectName));
    }
  }

  lemma ExampleAttestation(env: Env, chains: Chains) returns (A: Attested)
    requires EnvOk(env)
    ensures RootSignsHonestly(env, [], A.token) && SignedBy(env, A.token, env.publicKey([]))
    ensures Decode(A.token) == Ok(A.payload)
    ensures A.payload == Payload("a", env.publicKey(Derive([], HandleKey("a"))), Grant(None, [], 10.0, None),
                                 0.0, 100.0, "j", Wallet(None, None, None))
  {
    var grant := Grant(None, [], 10.0, None);
    var opts := IssueOpts(Some(100.0), None, Some("j"), Some(0.0), Wallet(None, None, None));
    var amb := Ambient(0, "u", 100, chains);
    assert NamePattern("a");
    assert AttestHandle(env, [], "a", grant, opts, amb).Ok?;
    A := AttestHandle(env, [], "a", grant, opts, amb).value;
    IssuedDecodes(env, [], env.publicKey(Derive([], HandleKey("a"))), "a", grant, opts, amb);
  }

  /**
   A Handle session on which the verifiers differ: the key of handle "a" signed a
   session that claims the name "b".
   */
  lemma ClaimedNameExample(env: Env, chains: Chains) returns (token: Token, tokenA: Token)
    requires EnvOk(env)
    ensures RootSignsHonestly(env, [], tokenA)
    ensures VerifyAttested(env, token, env.publicKey([]), [tokenA], "app", 0, None).Ok?
    ensures VerifyStateless(env, token, [], "app", 0, None).Err?
  {
    var A := ExampleAttestation(env, chains);
    tokenA := A.token;
    var key := Derive([], HandleKey("a"));
    var p := SessionPayload(env.publicKey(key), "b", None, "app", [], 10.0, 0.0, "s");
    SessionRoundTrip(p);
    token := Sign(key, Stringify(SessionToJson(p), 100));
    var parsed := Parsed(p, token.body, Signed(key, token.body));
    HandleSessionExactly(env, token, env.publicKey([]), tokenA, "app", 0, None, parsed, A.payload);
    assert NamePattern("b");
    HandleSessionAgreement(env, [], token, tokenA, "app", 0, None);
  }
}
