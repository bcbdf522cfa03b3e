/** Attestations: parent-signed statements binding a child key to a name and a grant. */
module Attestation {
  import opened Basics
  import opened Errors
  import opened Primitives
  import opened Names
  import opened Json
  import opened Tokens

  const ATTESTATION_TYPE := "me2em/attestation/v1"
  const ATTESTATION_MAX_PAYLOAD: nat := 2048
  const MAX_JTI_LENGTH: nat := 256
  const DEFAULT_TTL_SECONDS: real := 31536000.0

  datatype Grant = Grant(
    audiences: Option<seq<string>>,
    scopes: seq<string>,
    maxSessionTtl: real,
    subNamePatterns: Option<seq<string>>)

  datatype Wallet = Wallet(address: Option<string>, chain: Option<string>, path: Option<string>)

  datatype Payload = Payload(
    subjectName: string,
    subjectId: string,
    grant: Grant,
    iat: real,
    exp: real,
    jti: string,
    wallet: Wallet)

  // ----- Serialisation -----

  function GrantToJson(g: Grant): Json {
    JObj(With(With(map[Scopes := JStrings(g.scopes), MaxSessionTtl := JNum(g.maxSessionTtl)],
                   Audiences, OfStrings(g.audiences)),
              SubNamePatterns, OfStrings(g.subNamePatterns)))
  }

  function ToJson(p: Payload): Json {
    JObj(With(With(With(map[Typ := JStr(ATTESTATION_TYPE),
                            SubjectName := JStr(p.subjectName),
                            SubjectId := JStr(p.subjectId),
                            GrantName := GrantToJson(p.grant),
                            Iat := JNum(p.iat),
                            Exp := JNum(p.exp),
                            Jti := JStr(p.jti)],
                        SubjectWallet, OfString(p.wallet.address)),
                   SubjectWalletChain, OfString(p.wallet.chain)),
              SubjectWalletPath, OfString(p.wallet.path)))
  }

  function ReadGrant(j: Json): Option<Grant> {
    var scopes, ttl := GetStrings(j, Scopes), GetNumber(j, MaxSessionTtl);
    var audiences, patterns := OptStrings(j, Audiences), OptStrings(j, SubNamePatterns);
    if !j.JObj? || scopes.None? || ttl.None? || ttl.value <= 0.0 || audiences.IllTyped? || patterns.IllTyped?
    then None
    else Some(Grant(AsOption(audiences), scopes.value, ttl.value, AsOption(patterns)))
  }

  /** The structural checks of Attestation.decode; every violation is the same error. */
  function ReadPayload(j: Json): Option<Payload> {
    var grantJson := Get(j, GrantName);
    var name, id, jti := GetString(j, SubjectName), GetString(j, SubjectId), GetString(j, Jti);
    var iat, exp := GetNumber(j, Iat), GetNumber(j, Exp);
    var address, chain, path :=
      OptString(j, SubjectWallet), OptString(j, SubjectWalletChain), OptString(j, SubjectWalletPath);
    if GetString(j, Typ) != Some(ATTESTATION_TYPE) || name.None? || id.None? || grantJson.None? then None
    else
      var grant := ReadGrant(grantJson.value);
      if grant.None? || iat.None? || exp.None? || exp.value <= iat.value then None
      else if jti.None? || jti.value == "" || |jti.value| > MAX_JTI_LENGTH then None
      else if address.IllTyped? || chain.IllTyped? || path.IllTyped? then None
      else Some(Payload(name.value, id.value, grant.value, iat.value, exp.value, jti.value,
                        Wallet(AsOption(address), AsOption(chain), AsOption(path))))
  }

  /** Parses a token and validates its structure, without signature or time. */
  function Decode(t: Token): Result<Payload, Error> {
    match t
    case NotAToken => Err(MALFORMED_ERROR)
    case Token(body, signature) =>
      if body.size > ATTESTATION_MAX_PAYLOAD || body.json.None? || signature.None? then Err(MALFORMED_ERROR)
      else if body.json.value.JNull? then Err(TypeError)
      else match ReadPayload(body.json.value)
        case Some(p) => Ok(p)
        case None => Err(MALFORMED_ERROR)
  }

  /** What a payload must satisfy to survive decoding. */
  predicate WellFormed(p: Payload) {
    && p.grant.maxSessionTtl > 0.0
    && p.iat < p.exp
    && 0 < |p.jti| <= MAX_JTI_LENGTH
  }

  /** The fields of a grant are these, an optional one being absent; other fields do not matter. */
  ghost predicate DescribesGrant(j: Json, g: Grant) {
    && Get(j, Scopes) == Some(JStrings(g.scopes)) && Get(j, MaxSessionTtl) == Some(JNum(g.maxSessionTtl))
    && Get(j, Audiences) == OfStrings(g.audiences) && Get(j, SubNamePatterns) == OfStrings(g.subNamePatterns)
  }

  ghost predicate DescribesSubject(j: Json, p: Payload) {
    && Get(j, Typ) == Some(JStr(ATTESTATION_TYPE))
    && Get(j, SubjectName) == Some(JStr(p.subjectName)) && Get(j, SubjectId) == Some(JStr(p.subjectId))
    && Get(j, GrantName).Some? && DescribesGrant(Get(j, GrantName).value, p.grant)
  }

  ghost predicate DescribesValidity(j: Json, p: Payload) {
    Get(j, Iat) == Some(JNum(p.iat)) && Get(j, Exp) == Some(JNum(p.exp)) && Get(j, Jti) == Some(JStr(p.jti))
  }

  ghost predicate DescribesWallet(j: Json, p: Payload) {
    && Get(j, SubjectWallet) == OfString(p.wallet.address)
    && Get(j, SubjectWalletChain) == OfString(p.wallet.chain)
    && Get(j, SubjectWalletPath) == OfString(p.wallet.path)
  }

  /** Every field the protocol knows has the type and the value that the payload gives it. */
  ghost predicate Describes(j: Json, p: Payload) {
    DescribesSubject(j, p) && DescribesValidity(j, p) && DescribesWallet(j, p)
  }

  lemma OptStringsExactly(j: Json, key: Name, o: Option<seq<string>>)
    ensures !OptStrings(j, key).IllTyped? && AsOption(OptStrings(j, key)) == o <==> Get(j, key) == OfStrings(o)
  {
    if Get(j, key).Some? && o.Some? {
      StringsExactly(Get(j, key).value, o.value);
    }
    if Get(j, key).Some? && IsStringArray(Get(j, key).value) {
      StringsExactly(Get(j, key).value, Strings(Get(j, key).value));
    }
  }

  lemma GrantExactly(j: Json, g: Grant)
    ensures ReadGrant(j) == Some(g) <==> DescribesGrant(j, g) && g.maxSessionTtl > 0.0
  {
    if Get(j, Scopes).Some? {
      StringsExactly(Get(j, Scopes).value, g.scopes);
    }
    OptStringsExactly(j, Audiences, g.audiences);
    OptStringsExactly(j, SubNamePatterns, g.subNamePatterns);
  }

  /**
   A JSON value reads as a payload exactly when it describes a well-formed one:
   anything missing, ill-typed, of another type of token or out of bounds is
   refused, and whatever else the value holds is ignored.
   */
  lemma ReadExactly(j: Json, p: Payload)
    ensures ReadPayload(j) == Some(p)
       <==> Describes(j, p) && p.grant.maxSessionTtl > 0.0 && p.iat < p.exp && 1 <= |p.jti| <= 256
  {
    if Get(j, GrantName).Some? {
      GrantExactly(Get(j, GrantName).value, p.grant);
    }
  }

  lemma PrintedGrant(g: Grant)
    ensures DescribesGrant(GrantToJson(g), g)
  {
  }

  lemma PrintedSubject(p: Payload)
    ensures DescribesSubject(ToJson(p), p)
  {
    PrintedGrant(p.grant);
    assert Get(ToJson(p), GrantName) == Some(GrantToJson(p.grant));
  }

  lemma PrintedValidity(p: Payload)
    ensures DescribesValidity(ToJson(p), p)
  {
  }

  lemma PrintedWallet(p: Payload)
    ensures DescribesWallet(ToJson(p), p)
  {
  }

  lemma DescribesOne(j: Json, p: Payload, q: Payload)
    requires Describes(j, p) && Describes(j, q)
    ensures p == q
  {
    StringsExactly(JStrings(p.grant.scopes), q.grant.scopes);
    StringsRoundTrip(p.grant.scopes);
    OptStringsExactly(Get(j, GrantName).value, Audiences, p.grant.audiences);
    OptStringsExactly(Get(j, GrantName).value, Audiences, q.grant.audiences);
    OptStringsExactly(Get(j, GrantName).value, SubNamePatterns, p.grant.subNamePatterns);
    OptStringsExactly(Get(j, GrantName).value, SubNamePatterns, q.grant.subNamePatterns);
  }

  /** Reading what was printed gives the payload back exactly when it is well formed. */
  lemma PayloadRoundTrip(p: Payload)
    ensures ReadPayload(ToJson(p)) == if WellFormed(p) then Some(p) else None
  {
    var r := ReadPayload(ToJson(p));
    PrintedSubject(p);
    PrintedValidity(p);
    PrintedWallet(p);
    ReadExactly(ToJson(p), p);
    if r.Some? {
      ReadExactly(ToJson(p), r.value);
      DescribesOne(ToJson(p), p, r.value);
    }
  }

  /**
   A token decodes exactly when it has two parts, the first no longer than the
   limit and JSON that describes a well-formed payload. Every other token is
   malformed, but for the text "null", on which the code trips.
   */
  lemma DecodeExactly(t: Token, p: Payload)
    ensures Decode(t) == Ok(p)
       <==> && t.Token? && t.signature.Some? && t.body.size <= 2048
            && t.body.json.Some? && Describes(t.body.json.value, p) && WellFormed(p)
    ensures Decode(t) == Err(TypeError)
       <==> t.Token? && t.signature.Some? && t.body.size <= 2048 && t.body.json == Some(JNull)
    ensures Decode(t).Err? ==> Decode(t).error in {TypeError, MALFORMED_ERROR}
  {
    if t.Token? && t.body.json.Some? {
      ReadExactly(t.body.json.value, p);
    }
  }

  // ----- Name patterns -----

  predicate EndsWithStar(pattern: string) {
    pattern != "" && pattern[|pattern| - 1] == '*'
  }

  predicate StartsWith(s: string, prefix: string) {
    prefix <= s
  }

  /** The matching loop: the first pattern that matches decides. */
  function MatchNamePattern(name: string, patterns: seq<string>): bool {
    if patterns == [] then false
    else
      var pattern := patterns[0];
      if pattern == "*" then true
      else if EndsWithStar(pattern) then
        StartsWith(name, pattern[..|pattern| - 1]) || MatchNamePattern(name, patterns[1..])
      else pattern == name || MatchNamePattern(name, patterns[1..])
  }

  /** Pattern semantics: the name itself, or a prefix of it followed by a star. */
  ghost predicate Permits(pattern: string, name: string) {
    || (pattern == name && !EndsWithStar(pattern))
    || (exists k :: 0 <= k <= |name| && pattern == name[..k] + "*")
  }

  lemma {:induction false} MatchMeansPermitted(name: string, patterns: seq<string>)
    ensures MatchNamePattern(name, patterns) <==> exists i :: 0 <= i < |patterns| && Permits(patterns[i], name)
  {
    if patterns != [] {
      var pattern, rest := patterns[0], patterns[1..];
      MatchMeansPermitted(name, rest);
      OnePattern(pattern, name);
      assert forall i :: 0 <= i < |rest| ==> rest[i] == patterns[i + 1];
      if exists i :: 0 <= i < |patterns| && Permits(patterns[i], name) {
        var i :| 0 <= i < |patterns| && Permits(patterns[i], name);
        assert i > 0 ==> Permits(rest[i - 1], name);
      }
    }
  }

  lemma OnePattern(pattern: string, name: string)
    ensures Permits(pattern, name)
       <==> if EndsWithStar(pattern) then StartsWith(name, pattern[..|pattern| - 1]) else pattern == name
  {
    if EndsWithStar(pattern) {
      var prefix := pattern[..|pattern| - 1];
      assert pattern == prefix + "*";
      if StartsWith(name, prefix) {
        assert prefix == name[..|prefix|];
      }
      forall k | 0 <= k <= |name| && pattern == name[..k] + "*" ensures prefix == name[..k] {
        assert pattern[..|pattern| - 1] == name[..k];
      }
    } else {
      forall k | 0 <= k <= |name| ensures pattern != name[..k] + "*" {
        assert EndsWithStar(name[..k] + "*");
      }
    }
  }

  // ----- Issuing -----

  /** The \s class of a JavaScript regular expression. */
  predicate IsSpace(c: char) {
    || c in "\t\n\r \U{00A0}\U{FEFF}\U{1680}\U{2028}\U{2029}\U{202F}\U{205F}\U{3000}"
    || c as int == 11 || c as int == 12
    || 0x2000 <= c as int <= 0x200A
  }

  /** That class by character codes. */
  lemma SpaceExactly(c: char)
    ensures IsSpace(c)
       <==> || 9 <= c as int <= 13 || c as int in {0x20, 0xA0, 0x1680, 0x202F, 0x205F, 0x3000, 0xFEFF}
            || 0x2000 <= c as int <= 0x200A || c as int == 0x2028 || c as int == 0x2029
  {
  }

  predicate IsWalletText(s: string) {
    s != "" && forall i :: 0 <= i < |s| ==> !IsSpace(s[i])
  }

  /** The adapter registry as issuing sees it: None when no adapter is registered for the chain. */
  datatype Chains = Chains(isValidChain: string -> bool, acceptsAddress: (string, string) -> Option<bool>)

  /** A chain or a path comes with an address, an address with a chain, and all of it is fit to be attested. */
  ghost predicate WalletAllowed(chains: Chains, w: Wallet) {
    && (w.chain.Some? || w.path.Some? ==> w.address.Some?)
    && (w.address.Some? ==>
          && w.chain.Some? && chains.isValidChain(w.chain.value)
          && (forall f :: f in [w.address, w.chain, w.path] && f.Some? ==> IsWalletText(f.value))
          && chains.acceptsAddress(w.chain.value, w.address.value) != Some(false))
  }

  /** The pairing rules precede every other check; the adapter check is last and fails closed. */
  function ValidateWalletOpts(chains: Chains, w: Wallet): (r: Result<Wallet, Error>)
    ensures r == if WalletAllowed(chains, w) then Ok(w) else Err(MALFORMED_ERROR)
  {
    if w.address.None? then
      if w.chain.Some? || w.path.Some? then Err(MALFORMED_ERROR) else Ok(w)
    else if w.chain.None? then Err(MALFORMED_ERROR)
    else if !IsWalletText(w.address.value) || !IsWalletText(w.chain.value) then Err(MALFORMED_ERROR)
    else if w.path.Some? && !IsWalletText(w.path.value) then Err(MALFORMED_ERROR)
    else if !chains.isValidChain(w.chain.value) then Err(MALFORMED_ERROR)
    else if chains.acceptsAddress(w.chain.value, w.address.value) == Some(false) then Err(MALFORMED_ERROR)
    else Ok(w)
  }

  /** A star may only be the last character of a pattern. */
  predicate ValidPattern(pattern: string) {
    forall i :: 0 <= i < |pattern| - 1 ==> pattern[i] != '*'
  }

  datatype IssueOpts = IssueOpts(
    ttlSeconds: Option<real>, expiresAt: Option<real>, jti: Option<string>, now: Option<real>, wallet: Wallet)

  /** Clock, random id and serialised length at the time of the call. */
  datatype Ambient = Ambient(clock: int, uuid: string, size: nat, chains: Chains)

  datatype Attested = Attested(payload: Payload, token: Token)

  function GetOr<T>(o: Option<T>, default: T): T {
    match o case Some(v) => v case None => default
  }

  function Issue(env: Env, signer: Bytes, subjectId: string, subjectName: string, grant: Grant,
                 opts: IssueOpts, amb: Ambient): Result<Attested, Error>
  {
    var name := NormalizeName(env.canon, subjectName);
    if name.Err? then Err(name.error)
    else if opts.jti.Some? && !(0 < |opts.jti.value| <= MAX_JTI_LENGTH) then Err(MALFORMED_ERROR)
    else if grant.maxSessionTtl <= 0.0 then Err(MALFORMED_ERROR)
    else if grant.subNamePatterns.Some? && exists p :: p in grant.subNamePatterns.value && !ValidPattern(p)
        then Err(MALFORMED_ERROR)
    else
      var wallet := ValidateWalletOpts(amb.chains, opts.wallet);
      if wallet.Err? then Err(wallet.error)
      else
        var now := GetOr(opts.now, amb.clock as real);
        var exp := GetOr(opts.expiresAt, now + GetOr(opts.ttlSeconds, DEFAULT_TTL_SECONDS));
        var payload := Payload(name.value, subjectId, grant, now, exp, GetOr(opts.jti, amb.uuid), wallet.value);
        Ok(Attested(payload, Sign(signer, Stringify(ToJson(payload), amb.size))))
  }

  /** What issuing demands of the grant and the options: a star stands only at the end of a pattern. */
  ghost predicate Issuable(grant: Grant, opts: IssueOpts, amb: Ambient) {
    && grant.maxSessionTtl > 0.0
    && (grant.subNamePatterns.Some? ==>
          forall p: string, i :: p in grant.subNamePatterns.value && 0 <= i < |p| && p[i] == '*' ==> i == |p| - 1)
    && (opts.jti.Some? ==> 1 <= |opts.jti.value| <= 256)
    && WalletAllowed(amb.chains, opts.wallet)
  }

  /** An attestation is issued exactly for a name that normalizes under such a grant and such options. */
  lemma IssueExactly(env: Env, signer: Bytes, subjectId: string, subjectName: string, grant: Grant,
                     opts: IssueOpts, amb: Ambient)
    ensures var r := Issue(env, signer, subjectId, subjectName, grant, opts, amb);
            && (r.Ok? <==> NamePattern(env.canon(subjectName)) && Issuable(grant, opts, amb))
            && (r.Err? ==> r.error == MALFORMED_ERROR)
  {
    if grant.subNamePatterns.Some? {
      forall p | p in grant.subNamePatterns.value
        ensures ValidPattern(p) <==> forall i :: 0 <= i < |p| && p[i] == '*' ==> i == |p| - 1
      {
      }
    }
  }

  /** Start, end and id of what is issued, from the options and the moment of the call. */
  function Start(opts: IssueOpts, amb: Ambient): real {
    if opts.now.Some? then opts.now.value else amb.clock as real
  }

  function End(opts: IssueOpts, amb: Ambient): real {
    if opts.expiresAt.Some? then opts.expiresAt.value
    else Start(opts, amb) + GetOr(opts.ttlSeconds, DEFAULT_TTL_SECONDS)
  }

  function Id(opts: IssueOpts, amb: Ambient): string {
    if opts.jti.Some? then opts.jti.value else amb.uuid
  }

  /** What issuing does not check: a positive lifetime, a text that fits, and a random id that fits. */
  predicate Decodable(opts: IssueOpts, amb: Ambient) {
    && amb.size <= ATTESTATION_MAX_PAYLOAD
    && Start(opts, amb) < End(opts, amb)
    && (opts.jti.None? ==> 0 < |amb.uuid| <= MAX_JTI_LENGTH)
  }

  /**
   What was issued speaks of a canonical name, the subject and the grant given,
   for the lifetime given; and it decodes to its own payload exactly when its
   options pass what issuing does not check.
   */
  lemma IssuedDecodes(env: Env, signer: Bytes, subjectId: string, subjectName: string, grant: Grant,
                      opts: IssueOpts, amb: Ambient)
    requires Issue(env, signer, subjectId, subjectName, grant, opts, amb).Ok?
    ensures var a := Issue(env, signer, subjectId, subjectName, grant, opts, amb).value;
            && SignedBy(env, a.token, env.publicKey(signer))
            && NormalizeName(env.canon, subjectName) == Ok(a.payload.subjectName)
            && a.payload.subjectId == subjectId && a.payload.grant == grant && a.payload.wallet == opts.wallet
            && a.payload.iat == Start(opts, amb) && a.payload.exp == End(opts, amb)
            && a.payload.jti == Id(opts, amb)
            && Decode(a.token) == if Decodable(opts, amb) then Ok(a.payload) else Err(MALFORMED_ERROR)
  {
    PayloadRoundTrip(Issue(env, signer, subjectId, subjectName, grant, opts, amb).value.payload);
  }

  /** A lifetime of zero seconds is issued and does not decode. */
  lemma UndecodableExample(env: Env, chains: Chains, signer: Bytes, subjectId: string)
    requires CanonOk(env.canon)
    ensures var grant := Grant(None, [], 10.0, None);
            var opts := IssueOpts(Some(0.0), None, Some("j"), Some(0.0), Wallet(None, None, None));
            var issued := Issue(env, signer, subjectId, "a", grant, opts, Ambient(0, "u", 100, chains));
            issued.Ok? && Decode(issued.value.token) == Err(MALFORMED_ERROR)
  {
    var grant := Grant(None, [], 10.0, None);
    var opts := IssueOpts(Some(0.0), None, Some("j"), Some(0.0), Wallet(None, None, None));
    assert NamePattern("a");
    IssuedDecodes(env, signer, subjectId, "a", grant, opts, Ambient(0, "u", 100, chains));
  }
}
