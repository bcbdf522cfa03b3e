/** The derivation tree: identity, handles, sub-handles. */
module Keys {
  import opened Basics
  import opened Errors
  import opened Primitives
  import opened Names
  import opened DerivationPaths
  import opened Tokens

  function Derive(key: Bytes, d: Derivation): (child: Bytes)
    ensures |child| == 32
  {
    Hkdf(key, [], Info(d), 32)
  }

  function DeriveRootKey(seed: Bytes): Bytes {
    Derive(seed, IdentityRoot)
  }

  /** The info string printer normalizes its argument again. */
  function DeriveHandleKey(env: Env, rootKey: Bytes, name: string): Result<Bytes, Error> {
    match NormalizeName(env.canon, name)
    case Err(e) => Err(e)
    case Ok(n) => Ok(Derive(rootKey, HandleKey(n)))
  }

  function DeriveSubHandleKey(env: Env, handleKey: Bytes, handleName: string, subName: string): Result<Bytes, Error> {
    match NormalizeName(env.canon, handleName)
    case Err(e) => Err(e)
    case Ok(h) =>
      match NormalizeName(env.canon, subName)
      case Err(e) => Err(e)
      case Ok(s) => Ok(Derive(handleKey, SubHandleKey(h, s)))
  }

  /** A handle's key, name, and (for a sub-handle) derivation path. */
  datatype HandleValue = HandleValue(key: Bytes, name: string, path: Option<(string, string)>)

  /** Identity.deriveHandle */
  function DeriveHandle(env: Env, rootKey: Bytes, name: string): Result<HandleValue, Error> {
    match NormalizeName(env.canon, name)
    case Err(e) => Err(e)
    case Ok(n) =>
      match DeriveHandleKey(env, rootKey, n)
      case Err(e) => Err(e)
      case Ok(k) => Ok(HandleValue(k, n, None))
  }

  /** The SubHandle constructor checks its path against its normalized name. */
  function MakeSubHandle(env: Env, key: Bytes, name: string, path: (string, string)): Result<HandleValue, Error> {
    match NormalizeName(env.canon, name)
    case Err(e) => Err(e)
    case Ok(n) => if path.1 != n then Err(MALFORMED_ERROR) else Ok(HandleValue(key, name, Some(path)))
  }

  /** Identity.deriveSubHandle: one call, without the intermediate handle. */
  function DeriveSubHandleAtOnce(env: Env, rootKey: Bytes, handleName: string, subName: string)
    : Result<HandleValue, Error>
  {
    match NormalizeName(env.canon, handleName)
    case Err(e) => Err(e)
    case Ok(h) =>
      match NormalizeName(env.canon, subName)
      case Err(e) => Err(e)
      case Ok(s) =>
        match DeriveHandleKey(env, rootKey, h)
        case Err(e) => Err(e)
        case Ok(handleKey) =>
          match DeriveSubHandleKey(env, handleKey, h, s)
          case Err(e) => Err(e)
          case Ok(subKey) => MakeSubHandle(env, subKey, s, (h, s))
  }

  /** Handle.deriveSubHandle; a sub-handle is a leaf. */
  function DeriveSubHandle(env: Env, handle: HandleValue, subName: string): Result<HandleValue, Error> {
    if handle.path.Some? then Err(AttestationError(MAX_DEPTH_EXCEEDED, FORMAT))
    else
      match NormalizeName(env.canon, subName)
      case Err(e) => Err(e)
      case Ok(s) =>
        match DeriveSubHandleKey(env, handle.key, handle.name, s)
        case Err(e) => Err(e)
        case Ok(subKey) => MakeSubHandle(env, subKey, s, (handle.name, s))
  }

  /** Deriving a sub-handle in one step from the identity or in two steps through its handle is the same. */
  lemma OneStepIsTwoSteps(env: Env, rootKey: Bytes, handleName: string, subName: string)
    requires EnvOk(env)
    ensures DeriveSubHandleAtOnce(env, rootKey, handleName, subName)
         == match DeriveHandle(env, rootKey, handleName)
            case Err(e) => Err(e)
            case Ok(handle) => DeriveSubHandle(env, handle, subName)
  {
  }

  /** The places in the tree below one seed. */
  datatype Position = RootAt | HandleAt(name: string) | SubHandleAt(handleName: string, subName: string)

  predicate CanonicalPosition(p: Position) {
    match p
    case RootAt => true
    case HandleAt(name) => NamePattern(name)
    case SubHandleAt(handleName, subName) => NamePattern(handleName) && NamePattern(subName)
  }

  /** The key at a place, by canonical names. */
  function KeyAt(seed: Bytes, p: Position): Bytes {
    match p
    case RootAt => DeriveRootKey(seed)
    case HandleAt(name) => Derive(DeriveRootKey(seed), HandleKey(name))
    case SubHandleAt(h, s) => Derive(Derive(DeriveRootKey(seed), HandleKey(h)), SubHandleKey(h, s))
  }

  lemma DeriveInjective(key: Bytes, d: Derivation, key': Bytes, d': Derivation)
    requires Canonical(d) && Canonical(d')
    ensures Derive(key, d) == Derive(key', d') <==> key == key' && d == d'
  {
    HkdfInjective(key, [], Info(d), key', [], Info(d'), 32);
    InfoInjective(d, d');
  }

  lemma RootKeyInjective(seed: Bytes, seed': Bytes)
    ensures DeriveRootKey(seed) == DeriveRootKey(seed') <==> seed == seed'
  {
    DeriveInjective(seed, IdentityRoot, seed', IdentityRoot);
  }

  lemma HandleKeyInjective(seed: Bytes, h: string, seed': Bytes, h': string)
    requires NamePattern(h) && NamePattern(h')
    ensures KeyAt(seed, HandleAt(h)) == KeyAt(seed', HandleAt(h')) <==> seed == seed' && h == h'
  {
    RootKeyInjective(seed, seed');
    DeriveInjective(DeriveRootKey(seed), HandleKey(h), DeriveRootKey(seed'), HandleKey(h'));
  }

  /** The last derivation on the way to a place, and the key it starts from. */
  function LastStep(seed: Bytes, p: Position): (step: (Bytes, Derivation))
    requires CanonicalPosition(p)
    ensures Canonical(step.1) && Derive(step.0, step.1) == KeyAt(seed, p)
  {
    match p
    case RootAt => (seed, IdentityRoot)
    case HandleAt(name) => (DeriveRootKey(seed), HandleKey(name))
    case SubHandleAt(h, s) => (KeyAt(seed, HandleAt(h)), SubHandleKey(h, s))
  }

  /**
   No key occurs twice: keys of identities, handles and sub-handles below any
   seeds are equal exactly at the same place below the same seed.
   */
  lemma KeyTreeInjective(seed: Bytes, p: Position, seed': Bytes, p': Position)
    requires CanonicalPosition(p) && CanonicalPosition(p')
    ensures KeyAt(seed, p) == KeyAt(seed', p') <==> seed == seed' && p == p'
  {
    var (key, d) := LastStep(seed, p);
    var (key', d') := LastStep(seed', p');
    DeriveInjective(key, d, key', d');
    if d == d' && d.HandleKey? {
      HandleKeyInjective(seed, d.name, seed', d.name);
    } else if d == d' && d.SubHandleKey? {
      HandleKeyInjective(seed, d.handleName, seed', d.handleName);
    }
  }

  /** So no two of them have the same public key. */
  lemma PublicKeysDiffer(env: Env, seed: Bytes, p: Position, seed': Bytes, p': Position)
    requires EnvOk(env) && CanonicalPosition(p) && CanonicalPosition(p')
    ensures env.publicKey(KeyAt(seed, p)) == env.publicKey(KeyAt(seed', p')) <==> seed == seed' && p == p'
  {
    KeyTreeInjective(seed, p, seed', p');
  }

  /** Deriving a handle succeeds exactly for names that normalize, and yields the key at that name's place. */
  lemma DerivedHandle(env: Env, seed: Bytes, name: string)
    requires EnvOk(env)
    ensures var n := env.canon(name);
            DeriveHandle(env, DeriveRootKey(seed), name)
            == if NamePattern(n) then Ok(HandleValue(KeyAt(seed, HandleAt(n)), n, None)) else Err(MALFORMED_ERROR)
  {
  }

  /** Of a handle's sub-handles the same holds; a sub-handle has none. */
  lemma DerivedFromHandle(env: Env, handle: HandleValue, subName: string)
    requires EnvOk(env) && NamePattern(handle.name)
    ensures var s := env.canon(subName);
            DeriveSubHandle(env, handle, subName)
            == if handle.path.Some? then Err(AttestationError(MAX_DEPTH_EXCEEDED, FORMAT))
               else if NamePattern(s)
               then Ok(HandleValue(Derive(handle.key, SubHandleKey(handle.name, s)), s, Some((handle.name, s))))
               else Err(MALFORMED_ERROR)
  {
  }

  /** What derivation yields, by canonical names. */
  lemma DerivedSubHandle(env: Env, rootKey: Bytes, handleName: string, subName: string)
    requires EnvOk(env)
    ensures var h, s := NormalizeName(env.canon, handleName), NormalizeName(env.canon, subName);
            DeriveSubHandleAtOnce(env, rootKey, handleName, subName)
            == if h.Ok? && s.Ok?
               then Ok(HandleValue(Derive(Derive(rootKey, HandleKey(h.value)), SubHandleKey(h.value, s.value)),
                                   s.value, Some((h.value, s.value))))
               else Err(MALFORMED_ERROR)
  {
  }

  /** Different identities, handle names or sub-handle names never lead to the same sub-handle key. */
  lemma SubHandleKeysIsolated(env: Env, rootKey: Bytes, h: string, s: string, rootKey': Bytes, h': string, s': string)
    requires EnvOk(env)
    requires DeriveSubHandleAtOnce(env, rootKey, h, s).Ok? && DeriveSubHandleAtOnce(env, rootKey', h', s').Ok?
    ensures DeriveSubHandleAtOnce(env, rootKey, h, s).value.key
              == DeriveSubHandleAtOnce(env, rootKey', h', s').value.key
       <==> rootKey == rootKey' && NormalizeName(env.canon, h) == NormalizeName(env.canon, h')
            && NormalizeName(env.canon, s) == NormalizeName(env.canon, s')
  {
    var a, b := NormalizeName(env.canon, h).value, NormalizeName(env.canon, s).value;
    var a', b' := NormalizeName(env.canon, h').value, NormalizeName(env.canon, s').value;
    var hk, hk' := Derive(rootKey, HandleKey(a)), Derive(rootKey', HandleKey(a'));
    DeriveInjective(hk, SubHandleKey(a, b), hk', SubHandleKey(a', b'));
    DeriveInjective(rootKey, HandleKey(a), rootKey', HandleKey(a'));
  }
}
