/** HKDF info strings: every derivation of the protocol has its own. */
module DerivationPaths {
  import opened Decimals
  import opened Names

  /** One derivation, by family and canonical arguments. */
  datatype Derivation =
    | IdentityRoot
    | HandleKey(name: string)
    | SubHandleKey(handleName: string, subName: string)
    | P2pChannel
    | Secret(revision: nat)
    | ChannelKey(revision: nat)

  predicate Canonical(d: Derivation) {
    match d
    case HandleKey(name) => NamePattern(name)
    case SubHandleKey(handleName, subName) => NamePattern(handleName) && NamePattern(subName)
    case Secret(revision) => revision >= 1
    case ChannelKey(revision) => revision >= 1
    case _ => true
  }

  function RevisionSuffix(revision: nat): string {
    if revision == 1 then "" else "/r" + Decimal(revision)
  }

  function Info(d: Derivation): string {
    match d
    case IdentityRoot => "me2em/identity/v1/root"
    case HandleKey(name) => "me2em/handle/v1/" + name
    case SubHandleKey(handleName, subName) => "me2em/subhandle/v1/" + handleName + "/" + subName
    case P2pChannel => "me2em/p2p-channel/v2"
    case Secret(revision) => "me2em/secret/v1" + RevisionSuffix(revision)
    case ChannelKey(revision) => "me2em/channel/v1" + RevisionSuffix(revision)
  }

  /** A separator that occurs in neither name splits a string in one way only. */
  lemma SplitUnique(a: string, b: string, a': string, b': string)
    requires '/' !in a && '/' !in a'
    requires a + "/" + b == a' + "/" + b'
    ensures a == a' && b == b'
  {
    var s, s' := a + "/" + b, a' + "/" + b';
    assert s[|a|] == '/' && s'[|a'|] == '/';
    assert forall i :: 0 <= i < |a| ==> s[i] == a[i];
    assert forall i :: 0 <= i < |a'| ==> s'[i] == a'[i];
    assert |a| == |a'|;
    assert a == s[..|a|] && a' == s'[..|a|] && b == s[|a| + 1..] && b' == s'[|a| + 1..];
  }

  lemma NoSlashInName(name: string)
    requires NamePattern(name)
    ensures '/' !in name
  {
  }

  lemma SameTail(prefix: string, x: string, y: string)
    requires prefix + x == prefix + y
    ensures x == y
  {
    assert x == (prefix + x)[|prefix|..] && y == (prefix + y)[|prefix|..];
  }

  lemma RevisionSuffixInjective(m: nat, n: nat)
    requires RevisionSuffix(m) == RevisionSuffix(n)
    ensures m == n
  {
    if m != 1 && n != 1 {
      SameTail("/r", Decimal(m), Decimal(n));
      DecimalInjective(m, n);
    }
  }

  /** The seventh and eighth characters of an info string already tell its family. */
  function FamilyMark(d: Derivation): string {
    match d
    case IdentityRoot => "id"
    case HandleKey(_) => "ha"
    case SubHandleKey(_, _) => "su"
    case P2pChannel => "p2"
    case Secret(_) => "se"
    case ChannelKey(_) => "ch"
  }

  lemma InfoHasMark(d: Derivation)
    ensures |Info(d)| >= 8 && Info(d)[6..8] == FamilyMark(d)
  {
    var s := Info(d);
    assert s[6..8] == [s[6], s[7]];
    match d
    case SubHandleKey(a, b) => assert s == "me2em/subhandle/v1/" + (a + "/" + b);
    case _ =>
  }

  /** Over all canonical arguments, the six families are pairwise disjoint and each printer is injective. */
  lemma InfoInjective(d: Derivation, e: Derivation)
    requires Canonical(d) && Canonical(e)
    ensures Info(d) == Info(e) <==> d == e
  {
    if Info(d) == Info(e) {
      InfoHasMark(d);
      InfoHasMark(e);
      match d
      case HandleKey(name) =>
        assert e.HandleKey?;
        SameTail("me2em/handle/v1/", name, e.name);
      case SubHandleKey(a, b) =>
        assert e.SubHandleKey?;
        var prefix := "me2em/subhandle/v1/";
        assert Info(d) == prefix + (a + "/" + b) && Info(e) == prefix + (e.handleName + "/" + e.subName);
        SameTail(prefix, a + "/" + b, e.handleName + "/" + e.subName);
        NoSlashInName(a);
        NoSlashInName(e.handleName);
        SplitUnique(a, b, e.handleName, e.subName);
      case Secret(n) =>
        assert e.Secret?;
        SameTail("me2em/secret/v1", RevisionSuffix(n), RevisionSuffix(e.revision));
        RevisionSuffixInjective(n, e.revision);
      case ChannelKey(n) =>
        assert e.ChannelKey?;
        SameTail("me2em/channel/v1", RevisionSuffix(n), RevisionSuffix(e.revision));
        RevisionSuffixInjective(n, e.revision);
      case _ =>
    }
  }
}
