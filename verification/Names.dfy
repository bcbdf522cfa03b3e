/** Canonical names. NFKC, lower-casing and trimming together are a parameter. */
module Names {
  import opened Basics
  import opened Errors

  predicate IsNameStart(c: char) {
    'a' <= c <= 'z' || '0' <= c <= '9'
  }

  predicate IsNameChar(c: char) {
    IsNameStart(c) || c == '.' || c == '_' || c == '@' || c == '-'
  }

  /** /^[a-z0-9][a-z0-9._@-]{0,62}$/ */
  predicate NamePattern(s: string) {
    && 1 <= |s| <= 63
    && IsNameStart(s[0])
    && forall i :: 0 <= i < |s| ==> IsNameChar(s[i])
  }

  /** At most 63 characters, all of them from this list, and the first a letter or a digit. */
  lemma NamePatternExactly(s: string)
    ensures NamePattern(s)
       <==> && 1 <= |s| <= 63 && s[0] !in "._@-"
            && forall i :: 0 <= i < |s| ==> s[i] in "abcdefghijklmnopqrstuvwxyz0123456789._@-"
  {
    forall i | 0 <= i < |s| ensures IsNameChar(s[i]) <==> s[i] in "abcdefghijklmnopqrstuvwxyz0123456789._@-" {
      NameCharExactly(s[i]);
    }
    if s != "" {
      NameStartExactly(s[0]);
    }
  }

  lemma NameCharExactly(c: char)
    ensures IsNameChar(c) <==> c in "abcdefghijklmnopqrstuvwxyz0123456789._@-"
  {
  }

  lemma NameStartExactly(c: char)
    ensures IsNameStart(c) <==> IsNameChar(c) && c !in "._@-"
  {
  }

  /** What the Unicode tables must satisfy: nothing to change in a name that is already canonical. */
  ghost predicate CanonOk(canon: string -> string) {
    forall s: string :: NamePattern(s) ==> canon(s) == s
  }

  function NormalizeName(canon: string -> string, raw: string): (r: Result<string, Error>)
    ensures r.Ok? ==> NamePattern(r.value)
    ensures r.Err? ==> r.error == MALFORMED_ERROR
  {
    var name := canon(raw);
    if NamePattern(name) then Ok(name) else Err(MALFORMED_ERROR)
  }

  lemma NormalizeIdempotent(canon: string -> string, raw: string)
    requires CanonOk(canon) && NormalizeName(canon, raw).Ok?
    ensures NormalizeName(canon, NormalizeName(canon, raw).value) == NormalizeName(canon, raw)
  {
  }
}
