/** JSON values as JSON.parse yields them. A numeral too large for a double parses to an infinity. */
module Json {
  import opened Basics

  /** The property names the protocol uses, and every other one. */
  datatype Name =
    | HId | HNm | HPath | Aud | Scp | Exp | Iat | Jti
    | Typ | SubjectName | SubjectId | GrantName
    | Audiences | Scopes | MaxSessionTtl | SubNamePatterns
    | SubjectWallet | SubjectWalletChain | SubjectWalletPath
    | OtherName(text: string)

  datatype Json =
    | JNull
    | JBool(b: bool)
    | JNum(v: real)
    | JInf
    | JStr(s: string)
    | JArr(items: seq<Json>)
    | JObj(fields: map<Name, Json>)

  /** Property access; undefined when absent. */
  function Get(j: Json, key: Name): Option<Json> {
    if j.JObj? && key in j.fields then Some(j.fields[key]) else None
  }

  function GetString(j: Json, key: Name): Option<string> {
    match Get(j, key)
    case Some(JStr(s)) => Some(s)
    case _ => None
  }

  /** A finite number. */
  function GetNumber(j: Json, key: Name): Option<real> {
    match Get(j, key)
    case Some(JNum(v)) => Some(v)
    case _ => None
  }

  predicate IsStringArray(j: Json) {
    j.JArr? && forall i :: 0 <= i < |j.items| ==> j.items[i].JStr?
  }

  function Strings(j: Json): seq<string>
    requires IsStringArray(j)
  {
    seq(|j.items|, i requires 0 <= i < |j.items| => j.items[i].s)
  }

  function JStrings(ss: seq<string>): Json {
    JArr(seq(|ss|, i requires 0 <= i < |ss| => JStr(ss[i])))
  }

  lemma StringsRoundTrip(ss: seq<string>)
    ensures IsStringArray(JStrings(ss)) && Strings(JStrings(ss)) == ss
  {
    var j := JStrings(ss);
    assert forall i :: 0 <= i < |ss| ==> j.items[i] == JStr(ss[i]);
  }

  /** A JSON value reads as these strings exactly when it is their printed array. */
  lemma StringsExactly(j: Json, ss: seq<string>)
    ensures IsStringArray(j) && Strings(j) == ss <==> j == JStrings(ss)
  {
    StringsRoundTrip(ss);
    if IsStringArray(j) && Strings(j) == ss {
      assert forall i :: 0 <= i < |ss| ==> j.items[i] == JStr(Strings(j)[i]);
      assert j.items == JStrings(ss).items;
    }
  }

  /** A required array of strings. */
  function GetStrings(j: Json, key: Name): Option<seq<string>> {
    match Get(j, key)
    case Some(v) => if IsStringArray(v) then Some(Strings(v)) else None
    case None => None
  }

  /** An optional field: absent is fine, ill-typed is not. */
  datatype Field<+T> = Absent | Present(value: T) | IllTyped

  function OptStrings(j: Json, key: Name): Field<seq<string>> {
    match Get(j, key)
    case None => Absent
    case Some(v) => if IsStringArray(v) then Present(Strings(v)) else IllTyped
  }

  function OptString(j: Json, key: Name): Field<string> {
    match Get(j, key)
    case None => Absent
    case Some(JStr(s)) => Present(s)
    case _ => IllTyped
  }

  function AsOption<T>(f: Field<T>): Option<T> {
    match f
    case Present(v) => Some(v)
    case _ => None
  }

  /** An object with one more field, when there is a value for it. */
  function With(j: map<Name, Json>, key: Name, v: Option<Json>): map<Name, Json> {
    if v.Some? then j[key := v.value] else j
  }

  function OfString(s: Option<string>): Option<Json> {
    match s case Some(v) => Some(JStr(v)) case None => None
  }

  function OfStrings(s: Option<seq<string>>): Option<Json> {
    match s case Some(v) => Some(JStrings(v)) case None => None
  }
}
