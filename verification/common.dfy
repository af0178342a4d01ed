/** JavaScript values as the request handlers receive them, and the helpers
    the handlers share: absent-or-present values, map lookup, `trim` and the
    normalisation of form flags. */
module Js {

  /** `undefined`/`null` (None) or a present value (Some). */
  datatype Option<+T> = None | Some(value: T)

  /** A document lookup by key: the record, or None when there is none. */
  function Get<K, V>(m: map<K, V>, k: K): (r: Option<V>)
    ensures r.Some? <==> k in m
    ensures r.Some? ==> r.value == m[k]
  {
    if k in m then Some(m[k]) else None
  }

  /** A value taken from a JSON body or a multipart form field. JSON numbers
      are modelled by their integer value. */
  datatype Value = Undefined | Null | Bool(b: bool) | Num(n: int) | Str(s: string)

  /** `v === 'true' || v === true`: how a form field becomes a stored boolean.
      Form data arrives as strings, JSON as booleans; anything else is false. */
  predicate IsTrueFlag(v: Value)
  {
    v == Str("true") || v == Bool(true)
  }

  lemma IsTrueFlagCases(v: Value)
    ensures IsTrueFlag(v) <==> v == Str("true") || v == Bool(true)
    ensures !IsTrueFlag(Str("false")) && !IsTrueFlag(Bool(false))
    ensures !IsTrueFlag(Undefined) && !IsTrueFlag(Null) && !IsTrueFlag(Str("TRUE")) && !IsTrueFlag(Num(1))
  {
  }

  /** The characters `String.prototype.trim` removes: ECMAScript WhiteSpace
      and LineTerminator code points. */
  predicate IsWhitespace(c: char)
  {
    c == '\t' || c == '\n' || c == '\U{0B}' || c == '\U{0C}' || c == '\r' || c == ' '
    || c == '\U{A0}' || c == '\U{1680}' || ('\U{2000}' <= c <= '\U{200A}')
    || c == '\U{2028}' || c == '\U{2029}' || c == '\U{202F}' || c == '\U{205F}'
    || c == '\U{3000}' || c == '\U{FEFF}'
  }

  /** Drops leading whitespace: the result is a suffix of `s` starting at a
      non-whitespace character, and everything dropped was whitespace. */
  function TrimStart(s: string): (r: string)
    ensures |r| <= |s| && r == s[|s| - |r|..]
    ensures forall k :: 0 <= k < |s| - |r| ==> IsWhitespace(s[k])
    ensures r == [] || !IsWhitespace(r[0])
  {
    if s != [] && IsWhitespace(s[0]) then TrimStart(s[1..]) else s
  }

  /** Drops trailing whitespace: the result is a prefix of `s` ending at a
      non-whitespace character, and everything dropped was whitespace. */
  function TrimEnd(s: string): (r: string)
    ensures |r| <= |s| && r == s[..|r|]
    ensures forall k :: |r| <= k < |s| ==> IsWhitespace(s[k])
    ensures r == [] || !IsWhitespace(r[|r| - 1])
  {
    if s != [] && IsWhitespace(s[|s| - 1]) then TrimEnd(s[..|s| - 1]) else s
  }

  /** `s.trim()`. */
  function Trim(s: string): string
  {
    TrimEnd(TrimStart(s))
  }

  /** A trimmed string is empty exactly when the original is all whitespace;
      otherwise it is a piece of the original that neither starts nor ends
      with whitespace. */
  lemma TrimRules(s: string)
    ensures Trim(s) == [] <==> forall k :: 0 <= k < |s| ==> IsWhitespace(s[k])
    ensures Trim(s) != [] ==> !IsWhitespace(Trim(s)[0]) && !IsWhitespace(Trim(s)[|Trim(s)| - 1])
    ensures |Trim(s)| <= |s|
  {
    var t := TrimStart(s);
    var r := TrimEnd(t);
    assert |r| <= |t| <= |s|;
    if r == [] {
      // TrimStart stops at a non-whitespace character, which TrimEnd would keep
      assert t == [];
      assert forall k :: 0 <= k < |s| - |t| ==> IsWhitespace(s[k]);
    } else {
      assert r == t[..|r|];
      assert t[0] == r[0];
      assert t[0] == s[|s| - |t|];
    }
  }
}

/** HTTP replies of the request handlers: a status code with a value, or a
    status code with the message the handler sends. */
module Http {

  datatype Error = Error(status: nat, message: string)

  datatype Result<+T> = Ok(status: nat, value: T) | Err(error: Error)
}
