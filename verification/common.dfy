/**
 Shared vocabulary of the e-learning backend model: optional values, the
 HTTP-style replies the controllers produce, and the ASCII upper-casing
 used for course PIN codes.
 */
module Common {

  /** A value that may be absent (a nullable column, a missing request key). */
  datatype Option<+T> = None | Some(value: T)

  /** HTTP status codes the controllers answer with on failure. */
  const Unauthorized: nat := 401
  const Forbidden: nat := 403
  const NotFound: nat := 404
  const Unprocessable: nat := 422

  /** What a controller action answers: a successful payload, or a failure
      status with its message. A failed action writes nothing. */
  datatype Reply<+T> = Ok(value: T) | Fail(status: nat, message: string)

  /** Message of a 404 raised by route-model binding or findOrFail. */
  const NoQueryResults: string := "No query results for model."

  /** Message of a 403 raised by a failed Gate::authorize or authorize. */
  const ThisActionIsUnauthorized: string := "This action is unauthorized."

  /** Longest accepted string field (the max:255 rule of names, emails and
      course and news titles). */
  const MaxStringLength: nat := 255

  /** The elements of `s` satisfying `keep`, in their original order (a
      query's where-clause). */
  function Filter<T(!new)>(s: seq<T>, keep: T -> bool): (r: seq<T>)
    ensures |r| <= |s|
    ensures forall x :: x in r <==> x in s && keep(x)
  {
    if |s| == 0 then []
    else if keep(s[0]) then [s[0]] + Filter(s[1..], keep)
    else Filter(s[1..], keep)
  }

  /** Filtering keeps a sequence whose every element passes. */
  lemma {:induction false} FilterKeepsAll<T(!new)>(s: seq<T>, keep: T -> bool)
    requires forall i :: 0 <= i < |s| ==> keep(s[i])
    ensures Filter(s, keep) == s
  {
    if |s| > 0 {
      FilterKeepsAll(s[1..], keep);
    }
  }

  /** Filtering drops an appended element that fails, and only it. */
  lemma {:induction false} FilterDropsLast<T(!new)>(s: seq<T>, x: T, keep: T -> bool)
    requires !keep(x)
    ensures Filter(s + [x], keep) == Filter(s, keep)
  {
    if |s| == 0 {
      assert s + [x] == [x];
      assert [x][1..] == [];
    } else {
      assert (s + [x])[0] == s[0];
      assert (s + [x])[1..] == s[1..] + [x];
      FilterDropsLast(s[1..], x, keep);
    }
  }

  /** A character PHP's trim strips: space, tab, newline, carriage return,
      NUL and vertical tab. */
  predicate IsTrimmable(c: char) {
    c == ' ' || c == '\t' || c == '\n' || c == '\r' || c as int == 0 || c as int == 11
  }

  /** Laravel's `required` rule on a string: it fails on a value that is
      empty once trimmed, so the string needs a character trim keeps. */
  predicate Required(s: string) {
    exists i :: 0 <= i < |s| && !IsTrimmable(s[i])
  }

  predicate IsLowerAscii(c: char) {
    'a' <= c <= 'z'
  }

  /** Upper-case of one character, ASCII letters only (PHP's strtoupper and
      Str::upper leave every other character as it is for the alphanumeric
      input they receive here). */
  function UpperChar(c: char): (u: char)
    ensures !IsLowerAscii(u)
    ensures IsLowerAscii(c) ==> u as int == c as int - 32
    ensures !IsLowerAscii(c) ==> u == c
  {
    if IsLowerAscii(c) then (c as int - 32) as char else c
  }

  /** Upper-case of a string, character by character. */
  function Upper(s: string): (u: string)
    ensures |u| == |s|
    ensures forall i :: 0 <= i < |s| ==> u[i] == UpperChar(s[i])
  {
    seq(|s|, i requires 0 <= i < |s| => UpperChar(s[i]))
  }

  /** A string with no lower-case ASCII letter. */
  predicate IsUpperCase(s: string) {
    forall i :: 0 <= i < |s| ==> !IsLowerAscii(s[i])
  }

  /** `a` spells `b` up to ASCII letter case, where `b` is already upper-case:
      each character of `a` is the one of `b` or its lower-case form. */
  predicate CaseVariantOf(a: string, b: string) {
    && |a| == |b|
    && forall i :: 0 <= i < |a| ==>
         a[i] == b[i] || (IsLowerAscii(a[i]) && a[i] as int - 32 == b[i] as int)
  }

  /** Upper-casing produces an upper-case string and is idempotent. */
  lemma UpperIsUpperCase(s: string)
    ensures IsUpperCase(Upper(s))
    ensures Upper(Upper(s)) == Upper(s)
  {
  }

  /** Upper-casing neither creates nor removes a character trim keeps: a
      lower-case letter becomes an upper-case one, anything else stays. */
  lemma UpperKeepsRequired(s: string)
    ensures Required(Upper(s)) <==> Required(s)
  {
    if Required(s) {
      var i :| 0 <= i < |s| && !IsTrimmable(s[i]);
      assert !IsTrimmable(Upper(s)[i]);
    }
    if Required(Upper(s)) {
      var i :| 0 <= i < |s| && !IsTrimmable(Upper(s)[i]);
      assert !IsTrimmable(s[i]);
    }
  }

  /** Every case variant of an upper-case string upper-cases back to it. */
  lemma CaseVariantUppers(a: string, b: string)
    requires IsUpperCase(b)
    requires CaseVariantOf(a, b)
    ensures Upper(a) == b
  {
    forall i | 0 <= i < |a|
      ensures Upper(a)[i] == b[i]
    {
      if IsLowerAscii(a[i]) {
        assert a[i] != b[i];
        assert (a[i] as int - 32) as char == b[i];
      }
    }
  }
}
