/**
 * The null/blank string helpers of `Utils`: `isBlank`, `isNotBlank`,
 * `defaultIfNull`, `defaultIfBlank`, `nullIfBlank` and `emptyIfBlank`.
 * A Java `String` that may be null is an `Option<string>`.
 */
module Strings {
  import opened Wrappers
  import opened JavaLang

  /** Every character of `s` is one that `trim` strips. */
  predicate AllWhitespace(s: string)
  {
    forall i :: 0 <= i < |s| ==> IsTrimmed(s[i])
  }

  /** `isBlank`: null, or empty after `trim`. */
  function IsBlank(s: Option<string>): (b: bool)
    ensures b <==> s.None? || AllWhitespace(s.value)
  {
    if s.None? then true
    else
      TrimEmptyIff(s.value);
      Trim(s.value) == []
  }

  /** `isNotBlank`: written independently of `isBlank` in the source. */
  function IsNotBlank(s: Option<string>): (b: bool)
    ensures b <==> s.Some? && !AllWhitespace(s.value)
  {
    if s.None? then false
    else
      TrimEmptyIff(s.value);
      Trim(s.value) != []
  }

  /** `defaultIfNull`. */
  function DefaultIfNull<T>(value: Option<T>, default: Option<T>): (r: Option<T>)
    ensures value.Some? ==> r == value
    ensures value.None? ==> r == default
  {
    if value.None? then default else value
  }

  /** `defaultIfBlank`: the default replaces a blank value. */
  function DefaultIfBlank(value: Option<string>, default: Option<string>): (r: Option<string>)
    ensures IsBlank(value) ==> r == default
    ensures !IsBlank(value) ==> r == value
  {
    if value.None? || Trim(value.value) == [] then default else value
  }

  /** `nullIfBlank`: the second argument is never read. */
  function NullIfBlank(value: Option<string>, default: Option<string>): (r: Option<string>)
    ensures r.None? <==> IsBlank(value)
    ensures r.Some? ==> r == value
  {
    if value.None? || Trim(value.value) == [] then None else value
  }

  /** `emptyIfBlank`: the second argument is never read. */
  function EmptyIfBlank(value: Option<string>, default: Option<string>): (r: Option<string>)
    ensures r == Some([]) <==> IsBlank(value) || value == Some([])
    ensures !IsBlank(value) ==> r == value
  {
    if value.None? || Trim(value.value) == [] then Some([]) else value
  }

  /** `isBlank` and `isNotBlank` are complements. */
  lemma BlankComplement(s: Option<string>)
    ensures IsBlank(s) == !IsNotBlank(s)
  {
  }

  /** `nullIfBlank` and `emptyIfBlank` ignore their second argument. */
  lemma SecondArgumentIgnored(value: Option<string>, d1: Option<string>, d2: Option<string>)
    ensures NullIfBlank(value, d1) == NullIfBlank(value, d2)
    ensures EmptyIfBlank(value, d1) == EmptyIfBlank(value, d2)
  {
  }

  /** A string with a character above U+0020 is never blank, whatever surrounds it. */
  lemma {:induction false} VisibleCharNotBlank(s: string, k: nat)
    requires k < |s| && !IsTrimmed(s[k])
    ensures !IsBlank(Some(s)) && IsNotBlank(Some(s))
    ensures forall a, b :: !IsBlank(Some(a + s + b))
  {
    forall a, b ensures !IsBlank(Some(a + s + b)) {
      assert (a + s + b)[|a| + k] == s[k];
    }
  }
}
