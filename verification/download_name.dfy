/**
 The file name offered for the CSV download (CalculatorModelPremi.py): the user's base
 name is stripped of surrounding whitespace; a blank base falls back to the default name,
 a base already ending in ".csv" is kept, and any other base gets ".csv" appended.

 The default name embeds the parameters' float formatting and is taken as a parameter.
 */
module DownloadName {

  /** The characters Python's str.strip() removes when called without arguments. */
  predicate IsSpace(c: char)
  {
    || c == ' '
    || ('\t' <= c <= '\r')
    || ('\U{1c}' <= c <= '\U{1f}')
    || c == '\U{85}'
    || c == '\U{a0}'
    || c == '\U{1680}'
    || ('\U{2000}' <= c <= '\U{200a}')
    || c == '\U{2028}'
    || c == '\U{2029}'
    || c == '\U{202f}'
    || c == '\U{205f}'
    || c == '\U{3000}'
  }

  predicate AllSpace(s: string)
  {
    forall i :: 0 <= i < |s| ==> IsSpace(s[i])
  }

  /** Python's str.endswith. */
  predicate EndsWith(s: string, suffix: string)
  {
    |suffix| <= |s| && s[|s| - |suffix|..] == suffix
  }

  /** The first index at or after i that holds a non-space, or |s| when there is none. */
  function SkipForward(s: string, i: nat): (j: nat)
    requires i <= |s|
    ensures i <= j <= |s|
    ensures forall k :: i <= k < j ==> IsSpace(s[k])
    ensures j < |s| ==> !IsSpace(s[j])
    decreases |s| - i
  {
    if i < |s| && IsSpace(s[i]) then SkipForward(s, i + 1) else i
  }

  /** The end of s[lo..j] once trailing spaces are dropped: s[r - 1] is a non-space unless r == lo. */
  function SkipBackward(s: string, lo: nat, j: nat): (r: nat)
    requires lo <= j <= |s|
    ensures lo <= r <= j
    ensures forall k :: r <= k < j ==> IsSpace(s[k])
    ensures lo < r ==> !IsSpace(s[r - 1])
    decreases j
  {
    if lo < j && IsSpace(s[j - 1]) then SkipBackward(s, lo, j - 1) else j
  }

  /**
   Python's str.strip(): the infix s[i..j] left after removing whitespace at both ends;
   everything outside it is whitespace, and it is empty exactly when s is all whitespace.
   */
  function Strip(s: string): (r: string)
    ensures |r| <= |s|
    ensures exists i, j :: 0 <= i <= j <= |s| && r == s[i..j] && AllSpace(s[..i]) && AllSpace(s[j..])
    ensures r == [] <==> AllSpace(s)
    ensures r != [] ==> !IsSpace(r[0]) && !IsSpace(r[|r| - 1])
  {
    var i := SkipForward(s, 0);
    var j := SkipBackward(s, i, |s|);
    assert AllSpace(s[..i]) && AllSpace(s[j..]);
    assert i == j ==> AllSpace(s);
    s[i..j]
  }

  /** A string with non-space characters at both ends is its own strip. */
  lemma StripTrimmed(s: string)
    requires s != [] && !IsSpace(s[0]) && !IsSpace(s[|s| - 1])
    ensures Strip(s) == s
  {
  }

  /** Stripping twice is stripping once. */
  lemma StripIdempotent(s: string)
    ensures Strip(Strip(s)) == Strip(s)
  {
    if Strip(s) != [] {
      StripTrimmed(Strip(s));
    }
  }

  /**
   The name handed to the download button: the default for a blank base, otherwise the
   stripped base, with ".csv" appended unless it already ends in ".csv".
   */
  function DownloadName(base: string, default: string): (r: string)
    ensures AllSpace(base) ==> r == default
    ensures !AllSpace(base) ==> EndsWith(r, ".csv") && Strip(r) == r && !AllSpace(r)
    ensures !AllSpace(base) && EndsWith(Strip(base), ".csv") ==> r == Strip(base)
    ensures !AllSpace(base) && !EndsWith(Strip(base), ".csv") ==> r == Strip(base) + ".csv"
  {
    var stripped := Strip(base);
    if stripped == "" then default
    else if !EndsWith(stripped, ".csv") then
      var r := stripped + ".csv";
      assert r[|r| - 4..] == ".csv";
      StripTrimmed(r);
      r
    else
      StripTrimmed(stripped);
      stripped
  }

  /** A name ending in ".csv" is never blank. */
  lemma CsvNameNotBlank(s: string)
    requires EndsWith(s, ".csv")
    ensures !AllSpace(s)
  {
    assert s[|s| - 4..][0] == '.';
    assert !IsSpace(s[|s| - 4]);
  }

  /** A stripped name ending in ".csv" is its own download name. */
  lemma NormalisedNameIsFixed(name: string, default: string)
    requires EndsWith(name, ".csv") && Strip(name) == name
    ensures DownloadName(name, default) == name
  {
    CsvNameNotBlank(name);
  }

  /** With a default name that ends in ".csv", every download name ends in ".csv". */
  lemma DownloadNameEndsWithCsv(base: string, default: string)
    requires EndsWith(default, ".csv")
    ensures EndsWith(DownloadName(base, default), ".csv")
  {
  }

  /** Normalising an already normalised name changes nothing, given a default that is itself normalised. */
  lemma DownloadNameIdempotent(base: string, default: string)
    requires EndsWith(default, ".csv") && Strip(default) == default
    ensures DownloadName(DownloadName(base, default), default) == DownloadName(base, default)
  {
    var r := DownloadName(base, default);
    assert EndsWith(r, ".csv") && Strip(r) == r;
    NormalisedNameIsFixed(r, default);
  }
}
