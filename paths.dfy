/** The small pieces of Go's path/filepath, strings and fmt that the output
    naming uses, on Unix-style paths with '/' as separator. filepath.Ext,
    filepath.Base, strings.TrimSuffix and the "%d" verb are defined here;
    filepath.Join and filepath.Dir stay uninterpreted. */
module Paths {

  /** filepath.Join and filepath.Dir, supplied by the environment. */
  datatype PathLib = PathLib(join: (string, string) -> string, dir: string -> string)

  /** True when `suffix` is a suffix of `s`. */
  predicate EndsWith(s: string, suffix: string)
  {
    |suffix| <= |s| && s[|s| - |suffix|..] == suffix
  }

  /** A well-formed extension: a dot followed by characters that are neither
      dots nor separators. */
  predicate IsExtension(e: string)
  {
    |e| > 0 && e[0] == '.' && forall k :: 1 <= k < |e| ==> e[k] != '.' && e[k] != '/'
  }

  /** filepath.Ext: the suffix of the last path element that starts at its
      final dot, or "" when that element has no dot. */
  function Ext(path: string): (ext: string)
    ensures EndsWith(path, ext)
    ensures ext == "" || IsExtension(ext)
    ensures ext == "" ==> forall k :: 0 <= k < |path| && path[k] == '.' ==>
      exists j :: k < j < |path| && path[j] == '/'
  {
    if path == [] || path[|path| - 1] == '/' then ""
    else if path[|path| - 1] == '.' then "."
    else
      var e := Ext(path[..|path| - 1]);
      if e == "" then "" else e + [path[|path| - 1]]
  }

  /** Appending a well-formed extension makes it the extension. */
  lemma {:induction false} ExtOfAppended(stem: string, e: string)
    requires IsExtension(e)
    ensures Ext(stem + e) == e
    decreases |e|
  {
    var p := stem + e;
    if |e| == 1 {
      assert p[|p| - 1] == '.';
    } else {
      var e' := e[..|e| - 1];
      assert p[..|p| - 1] == stem + e';
      assert IsExtension(e') by {
        forall k | 1 <= k < |e'| ensures e'[k] != '.' && e'[k] != '/' {
          assert e'[k] == e[k];
        }
      }
      ExtOfAppended(stem, e');
      assert p[|p| - 1] == e[|e| - 1];
      assert e' + [e[|e| - 1]] == e;
    }
  }

  /** Appending characters that are neither dots nor separators to a path
      without extension leaves it without extension. */
  lemma {:induction false} NoExtOfAppended(stem: string, tail: string)
    requires Ext(stem) == ""
    requires forall k :: 0 <= k < |tail| ==> tail[k] != '.' && tail[k] != '/'
    ensures Ext(stem + tail) == ""
    decreases |tail|
  {
    if tail != [] {
      var p := stem + tail;
      var t' := tail[..|tail| - 1];
      assert p[..|p| - 1] == stem + t';
      NoExtOfAppended(stem, t');
    } else {
      assert stem + tail == stem;
    }
  }

  /** The path with its trailing separators removed. */
  function TrimTrailingSlashes(path: string): (r: string)
    ensures r <= path
    ensures r == [] || r[|r| - 1] != '/'
    ensures forall k :: |r| <= k < |path| ==> path[k] == '/'
  {
    if path != [] && path[|path| - 1] == '/' then TrimTrailingSlashes(path[..|path| - 1]) else path
  }

  /** The characters after the path's last separator. */
  function LastElement(path: string): (r: string)
    ensures EndsWith(path, r)
    ensures forall k :: 0 <= k < |r| ==> r[k] != '/'
    ensures |r| < |path| ==> path[|path| - |r| - 1] == '/'
  {
    if path == [] || path[|path| - 1] == '/' then ""
    else LastElement(path[..|path| - 1]) + [path[|path| - 1]]
  }

  /** filepath.Base: the last element of the path, ignoring trailing
      separators; "." for the empty path and "/" for a path of separators. */
  function Base(path: string): (b: string)
    ensures b != ""
    ensures b == "/" || forall k :: 0 <= k < |b| ==> b[k] != '/'
  {
    if path == "" then "."
    else
      var e := LastElement(TrimTrailingSlashes(path));
      if e == "" then "/" else e
  }

  /** strings.TrimSuffix. */
  function TrimSuffix(s: string, suffix: string): (r: string)
    ensures EndsWith(s, suffix) ==> r + suffix == s
    ensures !EndsWith(s, suffix) ==> r == s
  {
    if EndsWith(s, suffix) then s[..|s| - |suffix|] else s
  }

  /** The decimal digit for d. */
  function DigitChar(d: nat): (c: char)
    requires d < 10
    ensures '0' <= c <= '9'
  {
    ('0' as int + d) as char
  }

  /** The base-10 digits of n, most significant first, without leading zeros. */
  function NatDigits(n: nat): (s: string)
    ensures |s| > 0
    ensures forall k :: 0 <= k < |s| ==> '0' <= s[k] <= '9'
    ensures |s| > 1 ==> s[0] != '0'
  {
    if n < 10 then [DigitChar(n)] else NatDigits(n / 10) + [DigitChar(n % 10)]
  }

  /** fmt's "%d" for an int. */
  function Decimal(n: int): (s: string)
    ensures |s| > 0
    ensures forall k :: 0 <= k < |s| ==> s[k] != '.' && s[k] != '/'
  {
    if n < 0 then "-" + NatDigits(-n) else NatDigits(n)
  }

  /** The value of a string of decimal digits. */
  function DigitsValue(s: string): int
  {
    if s == [] then 0 else 10 * DigitsValue(s[..|s| - 1]) + (s[|s| - 1] as int - '0' as int)
  }

  /** The value a "%d" rendering denotes. */
  function DecimalValue(s: string): int
  {
    if s != [] && s[0] == '-' then -DigitsValue(s[1..]) else DigitsValue(s)
  }

  lemma {:induction false} NatDigitsRoundTrip(n: nat)
    ensures DigitsValue(NatDigits(n)) == n
  {
    if n >= 10 {
      NatDigitsRoundTrip(n / 10);
      var s := NatDigits(n);
      assert s[..|s| - 1] == NatDigits(n / 10);
    }
  }

  /** Reading back a rendered number gives that number. */
  lemma DecimalRoundTrip(n: int)
    ensures DecimalValue(Decimal(n)) == n
  {
    if n < 0 {
      NatDigitsRoundTrip(-n);
      assert Decimal(n)[1..] == NatDigits(-n);
    } else {
      NatDigitsRoundTrip(n);
    }
  }

  /** Different numbers render differently. */
  lemma DecimalInjective(m: int, n: int)
    requires m != n
    ensures Decimal(m) != Decimal(n)
  {
    DecimalRoundTrip(m);
    DecimalRoundTrip(n);
  }
}
