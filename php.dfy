/** The pieces of PHP's own semantics that the component relies on. */
module Php {

  /** PHP's conversion of a string to a boolean: only "" and "0" are false. */
  predicate Truthy(s: string)
    ensures Truthy(s) ==> |s| >= 1
    ensures |s| >= 2 ==> Truthy(s)
    ensures |s| == 1 ==> (Truthy(s) <==> s[0] != '0')
  {
    s != "" && s != "0"
  }

  /** A character that PHP's `trim()` strips by default: space, tab, newline, carriage return, NUL, vertical tab. */
  predicate Trimmable(c: char) {
    c == ' ' || c == '\t' || c == '\n' || c == '\r' || c == '\0' || c == '\U{B}'
  }

  /** `trim(s) === ''`: the string holds nothing but trimmable characters. */
  predicate TrimsToEmpty(s: string) {
    forall i :: 0 <= i < |s| ==> Trimmable(s[i])
  }

  /** The path with every trailing '/' removed. */
  function StripTrailingSlashes(path: string): (q: string)
    ensures |q| <= |path|
    ensures q == [] || q[|q| - 1] != '/'
  {
    if |path| > 0 && path[|path| - 1] == '/' then StripTrailingSlashes(path[..|path| - 1]) else path
  }

  /** The longest suffix of `path` that holds no '/'. */
  function LastSegment(path: string): (s: string)
    ensures |s| <= |path|
    ensures '/' !in s
  {
    if path == [] || path[|path| - 1] == '/' then []
    else LastSegment(path[..|path| - 1]) + [path[|path| - 1]]
  }

  /** `pathinfo($path, PATHINFO_BASENAME)`: the last component, trailing slashes ignored. */
  function Basename(path: string): (name: string)
    ensures '/' !in name
    ensures |name| <= |path|
  {
    LastSegment(StripTrailingSlashes(path))
  }

  /** The base name of a file in a directory is the file's own name, with or without the directory. */
  lemma BasenameOfJoin(dir: string, name: string)
    requires name != [] && '/' !in name
    ensures Basename(dir + "/" + name) == name
    ensures Basename(name) == name
  {
    BasenameAfterSlash(dir + "/", name);
    BasenameAfterSlash([], name);
    assert [] + name == name;
  }

  lemma BasenameAfterSlash(head: string, name: string)
    requires name != [] && '/' !in name
    requires head == [] || head[|head| - 1] == '/'
    ensures Basename(head + name) == name
  {
    var p := head + name;
    assert p[|p| - 1] == name[|name| - 1] && name[|name| - 1] in name;
    assert StripTrailingSlashes(p) == p;
    assert forall k :: 0 <= k < |name| ==> name[k] in name;
    LastSegmentAfterSlash(head, name);
  }

  /** A slash-free tail that follows a slash (or the start) is the last segment. */
  lemma {:induction false} LastSegmentAfterSlash(head: string, name: string)
    requires forall k :: 0 <= k < |name| ==> name[k] != '/'
    requires head == [] || head[|head| - 1] == '/'
    ensures LastSegment(head + name) == name
  {
    var p := head + name;
    if name == [] {
      assert p == head;
    } else {
      var m := name[..|name| - 1];
      assert p[..|p| - 1] == head + m;
      assert p[|p| - 1] == name[|name| - 1];
      LastSegmentAfterSlash(head, m);
      assert name == m + [name[|name| - 1]];
    }
  }

  predicate IsDigit(c: char) {
    '0' <= c <= '9'
  }

  predicate AllDigits(s: string) {
    forall i :: 0 <= i < |s| ==> IsDigit(s[i])
  }

  function DigitChar(d: nat): (c: char)
    requires d < 10
    ensures IsDigit(c) && c as int - '0' as int == d
  {
    ('0' as int + d) as char
  }

  /** The decimal text of a whole byte count, as used for a `Content-Length` header value. */
  function DecimalString(n: nat): (s: string)
    ensures |s| > 0 && AllDigits(s)
    ensures s[0] == '0' ==> s == "0"
    decreases n
  {
    if n < 10 then [DigitChar(n)] else DecimalString(n / 10) + [DigitChar(n % 10)]
  }

  /** The number a string of decimal digits denotes. */
  function ParseDecimal(s: string): nat
    requires AllDigits(s)
  {
    if s == [] then 0 else 10 * ParseDecimal(s[..|s| - 1]) + (s[|s| - 1] as int - '0' as int)
  }

  /** Reading the decimal text back gives the number that was written. */
  lemma {:induction false} DecimalRoundTrip(n: nat)
    ensures ParseDecimal(DecimalString(n)) == n
    decreases n
  {
    var s := DecimalString(n);
    if n >= 10 {
      DecimalRoundTrip(n / 10);
      assert s[..|s| - 1] == DecimalString(n / 10);
    }
  }
}
