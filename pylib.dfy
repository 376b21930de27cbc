/**
 * The Python standard-library string and path operations the upload service
 * relies on, with CPython's semantics on POSIX: `str.rfind`, `str.lower`
 * (ASCII letters only), `str.startswith`, `os.path.basename`,
 * `os.path.splitext` and `str(int)`.
 */
module PyLib {

  /** `s.rfind(c)`: the index of the last occurrence of `c` in `s`, or -1. */
  function RFind(s: string, c: char): (r: int)
    ensures -1 <= r < |s|
    ensures 0 <= r ==> s[r] == c
    ensures forall k :: r < k < |s| ==> s[k] != c
  {
    if |s| == 0 then -1
    else if s[|s| - 1] == c then |s| - 1
    else RFind(s[..|s| - 1], c)
  }

  /** Any index with the defining property of `rfind` is the one `RFind` returns. */
  lemma RFindIs(s: string, c: char, r: int)
    requires -1 <= r < |s| && (0 <= r ==> s[r] == c)
    requires forall k :: r < k < |s| ==> s[k] != c
    ensures RFind(s, c) == r
  {
  }

  /** Appending text that does not contain `c` does not move the last `c`. */
  lemma RFindAppend(s: string, w: string, c: char)
    requires forall k :: 0 <= k < |w| ==> w[k] != c
    ensures RFind(s + w, c) == RFind(s, c)
  {
    var r := RFind(s, c);
    forall k | r < k < |s + w| ensures (s + w)[k] != c {
      if k >= |s| { assert (s + w)[k] == w[k - |s|]; }
    }
    RFindIs(s + w, c, r);
  }

  /** `c.lower()` for one character; only ASCII upper-case letters change. */
  function LowerChar(c: char): char
  {
    if 'A' <= c <= 'Z' then (c as int - 'A' as int + 'a' as int) as char else c
  }

  /** `s.lower()` restricted to ASCII case mapping. */
  function Lower(s: string): (r: string)
    ensures |r| == |s|
    ensures forall k :: 0 <= k < |s| ==> r[k] == LowerChar(s[k])
  {
    seq(|s|, k requires 0 <= k < |s| => LowerChar(s[k]))
  }

  /** `s.startswith(prefix)`. */
  predicate StartsWith(s: string, prefix: string)
  {
    |prefix| <= |s| && s[..|prefix|] == prefix
  }

  /** `s.startswith(prefix)` exactly when `s` is `prefix` followed by something. */
  lemma StartsWithIff(s: string, prefix: string)
    ensures StartsWith(s, prefix) <==> exists rest :: s == prefix + rest
  {
    if StartsWith(s, prefix) {
      assert s == prefix + s[|prefix|..];
    }
    if exists rest :: s == prefix + rest {
      var rest :| s == prefix + rest;
      assert s[..|prefix|] == prefix;
    }
  }

  /** `s.lower()` equals `t` when it does so character by character. */
  lemma LowerIs(s: string, t: string)
    requires |s| == |t|
    requires forall k :: 0 <= k < |s| ==> LowerChar(s[k]) == t[k]
    ensures Lower(s) == t
  {
  }

  /** `os.path.basename(p)` (posixpath): the text after the last '/'. */
  function Basename(p: string): (b: string)
    ensures |b| <= |p| && b == p[|p| - |b|..]
    ensures forall k :: 0 <= k < |b| ==> b[k] != '/'
    ensures |b| < |p| ==> p[|p| - |b| - 1] == '/'
  {
    p[RFind(p, '/') + 1..]
  }

  /** The scan of posixpath's `_splitext`: some character of `p` from index `i` up to `j` is not '.'. */
  predicate NonDotIn(p: string, i: int, j: int)
    requires 0 <= i <= j <= |p|
    decreases j - i
  {
    i < j && (p[i] != '.' || NonDotIn(p, i + 1, j))
  }

  /** The scan finds a non-dot exactly when there is one. */
  lemma {:induction false} NonDotInExists(p: string, i: int, j: int)
    requires 0 <= i <= j <= |p|
    ensures NonDotIn(p, i, j) <==> exists k :: i <= k < j && p[k] != '.'
    decreases j - i
  {
    if i < j {
      NonDotInExists(p, i + 1, j);
    }
  }

  /**
   * `os.path.splitext(p)` (posixpath): the extension runs from the last '.'
   * to the end, provided that dot lies in the final path component and is
   * preceded there by at least one character other than '.'; otherwise the
   * extension is empty.
   */
  function SplitExt(p: string): (r: (string, string))
    ensures r.0 + r.1 == p
    ensures r.1 != [] ==> r.1[0] == '.'
    ensures forall k :: 0 < k < |r.1| ==> r.1[k] != '.' && r.1[k] != '/'
  {
    var sep := RFind(p, '/');
    var dot := RFind(p, '.');
    if dot > sep && NonDotIn(p, sep + 1, dot) then
      (p[..dot], p[dot..])
    else (p, [])
  }

  /**
   * When `splitext` finds an extension: exactly when some character other
   * than '.' lies between the last '/' and the last '.', and then the
   * extension runs from that last '.' to the end.
   */
  lemma SplitExtIff(p: string)
    ensures SplitExt(p).1 != [] <==>
      exists i :: RFind(p, '/') < i < RFind(p, '.') && p[i] != '.'
    ensures SplitExt(p).1 != [] ==> SplitExt(p).1 == p[RFind(p, '.')..]
  {
    var sep, dot := RFind(p, '/'), RFind(p, '.');
    if dot > sep {
      NonDotInExists(p, sep + 1, dot);
    }
  }

  function DigitChar(d: int): (c: char)
    requires 0 <= d < 10
    ensures '0' <= c <= '9'
  {
    ('0' as int + d) as char
  }

  /** `str(n)` for a non-negative integer: decimal digits without leading zeros. */
  function NatToString(n: nat): (s: string)
    ensures |s| >= 1
    ensures forall k :: 0 <= k < |s| ==> '0' <= s[k] <= '9'
    ensures s[0] == '0' ==> n == 0
    ensures s[0] == '0' ==> s == "0"
    decreases n
  {
    if n < 10 then [DigitChar(n)] else NatToString(n / 10) + [DigitChar(n % 10)]
  }

  /** `str(i)` for any integer. */
  function IntToString(i: int): (s: string)
    ensures forall k :: 0 <= k < |s| ==> s[k] == '-' || '0' <= s[k] <= '9'
    ensures |s| >= 1
    ensures forall k :: 0 < k < |s| ==> '0' <= s[k] <= '9'
    ensures s[0] == '-' <==> i < 0
    ensures s[0] == '0' ==> s == "0"
    ensures i < 0 ==> |s| >= 2 && s[1] != '0'
  {
    if i < 0 then "-" + NatToString(-i) else NatToString(i)
  }

  /** `int(s)` for a string of decimal digits. */
  function ParseNat(s: string): nat
    requires forall k :: 0 <= k < |s| ==> '0' <= s[k] <= '9'
  {
    if s == [] then 0 else ParseNat(s[..|s| - 1]) * 10 + (s[|s| - 1] as int - '0' as int)
  }

  /** `int(s)` for an optionally signed string of decimal digits. */
  function ParseInt(s: string): int
    requires |s| >= 1
    requires s[0] == '-' ==> forall k :: 1 <= k < |s| ==> '0' <= s[k] <= '9'
    requires s[0] != '-' ==> forall k :: 0 <= k < |s| ==> '0' <= s[k] <= '9'
  {
    if s[0] == '-' then 0 - ParseNat(s[1..]) else ParseNat(s)
  }

  lemma {:induction false} ParseNatToString(n: nat)
    ensures ParseNat(NatToString(n)) == n
    decreases n
  {
    if n >= 10 {
      var s := NatToString(n);
      assert s[..|s| - 1] == NatToString(n / 10);
      ParseNatToString(n / 10);
    }
  }

  /** `int(str(i)) == i`: the decimal rendering loses nothing. */
  lemma IntToStringRoundTrip(i: int)
    ensures ParseInt(IntToString(i)) == i
  {
    if i < 0 {
      assert IntToString(i)[1..] == NatToString(-i);
      ParseNatToString(-i);
    } else {
      ParseNatToString(i);
    }
  }
}
