/**
  Python's `int(text)` (base 10) and `str(n)` on integers, as far as the
  salary column needs them: `int` skips white space at both ends, takes an
  optional sign, and then wants ASCII digits, with single underscores
  allowed between two digits, and at most 4300 of them (the interpreter's
  default `sys.get_int_max_str_digits()`). Anything else raises ValueError,
  which is `None` here.
*/
module PyInt {
  import opened Wrappers

  /**
    The white space `int()` skips at both ends: the six ASCII spaces of the C
    locale and, beyond ASCII, every character `str.isspace()` accepts. The
    ASCII separators U+001C to U+001F, which `str.isspace()` also accepts,
    are not skipped: `int()` refuses them.
  */
  predicate IsSpace(c: char) {
    || c == ' '
    || '\t' <= c <= '\r'
    || c == '\U{85}' || c == '\U{a0}' || c == '\U{1680}'
    || '\U{2000}' <= c <= '\U{200a}'
    || c == '\U{2028}' || c == '\U{2029}' || c == '\U{202f}' || c == '\U{205f}'
    || c == '\U{3000}'
  }

  predicate IsDigit(c: char) {
    '0' <= c <= '9'
  }

  predicate IsSign(c: char) {
    c == '-' || c == '+'
  }

  /** Drops the leading white space. */
  function TrimStart(s: string): string {
    if s != [] && IsSpace(s[0]) then TrimStart(s[1..]) else s
  }

  /** Drops the trailing white space. */
  function TrimEnd(s: string): string {
    if s != [] && IsSpace(s[|s| - 1]) then TrimEnd(s[..|s| - 1]) else s
  }

  /** The text without the white space `int()` skips at both ends. */
  function Strip(s: string): string {
    TrimEnd(TrimStart(s))
  }

  /** A base-10 literal without sign: digits, an underscore only between two digits. */
  predicate IsDigitString(t: string) {
    && |t| > 0
    && IsDigit(t[0])
    && IsDigit(t[|t| - 1])
    && (forall i | 0 <= i < |t| :: IsDigit(t[i]) || t[i] == '_')
    && (forall i | 0 <= i < |t| - 1 :: t[i] == '_' ==> IsDigit(t[i + 1]))
  }

  /** The number the digits of `t` spell, the underscores skipped. */
  function DigitsValue(t: string): nat {
    if t == [] then 0
    else
      var last := t[|t| - 1];
      if IsDigit(last) then 10 * DigitsValue(t[..|t| - 1]) + (last as int - '0' as int)
      else DigitsValue(t[..|t| - 1])
  }

  /** How many digits `t` holds, the underscores not counted. */
  function DigitCount(t: string): nat {
    if t == [] then 0
    else DigitCount(t[..|t| - 1]) + (if t[|t| - 1] == '_' then 0 else 1)
  }

  /** The most digits `int()` converts; a longer numeral raises ValueError. */
  const MaxStrDigits: nat := 4300

  /** Python's `int(s)`: `Some(n)` where it returns n, `None` where it raises ValueError. */
  function ParseInt(s: string): Option<int> {
    var t := Strip(s);
    if |t| > 0 && IsSign(t[0]) then
      var v: int := DigitsValue(t[1..]);
      if IsDigitString(t[1..]) && DigitCount(t[1..]) <= MaxStrDigits then
        Some(if t[0] == '-' then -v else v)
      else None
    else if IsDigitString(t) && DigitCount(t) <= MaxStrDigits then Some(DigitsValue(t))
    else None
  }

  function DigitChar(d: nat): (c: char)
    requires d < 10
    ensures IsDigit(c) && c as int - '0' as int == d
  {
    ('0' as int + d) as char
  }

  /** Python's `str(n)` for a non-negative integer. */
  function NatToString(n: nat): (r: string)
    ensures IsDigitString(r) && DigitsValue(r) == n
    ensures forall i | 0 <= i < |r| :: IsDigit(r[i])
    ensures DigitCount(r) == |r|
  {
    if n < 10 then [DigitChar(n)]
    else
      var r := NatToString(n / 10) + [DigitChar(n % 10)];
      assert r[..|r| - 1] == NatToString(n / 10);
      r
  }

  /** Python's `str(n)`. */
  function IntToString(n: int): string {
    if n < 0 then "-" + NatToString(-n) else NatToString(n)
  }

  /**
    `strip()` removes exactly the white space at both ends: what remains is
    a slice of the text that neither starts nor ends with white space, and
    everything cut off is white space.
  */
  lemma {:induction false} StripSlice(s: string) returns (lo: nat, hi: nat)
    ensures lo <= hi <= |s| && Strip(s) == s[lo..hi]
    ensures forall i | 0 <= i < lo :: IsSpace(s[i])
    ensures forall i | hi <= i < |s| :: IsSpace(s[i])
    ensures Strip(s) == [] || (!IsSpace(Strip(s)[0]) && !IsSpace(Strip(s)[|Strip(s)| - 1]))
  {
    lo := TrimStartSlice(s);
    var t := TrimStart(s);
    var k := TrimEndSlice(t);
    hi := lo + k;
    assert s[lo..hi] == t[..k];
    if Strip(s) != [] {
      assert Strip(s)[0] == t[0];
    }
  }

  lemma {:induction false} TrimStartSlice(s: string) returns (lo: nat)
    ensures lo <= |s| && TrimStart(s) == s[lo..]
    ensures forall i | 0 <= i < lo :: IsSpace(s[i])
    ensures TrimStart(s) == [] || !IsSpace(TrimStart(s)[0])
  {
    if s != [] && IsSpace(s[0]) {
      var k := TrimStartSlice(s[1..]);
      lo := k + 1;
      assert s[1..][k..] == s[lo..];
    } else {
      lo := 0;
    }
  }

  lemma {:induction false} TrimEndSlice(s: string) returns (hi: nat)
    ensures hi <= |s| && TrimEnd(s) == s[..hi]
    ensures forall i | hi <= i < |s| :: IsSpace(s[i])
    ensures TrimEnd(s) == [] || !IsSpace(TrimEnd(s)[|TrimEnd(s)| - 1])
  {
    if s != [] && IsSpace(s[|s| - 1]) {
      hi := TrimEndSlice(s[..|s| - 1]);
      assert s[..|s| - 1][..hi] == s[..hi];
    } else {
      hi := |s|;
      assert s[..hi] == s;
    }
  }

  /**
    `int(str(n)) == n` for every integer, negative ones included, whose
    numeral has at most 4300 digits; `int()` refuses the numeral of any
    larger one.
  */
  lemma ParseIntToString(n: int)
    ensures |NatToString(if n < 0 then -n else n)| <= MaxStrDigits ==> ParseInt(IntToString(n)) == Some(n)
    ensures |NatToString(if n < 0 then -n else n)| > MaxStrDigits ==> ParseInt(IntToString(n)) == None
  {
    var t := IntToString(n);
    NumeralUnstripped(n);
    if n < 0 {
      assert t[1..] == NatToString(-n);
    }
  }

  /** A numeral `str()` makes carries no white space at either end. */
  lemma NumeralUnstripped(n: int)
    ensures Strip(IntToString(n)) == IntToString(n)
  {
    var r := NatToString(if n < 0 then -n else n);
    var t := IntToString(n);
    assert t[|t| - 1] == r[|r| - 1];
    assert TrimStart(t) == t;
    assert TrimEnd(t) == t;
  }

  /** `int()` takes one sign in front of the numeral: `-` negates its value and `+` keeps it. */
  lemma {:induction false} ParseIntSign(d: string)
    requires d == [] || (!IsSpace(d[0]) && !IsSign(d[0]))
    ensures ParseInt("-" + d) == (if ParseInt(d).Some? then Some(-ParseInt(d).value) else None)
    ensures ParseInt("+" + d) == ParseInt(d)
  {
    StripAfterSign('-', d);
    StripAfterSign('+', d);
  }

  /** A sign in front of text that starts with neither white space nor a sign stays in front after stripping. */
  lemma {:induction false} StripAfterSign(c: char, d: string)
    requires IsSign(c)
    requires d == [] || (!IsSpace(d[0]) && !IsSign(d[0]))
    ensures Strip([c] + d) == [c] + Strip(d)
    ensures Strip(d) == [] || !IsSign(Strip(d)[0])
  {
    if d != [] {
      var hi := TrimEndSlice(d);
      TrimEndKeepsFront(c, d);
      assert TrimStart(d) == d;
      if Strip(d) != [] {
        assert Strip(d)[0] == d[0];
      }
    }
  }

  /** Trailing white space is cut the same way whatever comes before a non-white first character. */
  lemma {:induction false} TrimEndKeepsFront(c: char, d: string)
    requires d != [] && !IsSpace(d[0])
    ensures TrimEnd([c] + d) == [c] + TrimEnd(d)
  {
    if IsSpace(d[|d| - 1]) {
      assert ([c] + d)[..|d|] == [c] + d[..|d| - 1];
      TrimEndKeepsFront(c, d[..|d| - 1]);
    }
  }

  /** `int()` ignores white space around the number. */
  lemma {:induction false} ParseIntIgnoresSpace(pre: string, s: string, post: string)
    requires forall i | 0 <= i < |pre| :: IsSpace(pre[i])
    requires forall i | 0 <= i < |post| :: IsSpace(post[i])
    ensures ParseInt(pre + s + post) == ParseInt(s)
  {
    StripSurrounding(pre, s, post);
  }

  lemma {:induction false} StripSurrounding(pre: string, s: string, post: string)
    requires forall i | 0 <= i < |pre| :: IsSpace(pre[i])
    requires forall i | 0 <= i < |post| :: IsSpace(post[i])
    ensures Strip(pre + s + post) == Strip(s)
  {
    TrimStartSkips(pre, s + post);
    assert pre + s + post == pre + (s + post);
    TrimEndSkips(TrimStart(s + post), post);
    TrimStartThenEnd(s, post);
  }

  lemma {:induction false} TrimStartSkips(pre: string, s: string)
    requires forall i | 0 <= i < |pre| :: IsSpace(pre[i])
    ensures TrimStart(pre + s) == TrimStart(s)
  {
    if pre == [] {
      assert pre + s == s;
    } else {
      assert (pre + s)[0] == pre[0];
      assert (pre + s)[1..] == pre[1..] + s;
      TrimStartSkips(pre[1..], s);
    }
  }

  lemma {:induction false} TrimEndSkips(s: string, post: string)
    requires forall i | 0 <= i < |post| :: IsSpace(post[i])
    ensures TrimEnd(s + post) == TrimEnd(s)
  {
    if post == [] {
      assert s + post == s;
    } else {
      var p := post[..|post| - 1];
      assert (s + post)[|s + post| - 1] == post[|post| - 1];
      assert (s + post)[..|s + post| - 1] == s + p;
      TrimEndSkips(s, p);
    }
  }

  /** Trailing white space does not change where the leading white space ends, unless all is white. */
  lemma {:induction false} TrimStartThenEnd(s: string, post: string)
    requires forall i | 0 <= i < |post| :: IsSpace(post[i])
    ensures TrimEnd(TrimStart(s + post)) == TrimEnd(TrimStart(s))
  {
    if s == [] {
      assert s + post == post;
      TrimStartAllSpace(post);
    } else if IsSpace(s[0]) {
      assert (s + post)[1..] == s[1..] + post;
      TrimStartThenEnd(s[1..], post);
    } else {
      TrimEndSkips(s, post);
    }
  }

  lemma {:induction false} TrimStartAllSpace(s: string)
    requires forall i | 0 <= i < |s| :: IsSpace(s[i])
    ensures TrimStart(s) == []
  {
    if s != [] {
      TrimStartAllSpace(s[1..]);
    }
  }
}
