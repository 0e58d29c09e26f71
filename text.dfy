/**
 * The two pieces of C string handling the character selection relies on:
 * `strsep` splitting on a separator, and `atoi`.
 */
module Text {

  /** The tokens `strsep` hands out one by one: every separator ends a token, so
      an empty string gives one empty token and a trailing separator gives a
      trailing empty token. */
  function Split(s: string, sep: char): (r: seq<string>)
    ensures |r| >= 1
    ensures forall i :: 0 <= i < |r| ==> sep !in r[i]
  {
    if |s| == 0 then [""]
    else
      var rest := Split(s[1..], sep);
      if s[0] == sep then [""] + rest
      else [[s[0]] + rest[0]] + rest[1..]
  }

  /** The inverse of `Split`: the tokens glued back with the separator. */
  function Join(toks: seq<string>, sep: char): string
    requires |toks| >= 1
  {
    if |toks| == 1 then toks[0] else toks[0] + [sep] + Join(toks[1..], sep)
  }

  lemma {:induction false} JoinSplit(s: string, sep: char)
    ensures Join(Split(s, sep), sep) == s
  {
    if |s| > 0 {
      JoinSplit(s[1..], sep);
      var rest := Split(s[1..], sep);
      if s[0] != sep {
        if |rest| == 1 {
          assert Split(s, sep) == [[s[0]] + rest[0]];
        } else {
          assert Split(s, sep)[1..] == rest[1..];
          assert Join(rest, sep) == rest[0] + [sep] + Join(rest[1..], sep);
        }
      } else {
        assert Split(s, sep)[1..] == rest;
      }
    }
  }

  lemma {:induction false} SplitJoin(toks: seq<string>, sep: char)
    requires |toks| >= 1
    requires forall i :: 0 <= i < |toks| ==> sep !in toks[i]
    ensures Split(Join(toks, sep), sep) == toks
  {
    if |toks| == 1 {
      SplitNoSep(toks[0], sep);
    } else {
      SplitJoin(toks[1..], sep);
      SplitPrefix(toks[0], sep, Join(toks[1..], sep));
      assert toks == [toks[0]] + toks[1..];
    }
  }

  lemma {:induction false} SplitNoSep(s: string, sep: char)
    requires sep !in s
    ensures Split(s, sep) == [s]
  {
    if |s| > 0 {
      SplitNoSep(s[1..], sep);
      assert [s[0]] + s[1..] == s;
    }
  }

  /** Splitting `t + [sep] + u` with `t` free of separators yields `t` and then the tokens of `u`. */
  lemma {:induction false} SplitPrefix(t: string, sep: char, u: string)
    requires sep !in t
    ensures Split(t + [sep] + u, sep) == [t] + Split(u, sep)
  {
    if |t| == 0 {
      assert t + [sep] + u == [sep] + u;
      assert ([sep] + u)[1..] == u;
    } else {
      SplitPrefix(t[1..], sep, u);
      assert (t + [sep] + u)[1..] == t[1..] + [sep] + u;
      assert [t[0]] + t[1..] == t;
    }
  }

  /** The position of the first occurrence of `c`, as `index` returns it. */
  function FirstIndex(s: string, c: char): (k: nat)
    requires c in s
    ensures k < |s| && s[k] == c && c !in s[..k]
  {
    if s[0] == c then 0
    else
      assert c in s[1..] by { var j :| 0 <= j < |s| && s[j] == c; assert s[1..][j - 1] == c; }
      var k := 1 + FirstIndex(s[1..], c);
      assert s[..k] == [s[0]] + s[1..][..k - 1];
      k
  }

  /** The white-space characters `isspace` accepts in the C locale. */
  predicate IsSpace(ch: char)
  {
    ch == ' ' || ch == '\t' || ch == '\n' || ch == '\U{0B}' || ch == '\U{0C}' || ch == '\r'
  }

  predicate IsDigit(ch: char)
  {
    '0' <= ch <= '9'
  }

  function DigitValue(ch: char): (d: nat)
    requires IsDigit(ch)
    ensures d < 10
  {
    (ch as int) - ('0' as int)
  }

  function DigitChar(d: nat): (ch: char)
    requires d < 10
    ensures IsDigit(ch) && DigitValue(ch) == d
  {
    ((d + '0' as int) as char)
  }

  function SkipSpace(s: string): (r: string)
    ensures |r| <= |s|
    ensures r == s[|s| - |r|..]
    ensures |r| > 0 ==> !IsSpace(r[0])
  {
    if |s| > 0 && IsSpace(s[0]) then SkipSpace(s[1..]) else s
  }

  /** The longest prefix of decimal digits. */
  function DigitPrefix(s: string): (r: string)
    ensures r <= s
    ensures forall i :: 0 <= i < |r| ==> IsDigit(r[i])
    ensures |r| < |s| ==> !IsDigit(s[|r|])
  {
    if |s| > 0 && IsDigit(s[0]) then [s[0]] + DigitPrefix(s[1..]) else []
  }

  /** The value of a string of decimal digits, most significant first. */
  function DigitsValue(ds: string): (n: nat)
    requires forall i :: 0 <= i < |ds| ==> IsDigit(ds[i])
  {
    if |ds| == 0 then 0 else 10 * DigitsValue(ds[..|ds| - 1]) + DigitValue(ds[|ds| - 1])
  }

  /** `atoi`: leading white space, an optional sign, then the longest run of
      digits; 0 when there are no digits. (Overflow, undefined in C, is not
      modelled: the value is unbounded.) */
  function Atoi(s: string): (r: int)
    ensures (forall i :: 0 <= i < |s| ==> !IsDigit(s[i])) ==> r == 0
  {
    var t := SkipSpace(s);
    if |t| > 0 && t[0] == '-' then -(DigitsValue(DigitPrefix(t[1..])) as int)
    else if |t| > 0 && t[0] == '+' then DigitsValue(DigitPrefix(t[1..]))
    else DigitsValue(DigitPrefix(t))
  }

  /** The decimal representation of a natural number, without leading zeros. */
  function NatToString(n: nat): (s: string)
    ensures |s| >= 1
    ensures forall i :: 0 <= i < |s| ==> IsDigit(s[i])
  {
    if n < 10 then [DigitChar(n)] else NatToString(n / 10) + [DigitChar(n % 10)]
  }

  lemma {:induction false} DigitsValueOfNat(n: nat)
    ensures DigitsValue(NatToString(n)) == n
  {
    if n >= 10 {
      DigitsValueOfNat(n / 10);
      var s := NatToString(n);
      assert s[..|s| - 1] == NatToString(n / 10);
    }
  }

  lemma {:induction false} DigitPrefixOfDigits(s: string)
    requires forall i :: 0 <= i < |s| ==> IsDigit(s[i])
    ensures DigitPrefix(s) == s
  {
    if |s| > 0 {
      DigitPrefixOfDigits(s[1..]);
      assert [s[0]] + s[1..] == s;
    }
  }

  /** A digit string stops the digit prefix at the first non-digit that follows it. */
  lemma {:induction false} DigitPrefixStops(s: string, u: string)
    requires forall i :: 0 <= i < |s| ==> IsDigit(s[i])
    requires |u| > 0 && !IsDigit(u[0])
    ensures DigitPrefix(s + u) == s
  {
    if |s| > 0 {
      DigitPrefixStops(s[1..], u);
      assert (s + u)[1..] == s[1..] + u;
      assert [s[0]] + s[1..] == s;
    } else {
      assert s + u == u;
    }
  }

  /** `atoi` reads back what `NatToString` writes. */
  lemma AtoiOfNat(n: nat)
    ensures Atoi(NatToString(n)) == n
  {
    var s := NatToString(n);
    assert !IsSpace(s[0]) && s[0] != '-' && s[0] != '+';
    DigitPrefixOfDigits(s);
    DigitsValueOfNat(n);
  }

  /** `atoi` reads a leading number and ignores what follows a non-digit. */
  lemma AtoiOfNatThen(n: nat, u: string)
    requires |u| > 0 && !IsDigit(u[0])
    ensures Atoi(NatToString(n) + u) == n
  {
    var s := NatToString(n);
    assert (s + u)[0] == s[0];
    assert !IsSpace((s + u)[0]) && (s + u)[0] != '-' && (s + u)[0] != '+';
    DigitPrefixStops(s, u);
    DigitsValueOfNat(n);
  }
}
