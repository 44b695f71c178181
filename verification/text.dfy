/** The string operations of Python that the discovery code relies on:
    `str.strip()`, `str.lower()`, `str.replace()`, `str.endswith()`, substring
    search, `int()` on a decimal literal and `str()` of an integer. */
module Text {
  import opened Options

  // ---------------------------------------------------------------- strip()

  /** The characters Python's `str.isspace()` accepts, which `str.strip()` removes. */
  predicate IsSpace(c: char)
  {
    || c == ' '
    || ('\t' <= c <= '\r')
    || ('\U{1C}' <= c <= '\U{1F}')
    || c == '\U{85}'
    || c == '\U{A0}'
    || c == '\U{1680}'
    || ('\U{2000}' <= c <= '\U{200A}')
    || c == '\U{2028}'
    || c == '\U{2029}'
    || c == '\U{202F}'
    || c == '\U{205F}'
    || c == '\U{3000}'
  }

  predicate AllSpace(s: string)
  {
    forall i :: 0 <= i < |s| ==> IsSpace(s[i])
  }

  /** Neither end of `s` is whitespace. */
  predicate IsTrimmed(s: string)
  {
    s == [] || (!IsSpace(s[0]) && !IsSpace(s[|s| - 1]))
  }

  /** Python's `s.lstrip()`: the suffix left after the leading whitespace. */
  function TrimLeft(s: string): (r: string)
    ensures |r| <= |s| && r == s[|s| - |r|..]
    ensures forall i :: 0 <= i < |s| - |r| ==> IsSpace(s[i])
    ensures r == [] || !IsSpace(r[0])
  {
    if s != [] && IsSpace(s[0]) then TrimLeft(s[1..]) else s
  }

  /** Python's `s.rstrip()`: the prefix left before the trailing whitespace. */
  function TrimRight(s: string): (r: string)
    ensures |r| <= |s| && r == s[..|r|]
    ensures forall i :: |r| <= i < |s| ==> IsSpace(s[i])
    ensures r == [] || !IsSpace(r[|r| - 1])
  {
    if s != [] && IsSpace(s[|s| - 1]) then TrimRight(s[..|s| - 1]) else s
  }

  /** Python's `s.strip()`. A string is "blank" exactly when this is empty. */
  function Trim(s: string): (r: string)
    ensures IsTrimmed(r)
    ensures |r| <= |s|
  {
    var l := TrimLeft(s);
    var r := TrimRight(l);
    assert r != [] ==> r[0] == l[0];
    r
  }

  /** A string is blank, all whitespace, exactly when `strip()` empties it. */
  lemma TrimBlank(s: string)
    ensures Trim(s) == [] <==> AllSpace(s)
  {
    var l := TrimLeft(s);
    var n := |s| - |l|;
    assert Trim(s) == TrimRight(l);
    assert l != [] ==> l[0] == s[n];
    assert TrimRight(l) == [] ==> AllSpace(l);
    forall i | n <= i < |s|
      ensures s[i] == l[i - n]
    {
    }
  }

  lemma {:induction false} TrimLeftSkips(pre: string, rest: string)
    requires AllSpace(pre)
    requires rest == [] || !IsSpace(rest[0])
    ensures TrimLeft(pre + rest) == rest
  {
    if pre != [] {
      assert (pre + rest)[1..] == pre[1..] + rest;
      TrimLeftSkips(pre[1..], rest);
    }
  }

  lemma {:induction false} TrimRightSkips(rest: string, post: string)
    requires AllSpace(post)
    requires rest == [] || !IsSpace(rest[|rest| - 1])
    ensures TrimRight(rest + post) == rest
  {
    if post != [] {
      assert (rest + post)[..|rest + post| - 1] == rest + post[..|post| - 1];
      TrimRightSkips(rest, post[..|post| - 1]);
    } else {
      assert rest + post == rest;
    }
  }

  /** `strip()` recovers a trimmed core from any whitespace padding around it,
      so it is characterised independently of how it is computed. */
  lemma TrimOfPadded(pre: string, core: string, post: string)
    requires AllSpace(pre) && AllSpace(post) && IsTrimmed(core)
    ensures Trim(pre + core + post) == core
  {
    if core == [] {
      assert AllSpace(pre + core + post);
    } else {
      assert pre + core + post == pre + (core + post);
      TrimLeftSkips(pre, core + post);
      TrimRightSkips(core, post);
    }
  }

  // ---------------------------------------------------------------- lower()

  function LowerChar(c: char): char
  {
    if 'A' <= c <= 'Z' then (c as int - 'A' as int + 'a' as int) as char else c
  }

  /** `str.lower()` restricted to ASCII capitals. */
  function Lower(s: string): (r: string)
    ensures |r| == |s|
    ensures forall i :: 0 <= i < |s| ==> r[i] == LowerChar(s[i])
  {
    if s == [] then [] else [LowerChar(s[0])] + Lower(s[1..])
  }

  // ------------------------------------------------- substring search, replace()

  /** `pat` occurs in `s` at index `i`. */
  predicate StartsAt(s: string, i: nat, pat: string)
  {
    i + |pat| <= |s| && s[i..i + |pat|] == pat
  }

  /** Python's `pat in s` for strings. */
  predicate Contains(s: string, pat: string)
  {
    exists i: nat :: i <= |s| && StartsAt(s, i, pat)
  }

  /** Python's `s.endswith(suffix)`. */
  predicate EndsWith(s: string, suffix: string)
  {
    |suffix| <= |s| && s[|s| - |suffix|..] == suffix
  }

  /** The first index of `c` in `s` (Python's `s.find(c)`, with `None` for -1). */
  function IndexOf(s: string, c: char): (r: Option<nat>)
    ensures r.Some? ==> r.value < |s| && s[r.value] == c && c !in s[..r.value]
    ensures r.None? ==> c !in s
  {
    if s == [] then None
    else if s[0] == c then Some(0)
    else
      match IndexOf(s[1..], c)
      case None => None
      case Some(i) =>
        assert s[..i + 1] == [s[0]] + s[1..][..i];
        Some(i + 1)
  }

  /** The first occurrence is found: a `c` with none before it. */
  lemma {:induction false} IndexOfAt(s: string, c: char, i: nat)
    requires i < |s| && s[i] == c && c !in s[..i]
    ensures IndexOf(s, c) == Some(i)
  {
    if i > 0 {
      assert s[..i][0] == s[0];
      assert s[1..][..i - 1] == s[..i][1..];
      IndexOfAt(s[1..], c, i - 1);
    }
  }

  lemma AbsentInSuffix(s: string, k: nat, pat: string)
    requires k <= |s| && !Contains(s, pat)
    ensures !Contains(s[k..], pat)
  {
    forall i: nat | i <= |s[k..]| ensures !StartsAt(s[k..], i, pat) {
      if i + |pat| <= |s| - k {
        assert s[k..][i..i + |pat|] == s[k + i..k + i + |pat|];
        assert !StartsAt(s, k + i, pat);
      }
    }
  }

  /** A pattern whose first character does not occur in `s` is not in `s`. */
  lemma AbsentHead(s: string, pat: string)
    requires pat != [] && pat[0] !in s
    ensures !Contains(s, pat)
  {
    forall i: nat | i <= |s| ensures !StartsAt(s, i, pat) {
      if i + |pat| <= |s| {
        assert s[i..i + |pat|][0] == s[i];
      }
    }
  }

  /** Python's `s.replace(pat, rep)`: every non-overlapping occurrence of `pat`,
      found from left to right, is replaced by `rep`. */
  function Replace(s: string, pat: string, rep: string): string
    requires pat != []
    decreases |s|
  {
    if |s| < |pat| then s
    else if s[..|pat|] == pat then rep + Replace(s[|pat|..], pat, rep)
    else [s[0]] + Replace(s[1..], pat, rep)
  }

  /** Without an occurrence of `pat`, `replace` changes nothing. */
  lemma {:induction false} ReplaceAbsent(s: string, pat: string, rep: string)
    requires pat != [] && !Contains(s, pat)
    ensures Replace(s, pat, rep) == s
  {
    if |s| < |pat| {
    } else if s[..|pat|] == pat {
      assert StartsAt(s, 0, pat);
    } else {
      AbsentInSuffix(s, 1, pat);
      ReplaceAbsent(s[1..], pat, rep);
    }
  }

  /** Text that holds no first character of `pat` is copied as it is, and
      the replacement goes on after it. */
  lemma {:induction false} ReplaceSkipHead(x: string, y: string, pat: string, rep: string)
    requires pat != [] && pat[0] !in x
    ensures Replace(x + y, pat, rep) == x + Replace(y, pat, rep)
  {
    if x == [] {
      assert x + y == y;
    } else {
      var s := x + y;
      assert s[0] == x[0] && s[1..] == x[1..] + y;
      if |s| < |pat| {
        ReplaceShort(s, pat, rep);
        ReplaceShort(y, pat, rep);
      } else {
        assert s[..|pat|][0] == x[0];
        ReplaceSkipHead(x[1..], y, pat, rep);
        assert [x[0]] + (x[1..] + Replace(y, pat, rep)) == x + Replace(y, pat, rep);
      }
    }
  }

  lemma ReplaceShort(s: string, pat: string, rep: string)
    requires pat != [] && |s| < |pat|
    ensures Replace(s, pat, rep) == s
  {
  }

  /** An occurrence of `pat` at the head is replaced by `rep`. */
  lemma ReplaceAtHead(pat: string, y: string, rep: string)
    requires pat != []
    ensures Replace(pat + y, pat, rep) == rep + Replace(y, pat, rep)
  {
    var s := pat + y;
    assert s[..|pat|] == pat && s[|pat|..] == y;
  }

  /** The first occurrence of `pat` becomes `rep`: the text before it, which
      holds no first character of `pat`, is kept, and the replacement goes on
      after it. */
  lemma ReplaceFirst(pre: string, pat: string, post: string, rep: string)
    requires pat != [] && pat[0] !in pre
    ensures Replace(pre + pat + post, pat, rep) == pre + rep + Replace(post, pat, rep)
  {
    assert pre + pat + post == pre + (pat + post);
    ReplaceSkipHead(pre, pat + post, pat, rep);
    ReplaceAtHead(pat, post, rep);
    AppendAssoc(pre, rep, Replace(post, pat, rep));
  }

  /** Concatenation regroups; stated once so that proofs need not rederive it. */
  lemma AppendAssoc<T>(a: seq<T>, b: seq<T>, c: seq<T>)
    ensures (a + b) + c == a + (b + c)
  {
  }

  /** A prefix of `s.replace(pat, rep)` that holds no character of `rep` is
      the same prefix of `s`: nothing was replaced before it. */
  lemma {:induction false} ReplaceKeepsPrefix(t: string, pat: string, rep: string, m: nat)
    requires pat != [] && rep != []
    requires m <= |Replace(t, pat, rep)|
    requires forall j :: 0 <= j < m ==> Replace(t, pat, rep)[j] !in rep
    ensures m <= |t| && Replace(t, pat, rep)[..m] == t[..m]
  {
    var r := Replace(t, pat, rep);
    assert m > 0 ==> r[0] !in rep;
    if |t| < |pat| {
    } else if t[..|pat|] == pat {
      assert r[0] in rep;
    } else if m > 0 {
      var r' := Replace(t[1..], pat, rep);
      assert r == [t[0]] + r';
      forall j | 0 <= j < m - 1 ensures r'[j] !in rep {
        assert r'[j] == r[j + 1];
      }
      ReplaceKeepsPrefix(t[1..], pat, rep, m - 1);
      assert m <= |t|;
      assert r[..m] == [t[0]] + r'[..m - 1] by {
        forall j | 0 <= j < m ensures r[..m][j] == ([t[0]] + r'[..m - 1])[j] {
        }
      }
      assert t[..m] == [t[0]] + t[1..][..m - 1] by {
        forall j | 0 <= j < m ensures t[..m][j] == ([t[0]] + t[1..][..m - 1])[j] {
        }
      }
    }
  }

  /** A prefix made only of characters foreign to `q` cannot start or hold an
      occurrence of `q`. */
  lemma ForeignPrefix(a: string, b: string, q: string)
    requires q != [] && !Contains(b, q)
    requires forall c :: c in a ==> c !in q
    ensures !Contains(a + b, q)
  {
    var r := a + b;
    forall i: nat | i <= |r| ensures !StartsAt(r, i, q) {
      if i < |a| {
        assert r[i] == a[i] && r[i] in a;
      } else if StartsAt(r, i, q) {
        assert r[i..i + |q|] == b[i - |a|..i - |a| + |q|];
        assert StartsAt(b, i - |a|, q);
      }
    }
  }

  /** When `s` does not start with `pat`, its first character is copied by
      `replace`; an occurrence of `q` at the head of the result, made of
      characters foreign to `rep`, is then already an occurrence in `s`. */
  lemma ReplaceCopyHead(s: string, pat: string, rep: string, q: string)
    requires pat != [] && rep != [] && q != []
    requires forall c :: c in rep ==> c !in q
    requires |s| >= |pat| && s[..|pat|] != pat
    requires StartsAt(Replace(s, pat, rep), 0, q)
    ensures StartsAt(s, 0, q)
  {
    var r' := Replace(s[1..], pat, rep);
    var n := |q| - 1;
    assert n <= |r'| && q == [s[0]] + r'[..n] by {
      assert Replace(s, pat, rep) == [s[0]] + r';
    }
    assert forall j :: 0 <= j < n ==> r'[j] !in rep by {
      forall j | 0 <= j < n ensures r'[j] !in rep {
        assert r'[j] == q[j + 1] && q[j + 1] in q;
      }
    }
    ReplaceKeepsPrefix(s[1..], pat, rep, n);
    assert s[..|q|] == [s[0]] + s[1..][..n];
  }

  /** An occurrence of `q` after the first character lies in the tail. */
  lemma NoOccurrenceInTail(c: char, t: string, q: string)
    requires !Contains(t, q)
    ensures forall i: nat :: 0 < i <= |t| + 1 ==> !StartsAt([c] + t, i, q)
  {
    var r := [c] + t;
    forall i: nat | 0 < i <= |r| ensures !StartsAt(r, i, q) {
      if StartsAt(r, i, q) {
        assert r[i..i + |q|] == t[i - 1..i - 1 + |q|];
        assert StartsAt(t, i - 1, q);
      }
    }
  }

  /** When `rep` shares no character with `q`, `s.replace(pat, rep)` holds no
      occurrence of `q`, provided `q` is the pattern replaced or `s` had none. */
  lemma {:induction false} ReplaceLeavesNo(s: string, pat: string, rep: string, q: string)
    requires pat != [] && rep != [] && q != []
    requires forall c :: c in rep ==> c !in q
    requires q == pat || !Contains(s, q)
    ensures !Contains(Replace(s, pat, rep), q)
  {
    if |s| < |pat| {
      if q == pat {
        assert forall i: nat :: !StartsAt(s, i, q);
      }
    } else if s[..|pat|] == pat {
      if q != pat {
        AbsentInSuffix(s, |pat|, q);
      }
      ReplaceLeavesNo(s[|pat|..], pat, rep, q);
      ForeignPrefix(rep, Replace(s[|pat|..], pat, rep), q);
    } else {
      if q != pat {
        AbsentInSuffix(s, 1, q);
      }
      ReplaceLeavesNo(s[1..], pat, rep, q);
      if StartsAt(Replace(s, pat, rep), 0, q) {
        ReplaceCopyHead(s, pat, rep, q);
      }
      NoOccurrenceInTail(s[0], Replace(s[1..], pat, rep), q);
    }
  }

  // ------------------------------------------------------- int() and str(int)

  predicate IsDigit(c: char)
  {
    '0' <= c <= '9'
  }

  predicate AllDigits(s: string)
  {
    forall i :: 0 <= i < |s| ==> IsDigit(s[i])
  }

  /** The value of a string of decimal digits, leading zeros allowed. */
  function DigitsValue(s: string): nat
    requires AllDigits(s)
  {
    if s == [] then 0 else DigitsValue(s[..|s| - 1]) * 10 + (s[|s| - 1] as int - '0' as int)
  }

  /** Python's `int(s)` on an already stripped string: an optional sign and one
      or more ASCII digits; anything else raises, which is `None` here. */
  function ParseInt(s: string): (r: Option<int>)
    ensures r.Some? <==>
      || (s != [] && AllDigits(s))
      || (|s| > 1 && (s[0] == '+' || s[0] == '-') && AllDigits(s[1..]))
    ensures AllDigits(s) && s != [] ==> r == Some(DigitsValue(s))
    ensures |s| > 1 && s[0] == '+' && AllDigits(s[1..]) ==> r == Some(DigitsValue(s[1..]))
    ensures |s| > 1 && s[0] == '-' && AllDigits(s[1..]) ==>
      var magnitude: int := DigitsValue(s[1..]); r == Some(-magnitude)
  {
    if |s| > 0 && (s[0] == '+' || s[0] == '-') then
      if |s| > 1 && AllDigits(s[1..]) then
        var magnitude: int := DigitsValue(s[1..]);
        Some(if s[0] == '-' then -magnitude else magnitude)
      else
        None
    else if |s| > 0 && AllDigits(s) then
      Some(DigitsValue(s))
    else
      None
  }

  function DigitChar(d: nat): char
    requires d < 10
  {
    ('0' as int + d) as char
  }

  /** Python's `str(n)` for a non-negative integer: no leading zeros. */
  function NatToString(n: nat): (r: string)
    ensures r != [] && AllDigits(r)
    ensures |r| > 1 ==> r[0] != '0'
  {
    if n < 10 then [DigitChar(n)] else NatToString(n / 10) + [DigitChar(n % 10)]
  }

  /** Python's `str(n)` for any integer, as in an f-string `{port}`. */
  function IntToString(n: int): (r: string)
    ensures r != []
  {
    if n < 0 then "-" + NatToString(-n) else NatToString(n)
  }

  lemma {:induction false} NatToStringValue(n: nat)
    ensures DigitsValue(NatToString(n)) == n
  {
    if n >= 10 {
      var s := NatToString(n);
      assert s[..|s| - 1] == NatToString(n / 10);
      NatToStringValue(n / 10);
    }
  }

  /** `int(str(n)) == n`: the port rendered into a backend URL reads back as itself. */
  lemma ParseIntToString(n: int)
    ensures ParseInt(IntToString(n)) == Some(n)
  {
    if n < 0 {
      var s := IntToString(n);
      assert s[1..] == NatToString(-n);
      NatToStringValue(-n);
    } else {
      NatToStringValue(n);
    }
  }
}
