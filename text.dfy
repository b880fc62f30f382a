/** Python string operations the core relies on, stated over `seq<char>`. */
module Text {

  /** Python's `str.isspace()` for one character. */
  predicate IsSpace(c: char) {
    c == ' ' || ('\t' <= c <= '\r') || ('\U{1C}' <= c <= '\U{1F}')
    || c == '\U{85}' || c == '\U{A0}' || c == '\U{1680}'
    || ('\U{2000}' <= c <= '\U{200A}')
    || c == '\U{2028}' || c == '\U{2029}' || c == '\U{202F}' || c == '\U{205F}' || c == '\U{3000}'
  }

  /** Leading whitespace removed. */
  function TrimLeft(s: string): (r: string)
  {
    if s != [] && IsSpace(s[0]) then TrimLeft(s[1..]) else s
  }

  /** Trailing whitespace removed. */
  function TrimRight(s: string): (r: string)
  {
    if s != [] && IsSpace(s[|s| - 1]) then TrimRight(s[..|s| - 1]) else s
  }

  /** Python's `str.strip()`: the longest slice of `s` with no whitespace at either end. */
  function Strip(s: string): (r: string)
    ensures |r| <= |s|
    ensures r != [] ==> !IsSpace(r[0]) && !IsSpace(r[|r| - 1])
  {
    TrimLeftShape(s);
    TrimRightShape(TrimLeft(s));
    TrimRight(TrimLeft(s))
  }

  lemma {:induction false} TrimLeftShape(s: string)
    ensures |TrimLeft(s)| <= |s| && TrimLeft(s) == s[|s| - |TrimLeft(s)|..]
    ensures TrimLeft(s) != [] ==> !IsSpace(TrimLeft(s)[0])
  {
    if s != [] && IsSpace(s[0]) {
      TrimLeftShape(s[1..]);
    }
  }

  lemma {:induction false} TrimRightShape(s: string)
    ensures |TrimRight(s)| <= |s| && TrimRight(s) == s[..|TrimRight(s)|]
    ensures TrimRight(s) != [] ==> !IsSpace(TrimRight(s)[|TrimRight(s)| - 1])
  {
    if s != [] && IsSpace(s[|s| - 1]) {
      TrimRightShape(s[..|s| - 1]);
    }
  }

  /** Stripping only removes characters. */
  lemma StripKeeps(s: string)
    ensures forall c :: c in Strip(s) ==> c in s
  {
    var l := TrimLeft(s);
    var r := TrimRight(l);
    TrimLeftShape(s);
    TrimRightShape(l);
    assert forall c :: c in r ==> c in l;
    forall c | c in l ensures c in s {
      var i :| 0 <= i < |l| && l[i] == c;
      assert s[|s| - |l| + i] == c;
    }
  }

  /** The characters TrimLeft removes are whitespace. */
  lemma {:induction false} TrimLeftRemovesSpace(s: string)
    ensures forall k :: 0 <= k < |s| - |TrimLeft(s)| ==> IsSpace(s[k])
  {
    if s != [] && IsSpace(s[0]) {
      TrimLeftRemovesSpace(s[1..]);
      forall k | 1 <= k < |s| - |TrimLeft(s)| ensures IsSpace(s[k]) {
        assert s[k] == s[1..][k - 1];
      }
    }
  }

  /** The characters TrimRight removes are whitespace. */
  lemma {:induction false} TrimRightRemovesSpace(s: string)
    ensures forall k :: |TrimRight(s)| <= k < |s| ==> IsSpace(s[k])
  {
    if s != [] && IsSpace(s[|s| - 1]) {
      TrimRightRemovesSpace(s[..|s| - 1]);
      forall k | |TrimRight(s)| <= k < |s| - 1 ensures IsSpace(s[k]) {
        assert s[k] == s[..|s| - 1][k];
      }
    }
  }

  /** `strip()` keeps one contiguous slice of the input and removes only whitespace around it. */
  lemma StripShape(s: string)
    ensures exists i, j :: (0 <= i <= j <= |s| && Strip(s) == s[i..j] &&
      (forall k :: 0 <= k < i ==> IsSpace(s[k])) && (forall k :: j <= k < |s| ==> IsSpace(s[k])))
  {
    var l := TrimLeft(s);
    var r := TrimRight(l);
    TrimLeftShape(s);
    TrimRightShape(l);
    TrimLeftRemovesSpace(s);
    TrimRightRemovesSpace(l);
    var i := |s| - |l|;
    var j := i + |r|;
    assert l == s[i..];
    assert r == l[..|r|];
    assert s[i..j] == r by {
      assert s[i..j] == s[i..][..|r|];
    }
    assert Strip(s) == r;
    forall k | j <= k < |s| ensures IsSpace(s[k]) {
      assert s[k] == l[k - i];
    }
    assert forall k :: 0 <= k < i ==> IsSpace(s[k]);
  }

  /** A string without whitespace at either end is its own strip. */
  lemma StripTrimmed(s: string)
    requires s != [] ==> !IsSpace(s[0]) && !IsSpace(s[|s| - 1])
    ensures Strip(s) == s
  {
  }

  lemma StripIdempotent(s: string)
    ensures Strip(Strip(s)) == Strip(s)
  {
    StripTrimmed(Strip(s));
  }

  lemma {:induction false} TrimLeftAppend(a: string, b: string)
    ensures TrimLeft(a + b) == if TrimLeft(a) == [] then TrimLeft(b) else TrimLeft(a) + b
  {
    if a == [] {
      assert a + b == b;
    } else if IsSpace(a[0]) {
      assert (a + b)[1..] == a[1..] + b;
      assert TrimLeft(a) == TrimLeft(a[1..]);
      assert TrimLeft(a + b) == TrimLeft(a[1..] + b);
      TrimLeftAppend(a[1..], b);
    } else {
      assert TrimLeft(a) == a;
    }
  }

  /** Stripping ignores one more whitespace character at the end. */
  lemma StripAppendSpace(s: string, c: char)
    requires IsSpace(c)
    ensures Strip(s + [c]) == Strip(s)
  {
    TrimLeftAppend(s, [c]);
    var l := TrimLeft(s);
    if l != [] {
      assert (l + [c])[..|l|] == l;
    }
  }

  predicate StartsWith(s: string, prefix: string) {
    |prefix| <= |s| && s[..|prefix|] == prefix
  }

  predicate EndsWith(s: string, suffix: string) {
    |suffix| <= |s| && s[|s| - |suffix|..] == suffix
  }

  lemma ConcatEnds(a: string, b: string)
    ensures StartsWith(a + b, a) && EndsWith(a + b, b)
  {
    assert (a + b)[..|a|] == a;
    assert (a + b)[|a|..] == b;
  }

  lemma StartsWithExtend(s: string, prefix: string, b: string)
    requires StartsWith(s, prefix)
    ensures StartsWith(s + b, prefix)
  {
    assert (s + b)[..|prefix|] == s[..|prefix|];
  }

  /** `t` occurs in `s` as a contiguous piece (Python's `t in s`). */
  ghost predicate Occurs(t: string, s: string) {
    exists k :: 0 <= k <= |s| && t <= s[k..]
  }

  lemma OccursTrans(t: string, u: string, s: string)
    requires Occurs(t, u) && Occurs(u, s)
    ensures Occurs(t, s)
  {
    var i :| 0 <= i <= |u| && t <= u[i..];
    var k :| 0 <= k <= |s| && u <= s[k..];
    assert t <= s[k + i..];
  }

  lemma OccursBetween(a: string, t: string, b: string)
    ensures Occurs(t, a + t + b)
  {
    assert t <= (a + t + b)[|a|..];
  }

  lemma OccursSuffix(a: string, t: string)
    ensures Occurs(t, a + t)
  {
    assert t <= (a + t)[|a|..];
  }

  lemma OccursExtend(t: string, s: string, b: string)
    requires Occurs(t, s)
    ensures Occurs(t, s + b)
  {
    var k :| 0 <= k <= |s| && t <= s[k..];
    assert (s + b)[k..] == s[k..] + b;
  }

  lemma OccursPrepend(t: string, a: string, s: string)
    requires Occurs(t, s)
    ensures Occurs(t, a + s)
  {
    var k :| 0 <= k <= |s| && t <= s[k..];
    assert (a + s)[|a| + k..] == s[k..];
  }

  /** Python's `s[:n]`. */
  function Take(s: string, n: nat): (r: string)
    ensures |r| <= n && StartsWith(s, r)
    ensures |s| <= n ==> r == s
    ensures n <= |s| ==> |r| == n
  {
    if |s| <= n then s else s[..n]
  }

  /** Python's `s.lower()` on ASCII letters; other characters are kept. */
  function LowerChar(c: char): char {
    if 'A' <= c <= 'Z' then (c as int + 32) as char else c
  }

  function Lower(s: string): (r: string)
    ensures |r| == |s| && forall i :: 0 <= i < |s| ==> r[i] == LowerChar(s[i])
  {
    seq(|s|, i requires 0 <= i < |s| => LowerChar(s[i]))
  }

  /**
   * Python's `c.upper()` for the characters whose upper case is a single
   * ASCII letter: `a`-`z`, and the long s U+017F, whose upper case is `S`.
   * Characters whose upper case is longer than one character are kept, which
   * leaves every comparison with a one-letter string unchanged.
   */
  function UpperChar(c: char): char {
    if 'a' <= c <= 'z' then (c as int - 32) as char
    else if c == '\U{017F}' then 'S'
    else c
  }

  function Upper(s: string): (r: string)
    ensures |r| == |s| && forall i :: 0 <= i < |s| ==> r[i] == UpperChar(s[i])
  {
    seq(|s|, i requires 0 <= i < |s| => UpperChar(s[i]))
  }

  /** Every occurrence of a character of `bad` replaced by `with` (a one-character `re.sub` class). */
  function ReplaceAll(s: string, bad: set<char>, with: char): (r: string)
    ensures |r| == |s|
    ensures forall i :: 0 <= i < |s| ==> r[i] == if s[i] in bad then with else s[i]
  {
    seq(|s|, i requires 0 <= i < |s| => if s[i] in bad then with else s[i])
  }

  /** Python's `c * n` for a one-character string `c`. */
  function Repeat(c: char, n: nat): (r: string)
    ensures |r| == n
    ensures forall i :: 0 <= i < n ==> r[i] == c
  {
    if n == 0 then [] else [c] + Repeat(c, n - 1)
  }

  /** Python's `s.replace(c, "")` for a one-character `c`. */
  function RemoveChar(s: string, c: char): (r: string)
    ensures |r| <= |s|
    ensures c !in r
    ensures forall d :: d in r ==> d in s
  {
    if s == [] then []
    else (if s[0] == c then [] else [s[0]]) + RemoveChar(s[1..], c)
  }

  /** Removing a character distributes over concatenation, so the kept characters stay in order. */
  lemma {:induction false} RemoveCharAppend(a: string, b: string, c: char)
    ensures RemoveChar(a + b, c) == RemoveChar(a, c) + RemoveChar(b, c)
  {
    if a == [] {
      assert a + b == b;
    } else {
      assert (a + b)[0] == a[0] && (a + b)[1..] == a[1..] + b;
      RemoveCharAppend(a[1..], b, c);
    }
  }

  /** Every character other than `c` is kept as often as it occurs, and `c` not at all. */
  lemma {:induction false} RemoveCharCounts(s: string, c: char)
    ensures multiset(RemoveChar(s, c))[c] == 0
    ensures forall d :: d != c ==> multiset(RemoveChar(s, c))[d] == multiset(s)[d]
  {
    if s != [] {
      RemoveCharCounts(s[1..], c);
      assert s == [s[0]] + s[1..];
      assert multiset(s) == multiset([s[0]]) + multiset(s[1..]);
    }
  }

  /** A string without `c` is unchanged by removing it. */
  lemma {:induction false} RemoveCharAbsent(s: string, c: char)
    requires c !in s
    ensures RemoveChar(s, c) == s
  {
    if s != [] {
      assert c !in s[1..];
      RemoveCharAbsent(s[1..], c);
    }
  }

  /** Removing `c` from `a c b c d`, where only the two marked places hold `c`, leaves `a b d`. */
  lemma RemoveCharTwice(a: string, b: string, d: string, c: char)
    requires c !in a && c !in b && c !in d
    ensures RemoveChar(a + ([c] + (b + ([c] + d))), c) == a + (b + d)
  {
    RemoveCharAbsent(a, c);
    RemoveCharAbsent(b, c);
    RemoveCharAbsent(d, c);
    var s1 := [c] + d;
    assert s1[0] == c && s1[1..] == d;
    assert RemoveChar(s1, c) == d;
    var s2 := b + s1;
    RemoveCharAppend(b, s1, c);
    var s3 := [c] + s2;
    assert s3[0] == c && s3[1..] == s2;
    assert RemoveChar(s3, c) == b + d;
    RemoveCharAppend(a, s3, c);
  }

  /** The part of `s` after its first `c`, or None (Python's `s.split(c, 1)[1]`, which fails without one). */
  function AfterFirst(s: string, c: char): (r: Option<string>)
    ensures r.None? <==> c !in s
  {
    if s == [] then None
    else if s[0] == c then Some(s[1..])
    else AfterFirst(s[1..], c)
  }

  lemma {:induction false} AfterFirstAt(a: string, c: char, b: string)
    requires c !in a
    ensures AfterFirst(a + [c] + b, c) == Some(b)
  {
    if a != [] {
      assert (a + [c] + b)[1..] == a[1..] + [c] + b;
      AfterFirstAt(a[1..], c, b);
    }
  }

  /** Start of the last occurrence of `sep` in `s`. */
  function LastOccurrence(s: string, sep: string): (r: Option<nat>)
    requires sep != []
    ensures r.Some? ==> r.value + |sep| <= |s|
    decreases |s|
  {
    if |s| < |sep| then None
    else if s[|s| - |sep|..] == sep then Some(|s| - |sep|)
    else LastOccurrence(s[..|s| - 1], sep)
  }

  /** Dropping the last character keeps every occurrence that ends before it. */
  lemma OccurrenceAtDropLast(s: string, sep: string, k: nat)
    requires k + |sep| < |s|
    ensures sep <= s[k..] <==> sep <= s[..|s| - 1][k..]
  {
    assert s[k..][..|sep|] == s[..|s| - 1][k..][..|sep|];
  }

  /** The position found is an occurrence, and no later position is one. */
  lemma {:induction false} LastOccurrenceFound(s: string, sep: string)
    requires sep != [] && LastOccurrence(s, sep).Some?
    ensures sep <= s[LastOccurrence(s, sep).value..]
    ensures forall k :: LastOccurrence(s, sep).value < k <= |s| ==> !(sep <= s[k..])
    decreases |s|
  {
    var r := LastOccurrence(s, sep).value;
    var last := |s| - |sep|;
    if s[last..] != sep {
      var init := s[..|s| - 1];
      assert LastOccurrence(s, sep) == LastOccurrence(init, sep);
      LastOccurrenceFound(init, sep);
      assert r + |sep| <= |init|;
      assert init[r..][..|sep|] == s[r..][..|sep|];
      forall k | r < k <= |s| ensures !(sep <= s[k..]) {
        if k < last {
          OccurrenceAtDropLast(s, sep, k);
        } else if k == last {
          assert s[k..] == s[last..];
        }
      }
    }
  }

  /** None means `sep` occurs nowhere in `s`. */
  lemma {:induction false} LastOccurrenceAbsent(s: string, sep: string)
    requires sep != [] && LastOccurrence(s, sep).None?
    ensures forall k :: 0 <= k <= |s| ==> !(sep <= s[k..])
    decreases |s|
  {
    if |s| >= |sep| {
      assert LastOccurrence(s, sep) == LastOccurrence(s[..|s| - 1], sep);
      LastOccurrenceAbsent(s[..|s| - 1], sep);
      forall k | 0 <= k <= |s| ensures !(sep <= s[k..]) {
        if k + |sep| < |s| {
          OccurrenceAtDropLast(s, sep, k);
        }
      }
    }
  }

  /** Python's `s.rsplit(sep, 1)[0]`: everything before the last `sep`, or all of `s`. */
  function BeforeLast(s: string, sep: string): string
    requires sep != []
  {
    match LastOccurrence(s, sep)
    case None => s
    case Some(k) => s[..k]
  }

  /** When `s` ends with `sep`, its last occurrence is that suffix, so exactly the suffix is cut. */
  lemma BeforeLastSuffix(s: string, sep: string)
    requires sep != [] && EndsWith(s, sep)
    ensures BeforeLast(s, sep) == s[..|s| - |sep|]
  {
  }

  datatype Option<+T> = None | Some(value: T)

  function DigitChar(d: nat): char
    requires d < 10
  {
    ('0' as int + d) as char
  }

  /** The value of a decimal digit; the inverse of DigitChar. */
  function DigitValue(c: char): nat {
    if '0' <= c <= '9' then c as int - '0' as int else 0
  }

  /** The number a string of decimal digits denotes (Python's `int(s)` on digits). */
  function DecimalValue(s: string): nat {
    if s == [] then 0 else DecimalValue(s[..|s| - 1]) * 10 + DigitValue(s[|s| - 1])
  }

  /** Python's `str(n)` for a natural number. */
  function NatToString(n: nat): (r: string)
    ensures r != [] && forall i :: 0 <= i < |r| ==> '0' <= r[i] <= '9'
  {
    if n < 10 then [DigitChar(n)] else NatToString(n / 10) + [DigitChar(n % 10)]
  }

  /** Reading back `str(n)` gives `n`. */
  lemma {:induction false} NatToStringRoundTrip(n: nat)
    ensures DecimalValue(NatToString(n)) == n
  {
    if n >= 10 {
      NatToStringRoundTrip(n / 10);
      var r := NatToString(n);
      assert r[..|r| - 1] == NatToString(n / 10);
    }
  }

  /** `str(n)` has no leading zero, except for zero itself. */
  lemma {:induction false} NatToStringNoLeadingZero(n: nat)
    ensures NatToString(n)[0] == '0' ==> n == 0
  {
    if n >= 10 {
      NatToStringNoLeadingZero(n / 10);
    }
  }

  /** Python's `str(n)` for an integer. */
  function IntToString(n: int): (r: string)
    ensures r != []
    ensures n < 0 <==> r[0] == '-'
  {
    if n < 0 then "-" + NatToString(-n) else NatToString(n)
  }

  /** Reading back `str(n)` gives `n`, with a leading minus sign for a negative one. */
  lemma IntToStringRoundTrip(n: int)
    ensures var r := IntToString(n);
      (if r[0] == '-' then -(DecimalValue(r[1..]) as int) else DecimalValue(r)) == n
  {
    if n < 0 {
      NatToStringRoundTrip(-n);
      assert IntToString(n)[1..] == NatToString(-n);
    } else {
      NatToStringRoundTrip(n);
    }
  }

  /** Python's `sep.join(parts)`. */
  function Join(parts: seq<string>, sep: string): string
  {
    if |parts| == 0 then ""
    else if |parts| == 1 then parts[0]
    else Join(parts[..|parts| - 1], sep) + sep + parts[|parts| - 1]
  }

  /** Every part of a join occurs in it. */
  lemma {:induction false} JoinContainsParts(parts: seq<string>, sep: string, i: nat)
    requires i < |parts|
    ensures Occurs(parts[i], Join(parts, sep))
  {
    var n := |parts|;
    if n == 1 {
      OccursBetween("", parts[0], "");
      assert "" + parts[0] + "" == Join(parts, sep);
    } else if i == n - 1 {
      OccursBetween(Join(parts[..n - 1], sep) + sep, parts[i], "");
      assert Join(parts[..n - 1], sep) + sep + parts[i] + "" == Join(parts, sep);
    } else {
      JoinContainsParts(parts[..n - 1], sep, i);
      var inner := Join(parts[..n - 1], sep);
      var k :| 0 <= k <= |inner| && parts[i] <= inner[k..];
      var whole := inner + sep + parts[n - 1];
      assert whole[k..] == inner[k..] + sep + parts[n - 1];
    }
  }
}
